/**
 What streams of clocks do to a chain: instruction scans, and data scans with padding for the BYPASS
 registers of the other devices.
 */
module ChainCommands {
  import opened BitWords
  import opened ScanChain

  const TMS_HIGH := Pins(true, false)
  const TMS_LOW := Pins(false, false)

  const GO_SHIFT_IR: seq<Pins> := [TMS_HIGH, TMS_HIGH, TMS_LOW, TMS_LOW]
  const GO_SHIFT_DR: seq<Pins> := [TMS_HIGH, TMS_LOW, TMS_LOW]
  const EXIT_TO_IDLE: seq<Pins> := [TMS_HIGH, TMS_LOW]

  /** A stream of data bits; TMS rises with the last one on request. */
  function DataPins(bits: Bits, tmsOnLast: bool): (pins: seq<Pins>)
    ensures |pins| == |bits|
  {
    seq(|bits|, i requires 0 <= i < |bits| => Pins(tmsOnLast && i == |bits| - 1, bits[i]))
  }

  /** What the cable samples while it clocks `pins`. */
  function TdoRun(c: Chain, pins: seq<Pins>): (r: Bits)
    requires c.Valid()
    ensures |r| == |pins|
    decreases |pins|
  {
    if pins == [] then [] else [Tdo(c, pins[0])] + TdoRun(Clock(c, pins[0]), pins[1..])
  }

  lemma {:induction false} TdoRunAppend(c: Chain, a: seq<Pins>, b: seq<Pins>)
    requires c.Valid()
    ensures TdoRun(c, a + b) == TdoRun(c, a) + TdoRun(Run(c, a), b)
    decreases |a|
  {
    if a == [] {
      assert a + b == b;
    } else {
      assert (a + b)[1..] == a[1..] + b;
      TdoRunAppend(Clock(c, a[0]), a[1..], b);
    }
  }

  /** Data clocked in Shift-DR moves through the data registers and nothing else. */
  lemma {:induction false} DataInShiftDr(c: Chain, bits: Bits, tmsOnLast: bool)
    requires c.Valid() && c.tap == ShiftDr
    ensures var pins := DataPins(bits, tmsOnLast);
            && TdoRun(c, pins) == ShiftMany(c.drStage, bits).1
            && Run(c, pins) == c.(drStage := ShiftMany(c.drStage, bits).0,
                                  tap := if tmsOnLast && bits != [] then Exit1Dr else ShiftDr)
    decreases |bits|
  {
    if bits != [] {
      var pins := DataPins(bits, tmsOnLast);
      assert pins[1..] == DataPins(bits[1..], tmsOnLast);
      if |bits| == 1 {
        assert bits[1..] == [];
      } else {
        DataInShiftDr(Clock(c, pins[0]), bits[1..], tmsOnLast);
      }
    }
  }

  lemma {:induction false} DataInShiftIr(c: Chain, bits: Bits, tmsOnLast: bool)
    requires c.Valid() && c.tap == ShiftIr
    ensures Run(c, DataPins(bits, tmsOnLast))
         == c.(irStage := ShiftMany(c.irStage, bits).0,
               tap := if tmsOnLast && bits != [] then Exit1Ir else ShiftIr)
    decreases |bits|
  {
    if bits != [] {
      var pins := DataPins(bits, tmsOnLast);
      assert pins[1..] == DataPins(bits[1..], tmsOnLast);
      if |bits| == 1 {
        assert bits[1..] == [];
      } else {
        DataInShiftIr(Clock(c, pins[0]), bits[1..], tmsOnLast);
      }
    }
  }

  // ---------- Instruction scans ----------

  function IrScanPins(bits: Bits): seq<Pins> {
    GO_SHIFT_IR + DataPins(bits, true) + EXIT_TO_IDLE
  }

  lemma GoShiftIr(c: Chain)
    requires c.Valid() && c.tap == RunTestIdle
    ensures Run(c, GO_SHIFT_IR)
         == c.(tap := ShiftIr, irStage := IrCaptures(c))
  {
    assert GO_SHIFT_IR[1..] == [TMS_HIGH, TMS_LOW, TMS_LOW];
    assert GO_SHIFT_IR[1..][1..] == [TMS_LOW, TMS_LOW];
    var c1 := Clock(c, TMS_HIGH);
    var c2 := Clock(c1, TMS_HIGH);
    var c3 := Clock(c2, TMS_LOW);
    assert Run(c2, [TMS_LOW, TMS_LOW]) == Run(c3, [TMS_LOW]) == Clock(c3, TMS_LOW);
  }

  lemma GoShiftDr(c: Chain)
    requires c.Valid() && c.tap == RunTestIdle
    ensures Run(c, GO_SHIFT_DR) == c.(tap := ShiftDr, drStage := CaptureAll(c.devices, c.ir))
  {
    var c1 := Clock(c, TMS_HIGH);
    var c2 := Clock(c1, TMS_LOW);
    assert GO_SHIFT_DR[1..] == [TMS_LOW, TMS_LOW];
    assert Run(c1, [TMS_LOW, TMS_LOW]) == Run(c2, [TMS_LOW]) == Clock(c2, TMS_LOW);
  }

  lemma ExitToIdle(c: Chain)
    requires c.Valid() && (c.tap == Exit1Dr || c.tap == Exit1Ir)
    ensures Run(c, EXIT_TO_IDLE)
         == if c.tap == Exit1Ir then c.(tap := RunTestIdle, ir := c.irStage)
            else c.(tap := RunTestIdle, latched := LatchAll(c.latched, c.ir, c.drStage))
  {
    var c1 := Clock(c, TMS_HIGH);
    assert EXIT_TO_IDLE[1..] == [TMS_LOW];
    assert Run(c1, [TMS_LOW]) == Clock(c1, TMS_LOW);
  }

  function IrCaptures(c: Chain): seq<Bits> {
    seq(|c.devices|, i requires 0 <= i < |c.devices| => c.devices[i].irCapture)
  }

  lemma IrScanRun(c: Chain, bits: Bits)
    requires c.Valid() && c.tap == RunTestIdle && bits != []
    ensures var last := ShiftMany(IrCaptures(c), bits).0;
            Run(c, IrScanPins(bits)) == c.(irStage := last, ir := last)
  {
    var c1 := Run(c, GO_SHIFT_IR);
    GoShiftIr(c);
    var c2 := Run(c1, DataPins(bits, true));
    DataInShiftIr(c1, bits, true);
    RunAppend(c, GO_SHIFT_IR, DataPins(bits, true));
    RunAppend(c, GO_SHIFT_IR + DataPins(bits, true), EXIT_TO_IDLE);
    ExitToIdle(c2);
  }

  /** As many clocks as there are bits in series replace the whole contents. */
  lemma FullShift(stages: seq<Bits>, wanted: seq<Bits>)
    requires SameLengths(wanted, stages)
    ensures ShiftMany(stages, Flat(wanted)).0 == wanted
  {
    var bits := Flat(wanted);
    ShiftManyIsFlat(stages, bits);
    var (last, tdo) := ShiftMany(stages, bits);
    SameLengthsSameOffsets(stages, wanted, |wanted|);
    assert stages[..|wanted|] == stages && wanted[..|wanted|] == wanted;
    assert Flat(last) == (tdo + Flat(last))[|bits|..] == bits;
    FlatInjective(last, wanted);
  }

  /** An instruction scan as long as the whole chain loads exactly the bits sent into the instruction registers. */
  lemma IrScanLoads(c: Chain, wanted: seq<Bits>)
    requires c.Valid() && c.tap == RunTestIdle
    requires SameLengths(wanted, c.ir) && Flat(wanted) != []
    ensures Run(c, IrScanPins(Flat(wanted))) == c.(ir := wanted, irStage := wanted)
  {
    IrScanRun(c, Flat(wanted));
    FullShift(IrCaptures(c), wanted);
  }

  /** The bits that reach the target's part of the stream `TapSetIr` builds. */
  function SentOpcode(opcode: Word, size: nat, postfix: nat): (f: Bits)
    requires size <= 32
    ensures |f| == size
  {
    var start := postfix % 32;
    if start + size < 32 then opcode[..size] else Ones(32 - start) + opcode[32 - start..size]
  }

  function IrStream(opcode: Word, size: nat, prefix: nat, postfix: nat): Bits
    requires size <= 32
  {
    Ones(postfix) + SentOpcode(opcode, size, postfix) + Ones(prefix)
  }

  lemma {:induction false} FlatOnes(stages: seq<Bits>)
    requires forall i :: 0 <= i < |stages| ==> stages[i] == Ones(|stages[i]|)
    ensures Flat(stages) == Ones(|Flat(stages)|)
  {
    if stages != [] {
      FlatOnes(stages[1..]);
    }
  }

  /** The instruction registers when the target holds `opcode` and every other device BYPASS. */
  function Selected(ir: seq<Bits>, target: nat, opcode: Bits): (r: seq<Bits>)
    ensures |r| == |ir|
  {
    seq(|ir|, i requires 0 <= i < |ir| => if i == target then opcode else Ones(|ir[i]|))
  }

  lemma SelectedIsFlat(ir: seq<Bits>, target: nat, opcode: Bits)
    requires target < |ir| && |opcode| == |ir[target]|
    ensures Flat(Selected(ir, target, opcode))
         == Ones(|Flat(ir[..target])|) + opcode + Ones(|Flat(ir[target + 1..])|)
    ensures SameLengths(Selected(ir, target, opcode), ir)
  {
    var wanted := Selected(ir, target, opcode);
    FlatAround(wanted, target);
    FlatAround(ir, target);
    FlatOnes(wanted[..target]);
    FlatOnes(wanted[target + 1..]);
    SameLengthsSameOffsets(wanted, ir, target);
    SameLengthsSameOffsets(wanted, ir, |ir|);
    assert wanted[..|ir|] == wanted && ir[..|ir|] == ir;
  }

  // ---------- Data scans ----------

  /** The last `n` bits of a string. */
  function Last(n: nat, bits: Bits): (r: Bits)
    requires n <= |bits|
    ensures |r| == n
  {
    bits[|bits| - n..]
  }

  /** Every device but the target has its one-bit BYPASS register selected. */
  ghost predicate OthersBypassed(stages: seq<Bits>, target: nat) {
    && target < |stages|
    && forall i :: 0 <= i < |stages| && i != target ==> |stages[i]| == 1
  }

  lemma {:induction false} SingleBits(stages: seq<Bits>)
    requires forall i :: 0 <= i < |stages| ==> |stages[i]| == 1
    ensures |Flat(stages)| == |stages|
  {
    if stages != [] { SingleBits(stages[1..]); }
  }

  lemma BypassLayout(stages: seq<Bits>, target: nat)
    requires OthersBypassed(stages, target)
    ensures |Flat(stages[..target])| == target == Offset(stages, target)
    ensures |Flat(stages[target + 1..])| == |stages| - target - 1
    ensures Flat(stages) == Flat(stages[..target]) + stages[target] + Flat(stages[target + 1..])
    ensures Flat(stages)[target..target + |stages[target]|] == stages[target]
  {
    SingleBits(stages[..target]);
    SingleBits(stages[target + 1..]);
    FlatAround(stages, target);
  }

  lemma WriteSlice(head: Bits, reg: Bits, tail: Bits, data: Bits, pad: Bits)
    requires |pad| == |tail|
    ensures (head + reg + tail + (data + pad))[|data| + |pad| + |head|..][..|reg|] == Last(|reg|, reg + tail + data)
  {
    var seen := reg + tail + data;
    assert head + reg + tail + (data + pad) == head + seen + pad;
  }

  /**
   Padding with one bit per device between the cable's data output and the target leaves the last bits
   sent in the target register; below them, if they do not fill it, lie the bits of those devices
   and of the register itself.
   */
  lemma WriteLands(stages: seq<Bits>, target: nat, data: Bits)
    requires OthersBypassed(stages, target)
    ensures var last := ShiftMany(stages, data + Zeros(|stages| - target - 1)).0;
            last[target] == Last(|stages[target]|, stages[target] + Flat(stages[target + 1..]) + data)
  {
    var pad := Zeros(|stages| - target - 1);
    var sent := data + pad;
    ShiftManyIsFlat(stages, sent);
    var (last, tdo) := ShiftMany(stages, sent);
    BypassLayout(stages, target);
    BypassLayout(last, target);
    WriteSlice(Flat(stages[..target]), stages[target], Flat(stages[target + 1..]), data, pad);
    var all := Flat(stages) + sent;
    assert Flat(last) == (tdo + Flat(last))[|sent|..];
    assert last[target] == all[|sent|..][target..target + |stages[target]|]
        == all[|sent| + target..][..|stages[target]|];
  }

  /** When the bits sent fill the target register, it ends with exactly the last of them. */
  lemma WriteExact(stages: seq<Bits>, target: nat, data: Bits)
    requires OthersBypassed(stages, target) && |data| >= |stages[target]|
    ensures ShiftMany(stages, data + Zeros(|stages| - target - 1)).0[target] == Last(|stages[target]|, data)
  {
    WriteLands(stages, target, data);
  }

  lemma DropHead(head: Bits, rest: Bits, skipped: Bits, left: Bits)
    requires head + rest == skipped + left && |head| == |skipped|
    ensures left == rest
  {
    assert left == (skipped + left)[|skipped|..] == (head + rest)[|head|..];
  }

  lemma ReadIsPrefix(stages: seq<Bits>, data: Bits)
    ensures ShiftMany(stages, data).1 == (Flat(stages) + data)[..|data|]
  {
    ShiftManyIsFlat(stages, data);
    var (last, read) := ShiftMany(stages, data);
    assert read == (read + Flat(last))[..|data|];
  }

  lemma SkipPostfix(stages: seq<Bits>, target: nat)
    requires OthersBypassed(stages, target)
    ensures Flat(ShiftMany(stages, Zeros(target)).0) == stages[target] + Flat(stages[target + 1..]) + Zeros(target)
  {
    hide ShiftMany, Flat, OthersBypassed, Zeros;
    ShiftManyIsFlat(stages, Zeros(target));
    var (mid, skipped) := ShiftMany(stages, Zeros(target));
    BypassLayout(stages, target);
    var head, reg, tail := Flat(stages[..target]), stages[target], Flat(stages[target + 1..]);
    assert head + reg + tail + Zeros(target) == head + (reg + tail + Zeros(target));
    DropHead(head, reg + tail + Zeros(target), skipped, Flat(mid));
  }

  /**
   Discarding one bit per device between the target and the cable's data input makes the read start at
   bit 0 of the target register.
   */
  lemma ReadAligned(stages: seq<Bits>, target: nat, data: Bits)
    requires OthersBypassed(stages, target)
    ensures ShiftMany(ShiftMany(stages, Zeros(target)).0, data).1
         == (stages[target] + Flat(stages[target + 1..]) + Zeros(target) + data)[..|data|]
  {
    SkipPostfix(stages, target);
    ReadIsPrefix(ShiftMany(stages, Zeros(target)).0, data);
  }

  lemma ReadExact(stages: seq<Bits>, target: nat, data: Bits)
    requires OthersBypassed(stages, target) && |data| <= |stages[target]|
    ensures ShiftMany(ShiftMany(stages, Zeros(target)).0, data).1 == stages[target][..|data|]
  {
    ReadAligned(stages, target, data);
  }
}
