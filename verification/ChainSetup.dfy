/**
 Bringing up a chain: counting and identifying its devices, setting the padding around the
 target device, and selecting instructions through it.
 */
module ChainSetup {
  import opened BitWords
  import opened ScanChain
  import opened ChainCommands
  import opened Bridge

  const MAX_DEVICES := 1024

  /** 0x7f, shifted out to recognise the end of the chain, and what follows its start bit when it comes back. */
  const INVALID_CODE: Word := Ones(7) + Zeros(25)
  const DONE_CODE: Word := Ones(6) + Zeros(26)

  // ---------- Enumeration ----------

  /** What a reset can select: BYPASS, which captures a 0, or an identification code, which starts with a 1. */
  predicate Identifiable(stage: Bits) {
    stage == [false] || (|stage| == 32 && stage[0])
  }

  /** The reserved manufacturer code, which enumeration takes for the end of the chain. */
  predicate Reserved(stage: Bits) {
    |stage| == 32 && stage[1..12] == DONE_CODE[..11]
  }

  function IdCode(stage: Bits): Word {
    if |stage| == 32 then stage else ALL_ONES
  }

  /** How many devices precede the first one with the reserved code. */
  function Visible(stages: seq<Bits>): (n: nat)
    ensures n <= |stages|
    ensures forall i :: 0 <= i < n ==> !Reserved(stages[i])
    ensures n < |stages| ==> Reserved(stages[n])
  {
    if stages == [] || Reserved(stages[0]) then 0 else 1 + Visible(stages[1..])
  }

  lemma {:induction false} VisibleIs(stages: seq<Bits>, n: nat)
    requires n <= |stages| && forall i :: 0 <= i < n ==> !Reserved(stages[i])
    requires n < |stages| ==> Reserved(stages[n])
    ensures Visible(stages) == n
  {
    if Visible(stages) < n {
      assert Reserved(stages[Visible(stages)]);
    }
  }

  /** The first `k` bits sent during enumeration: the invalid code, then zeros. */
  function Marker(k: nat): (m: Bits)
    ensures |m| == k
  {
    seq(k, i => i < 7)
  }

  /** In the middle of an enumeration, `p` clocks after the registers were captured. */
  ghost predicate Scanning(c: Chain, stages: seq<Bits>, p: nat) {
    c.Valid() && c.tap == ShiftDr && Flat(c.drStage) == (Flat(stages) + Marker(p))[p..]
  }

  /** The next `k` bits that come out `p` clocks into an enumeration. */
  function Emerging(stages: seq<Bits>, p: nat, k: nat): (r: Bits)
    ensures |r| == k
  {
    (Flat(stages) + Marker(p + k))[p..p + k]
  }

  lemma ScanMore(c: Chain, stages: seq<Bits>, p: nat, k: nat)
    requires Scanning(c, stages, p)
    ensures var pins := DataPins(Marker(p + k)[p..], false);
            && Scanning(Run(c, pins), stages, p + k)
            && Run(c, pins) == c.(drStage := Run(c, pins).drStage)
            && TdoRun(c, pins) == Emerging(stages, p, k)
  {
    var bits := Marker(p + k)[p..];
    DataInShiftDr(c, bits, false);
    ScanSlices(c.drStage, stages, p, k);
  }

  lemma ScanSlices(now: seq<Bits>, stages: seq<Bits>, p: nat, k: nat)
    requires Flat(now) == (Flat(stages) + Marker(p))[p..]
    ensures var (last, tdo) := ShiftMany(now, Marker(p + k)[p..]);
            tdo == Emerging(stages, p, k) && Flat(last) == (Flat(stages) + Marker(p + k))[p + k..]
  {
    var bits, base := Marker(p + k)[p..], Flat(stages);
    ShiftManyIsFlat(now, bits);
    var (last, tdo) := ShiftMany(now, bits);
    assert Marker(p + k) == Marker(p) + bits;
    Regroup(base, Marker(p), bits);
    SplitAt(tdo, Flat(last), base + Marker(p + k), p);
  }

  lemma Regroup(base: Bits, sent: Bits, more: Bits)
    ensures (base + sent)[|sent|..] + more == (base + (sent + more))[|sent|..]
  {
    assert base + (sent + more) == base + sent + more;
  }

  lemma SplitAt(first: Bits, second: Bits, all: Bits, p: nat)
    requires p <= |all| && first + second == all[p..]
    ensures first == all[p..p + |first|] && second == all[p + |first|..]
  {
    assert first == (first + second)[..|first|] && second == (first + second)[|first|..];
  }

  lemma EmergingDevice(stages: seq<Bits>, d: nat, from: nat, k: nat)
    requires d < |stages| && from + k <= |stages[d]|
    ensures Emerging(stages, Offset(stages, d) + from, k) == stages[d][from..from + k]
  {
    FlatAround(stages, d);
    var all, at := Flat(stages), Offset(stages, d);
    assert stages[d][from..from + k] == all[at..at + |stages[d]|][from..from + k] == all[at + from..at + from + k];
  }

  /** Past the last device the marker itself comes back, intact. */
  lemma EmergingMarker(stages: seq<Bits>, from: nat, k: nat)
    ensures Offset(stages, |stages|) == |Flat(stages)|
    ensures Emerging(stages, Offset(stages, |stages|) + from, k) == Marker(from + k)[from..]
  {
    assert stages[..|stages|] == stages;
  }

  lemma InvalidCodeBits(p: nat, k: nat)
    requires k <= 32
    ensures StreamBits([Shr(INVALID_CODE, p)], k) == Marker(p + k)[p..]
    ensures k < 32 ==> Shr(Shr(INVALID_CODE, p), k) == Shr(INVALID_CODE, p + k)
  {
  }

  /** The words assembled from the fields of a 32-bit identification code. */
  lemma CodeAssembled(stage: Bits, manuf: Word, rest: Word)
    requires |stage| == 32 && stage[0]
    requires Sampled([manuf], stage[1..12]) && Sampled([rest], stage[12..32])
    ensures Or(Or(Shl(rest, 12), Shl(manuf, 1)), [true] + Zeros(31)) == stage
  {
    FieldOf(manuf, stage[1..12]);
    FieldOf(rest, stage[12..32]);
  }

  lemma FieldOf(w: Word, bits: Bits)
    requires |bits| <= 32 && Sampled([w], bits)
    ensures forall j :: 0 <= j < 32 ==> w[j] == (j < |bits| && bits[j])
  {
    forall j | 0 <= j < 32 ensures w[j] == (j < |bits| && bits[j]) {
      assert [w][j / 32][j % 32] == w[j];
    }
  }

  /** Finds out how many devices there are, and the identification code of each, from the data-out end. */
  method EnumerateChain(b: JtagBridge) returns (idcodes: seq<Word>)
    requires b.chain.Valid() && b.chain.tap == RunTestIdle
    requires forall s :: s in CaptureAll(b.chain.devices, b.chain.ir) ==> Identifiable(s)
    modifies b`chain
    ensures var stages := old(CaptureAll(b.chain.devices, b.chain.ir));
            var visible := Visible(stages);
            && |idcodes| == (if visible < 1024 then visible else 1024)
            && forall i :: 0 <= i < |idcodes| ==> idcodes[i] == IdCode(stages[i])
    ensures b.chain.Valid() && b.chain.tap == RunTestIdle
    ensures b.chain.devices == old(b.chain).devices && b.chain.ir == old(b.chain).ir
  {
    hide Run, Flat, Clock, IdCode, Reserved, Visible;
    ghost var stages := CaptureAll(b.chain.devices, b.chain.ir);
    ghost var p: nat := 0;
    var invalidCode := INVALID_CODE;
    StartScan(b.chain);
    b.TapSetShiftDr();
    idcodes := [];
    FirstOffset(stages);
    while |idcodes| < MAX_DEVICES
      invariant Scanning(b.chain, stages, p) && invalidCode == Shr(INVALID_CODE, p)
      invariant |idcodes| <= MAX_DEVICES && |idcodes| <= |stages| && p == Offset(stages, |idcodes|)
      invariant forall i :: 0 <= i < |idcodes| ==> idcodes[i] == IdCode(stages[i]) && !Reserved(stages[i])
      invariant b.chain.devices == old(b.chain).devices && b.chain.ir == old(b.chain).ir
    {
      ghost var d := |idcodes|;
      var nextCode, idcode, found := EnumerateOne(b, invalidCode, stages, d, p);
      if !found { break; }
      FlatAround(stages, d);
      p := p + |stages[d]|;
      invalidCode := nextCode;
      idcodes := idcodes + [idcode];
    }
    LeaveShiftDr(b);
    if |idcodes| < MAX_DEVICES {
      VisibleIs(stages, |idcodes|);
    }
  }

  method LeaveShiftDr(b: JtagBridge)
    requires b.chain.Valid() && b.chain.tap == ShiftDr
    modifies b`chain
    ensures b.chain.Valid() && b.chain.tap == RunTestIdle
    ensures b.chain.devices == old(b.chain).devices && b.chain.ir == old(b.chain).ir
  {
    b.WriteBit(TMS_HIGH);
    b.WriteBit(TMS_HIGH);
    b.WriteBit(TMS_LOW);
  }

  lemma StartScan(c: Chain)
    requires c.Valid() && c.tap == RunTestIdle
    ensures Scanning(Run(c, GO_SHIFT_DR), CaptureAll(c.devices, c.ir), 0)
    ensures Run(c, GO_SHIFT_DR).ir == c.ir
    ensures Shr(INVALID_CODE, 0) == INVALID_CODE
  {
    GoShiftDr(c);
    var flat := Flat(CaptureAll(c.devices, c.ir));
    assert (flat + Marker(0))[0..] == flat;
  }

  method ReadOne(b: JtagBridge, invalidCode: Word, ghost stages: seq<Bits>, ghost p: nat) returns (bit: bool)
    requires Scanning(b.chain, stages, p) && invalidCode == Shr(INVALID_CODE, p)
    modifies b`chain
    ensures b.chain.Valid() && Scanning(b.chain, stages, p + 1) && [bit] == Emerging(stages, p, 1)
    ensures b.chain == old(b.chain).(drStage := b.chain.drStage)
  {
    InvalidCodeBits(p, 1);
    ghost var bits, start := Marker(p + 1)[p..], b.chain;
    assert bits == [invalidCode[0]] by { assert StreamBits([invalidCode], 1)[0] == invalidCode[0]; }
    assert DataPins(bits, false) == [Pins(false, invalidCode[0])];
    ScanMore(b.chain, stages, p, 1);
    bit := b.ReadWriteBit(Pins(false, invalidCode[0]));
    RunOne(start, Pins(false, invalidCode[0]));
    assert TdoRun(start, [Pins(false, invalidCode[0])]) == [bit];
  }

  method ReadField(b: JtagBridge, invalidCode: Word, len: nat, ghost stages: seq<Bits>, ghost p: nat)
    returns (field: Word)
    requires Scanning(b.chain, stages, p) && invalidCode == Shr(INVALID_CODE, p) && 0 < len < 32
    modifies b`chain
    ensures b.chain.Valid() && Scanning(b.chain, stages, p + len) && Sampled([field], Emerging(stages, p, len))
    ensures b.chain == old(b.chain).(drStage := b.chain.drStage)
  {
    InvalidCodeBits(p, len);
    ScanMore(b.chain, stages, p, len);
    ghost var pins := DataPins(Marker(p + len)[p..], false);
    assert [] + pins == pins;
    var words := b.JtagReadWriteStream([invalidCode], len, false, false);
    field := words[0];
    assert words == [field];
  }

  lemma ScanningIsValid(c: Chain, stages: seq<Bits>, p: nat)
    requires Scanning(c, stages, p)
    ensures c.Valid()
  {
  }

  /** One turn of the enumeration loop: identifies the next device, or recognises the end. */
  method EnumerateOne(b: JtagBridge, invalidCode: Word, ghost stages: seq<Bits>, ghost d: nat, ghost p: nat)
    returns (nextCode: Word, idcode: Word, found: bool)
    requires Scanning(b.chain, stages, p) && invalidCode == Shr(INVALID_CODE, p)
    requires d <= |stages| && p == Offset(stages, d)
    requires forall s :: s in stages ==> Identifiable(s)
    modifies b`chain
    ensures b.chain.Valid() && b.chain == old(b.chain).(drStage := b.chain.drStage)
    ensures found <==> d < |stages| && !Reserved(stages[d])
    ensures found ==> Scanning(b.chain, stages, p + |stages[d]|) && idcode == IdCode(stages[d])
    ensures found ==> nextCode == Shr(INVALID_CODE, p + |stages[d]|)
  {
    hide Run, Flat, Emerging, Marker, Offset, Scanning, Sampled, Shr, Shl, Or;
    ScanningIsValid(b.chain, stages, p);
    assert d < |stages| ==> Identifiable(stages[d]);
    NextStart(stages, d);
    var startBit := ReadOne(b, invalidCode, stages, p);
    InvalidCodeBits(p, 1);
    nextCode := Shr(invalidCode, 1);
    if !startBit {
      return nextCode, ALL_ONES, true;
    }
    NextManufacturer(stages, d);
    var manuf := ReadField(b, nextCode, 11, stages, p + 1);
    InvalidCodeBits(p + 1, 11);
    nextCode := Shr(nextCode, 11);
    ManufacturerDecides(stages, d, manuf);
    if manuf == DONE_CODE {
      return nextCode, ZERO, false;
    }
    EmergingDevice(stages, d, 12, 20);
    var rest := ReadField(b, nextCode, 20, stages, p + 12);
    InvalidCodeBits(p + 12, 20);
    nextCode := Shr(nextCode, 20);
    CodeAssembled(stages[d], manuf, rest);
    idcode := Or(Or(Shl(rest, 12), Shl(manuf, 1)), [true] + Zeros(31));
    found := true;
  }

  lemma NextStart(stages: seq<Bits>, d: nat)
    requires d <= |stages| && (d < |stages| ==> Identifiable(stages[d]))
    ensures Emerging(stages, Offset(stages, d), 1) == [d == |stages| || |stages[d]| == 32]
  {
    if d < |stages| { EmergingDevice(stages, d, 0, 1); } else { EmergingMarker(stages, 0, 1); }
  }

  lemma NextManufacturer(stages: seq<Bits>, d: nat)
    requires d < |stages| ==> |stages[d]| == 32
    requires d <= |stages|
    ensures Emerging(stages, Offset(stages, d) + 1, 11) == if d < |stages| then stages[d][1..12] else DONE_CODE[..11]
  {
    if d < |stages| { EmergingDevice(stages, d, 1, 11); } else { EmergingMarker(stages, 1, 11); }
  }

  lemma ManufacturerDecides(stages: seq<Bits>, d: nat, manuf: Word)
    requires d < |stages| ==> |stages[d]| == 32
    requires d <= |stages|
    requires Sampled([manuf], if d < |stages| then stages[d][1..12] else DONE_CODE[..11])
    ensures manuf == DONE_CODE <==> d == |stages| || Reserved(stages[d])
  {
    var code := if d < |stages| then stages[d][1..12] else DONE_CODE[..11];
    FieldOf(manuf, code);
    if code == DONE_CODE[..11] { assert manuf == DONE_CODE; }
    if manuf == DONE_CODE { assert code == manuf[..11]; }
  }

  /** Enumeration finds every device exactly when there are few enough and none has the reserved code. */
  lemma EnumerationComplete(stages: seq<Bits>)
    ensures (if Visible(stages) < 1024 then Visible(stages) else 1024) == |stages|
       <==> |stages| <= 1024 && forall i :: 0 <= i < |stages| ==> !Reserved(stages[i])
  {
  }

  // ---------- Configuration ----------

  /** Sets the padding around the target from the sizes of all instruction registers. */
  method ConfigureChain(b: JtagBridge, irSizes: seq<nat>, target: nat)
    requires b.chain.Valid() && target < |irSizes| == |b.chain.devices|
    requires forall i :: 0 <= i < |irSizes| ==> irSizes[i] == |b.chain.ir[i]|
    requires 1 <= irSizes[target] <= 32
    modifies b`irSize, b`irPrefix, b`irPostfix, b`drPrefix, b`drPostfix
    ensures b.Configured(target)
  {
    ghost var ir := b.chain.ir;
    b.irSize := irSizes[target];
    var total := 0;
    for i := 0 to |irSizes|
      invariant i <= target ==> total == |Flat(ir[..i])|
      invariant i > target ==> b.irPostfix == |Flat(ir[..target])| && total == |Flat(ir[target + 1..i])|
      invariant b.irSize == irSizes[target]
    {
      if i == target {
        b.irPostfix := total;
        total := 0;
        assert ir[target + 1..i + 1] == [];
        continue;
      }
      total := total + irSizes[i];
      FlatGrows(ir, if i < target then 0 else target + 1, i);
    }
    b.irPrefix := total;
    assert ir[target + 1..|ir|] == ir[target + 1..];
    b.drPrefix := |irSizes| - target - 1;
    b.drPostfix := target;
  }

  lemma FlatGrows(stages: seq<Bits>, from: nat, i: nat)
    requires from <= i < |stages|
    ensures |Flat(stages[from..i + 1])| == |Flat(stages[from..i])| + |stages[i]|
  {
    assert stages[from..i + 1] == stages[from..i] + [stages[i]];
    FlatAppend(stages[from..i], [stages[i]]);
    assert Flat([stages[i]]) == stages[i] + Flat([]);
  }

  // ---------- Selecting an instruction ----------

  /** After the instruction scan of a configured bridge, only the target leaves BYPASS. */
  lemma SetIrSelects(c: Chain, target: nat, opcode: Word)
    requires c.Valid() && c.tap == RunTestIdle && target < |c.ir| && 1 <= |c.ir[target]| <= 32
    ensures var prefix, postfix := |Flat(c.ir[target + 1..])|, |Flat(c.ir[..target])|;
            var ir := Selected(c.ir, target, SentOpcode(opcode, |c.ir[target]|, postfix));
            Run(c, IrScanPins(IrStream(opcode, |c.ir[target]|, prefix, postfix))) == c.(ir := ir, irStage := ir)
  {
    var postfix := |Flat(c.ir[..target])|;
    var sent := SentOpcode(opcode, |c.ir[target]|, postfix);
    SelectedIsFlat(c.ir, target, sent);
    IrScanLoads(c, Selected(c.ir, target, sent));
  }

  /**
   The target receives the opcode exactly when the mask shift stays inside its word, or when the
   opcode bits in that word are all ones anyway.
   */
  lemma OpcodeArrives(opcode: Word, size: nat, postfix: nat)
    requires 1 <= size <= 32
    ensures SentOpcode(opcode, size, postfix) == opcode[..size]
       <==> postfix % 32 + size < 32 || opcode[..32 - postfix % 32] == Ones(32 - postfix % 32)
  {
    var first := 32 - postfix % 32;
    if postfix % 32 + size >= 32 {
      assert opcode[..size] == opcode[..first] + opcode[first..size];
      var sent := SentOpcode(opcode, size, postfix);
      assert sent[..first] == Ones(first) && opcode[..size][..first] == opcode[..first];
    }
  }

  lemma {:induction false} SameLengthsSameTotal(a: seq<Bits>, b: seq<Bits>)
    requires SameLengths(a, b)
    ensures |Flat(a)| == |Flat(b)|
  {
    SameLengthsSameOffsets(a, b, |a|);
    assert a[..|a|] == a && b[..|b|] == b;
  }

  /** A second selection finds the same layout and overrides the first. */
  lemma Reselected(ir: seq<Bits>, target: nat, first: Bits, second: Bits)
    requires target < |ir| && |first| == |second| == |ir[target]|
    ensures var r := Selected(ir, target, first);
            && |Flat(r[..target])| == |Flat(ir[..target])|
            && |Flat(r[target + 1..])| == |Flat(ir[target + 1..])|
            && Selected(r, target, second) == Selected(ir, target, second)
  {
    var r := Selected(ir, target, first);
    SameLengthsSameTotal(r[..target], ir[..target]);
    SameLengthsSameTotal(r[target + 1..], ir[target + 1..]);
  }

  // ---------- Data scans through the padding ----------

  /** A padded write ends in Exit1-DR with the data in the target register. */
  lemma PaddedWrite(c: Chain, target: nat, data: Bits)
    requires c.Valid() && c.tap == ShiftDr && OthersBypassed(c.drStage, target) && data != []
    ensures var prefix := |c.drStage| - target - 1;
            var after := Run(c, WritePins(data, prefix, true));
            && after == c.(tap := Exit1Dr, drStage := after.drStage)
            && |after.drStage| == |c.drStage|
            && after.drStage[target]
               == Last(|c.drStage[target]|, c.drStage[target] + Flat(c.drStage[target + 1..]) + data)
            && (|data| >= |c.drStage[target]| ==> after.drStage[target] == Last(|c.drStage[target]|, data))
  {
    var sent := data + Zeros(|c.drStage| - target - 1);
    DataInShiftDr(c, sent, true);
    WriteLands(c.drStage, target, data);
    if |data| >= |c.drStage[target]| {
      WriteExact(c.drStage, target, data);
    }
  }

  /** An adjusted read returns the target's captured bits, while the padded write lands in the target. */
  lemma AdjustedReadWrite(c: Chain, target: nat, data: Bits)
    requires c.Valid() && c.tap == ShiftDr && OthersBypassed(c.drStage, target) && data != []
    ensures var prefix, n := |c.drStage| - target - 1, |c.drStage[target]|;
            var skip := DataPins(Zeros(target), false);
            var after := Run(c, skip + WritePins(data, prefix, true));
            && after == c.(tap := Exit1Dr, drStage := after.drStage)
            && |after.drStage| == |c.drStage|
            && (|data| >= n ==> after.drStage[target] == Last(n, data))
            && TdoRun(Run(c, skip), DataPins(data, false))
               == (c.drStage[target] + Flat(c.drStage[target + 1..]) + Zeros(target) + data)[..|data|]
            && (|data| <= n ==> TdoRun(Run(c, skip), DataPins(data, false)) == c.drStage[target][..|data|])
  {
    hide Run, TdoRun, Flat, Clock, ShiftMany;
    var skip := DataPins(Zeros(target), false);
    var mid := Run(c, skip);
    DataInShiftDr(c, Zeros(target), false);
    ShiftManyIsFlat(c.drStage, Zeros(target));
    RunAppend(c, skip, WritePins(data, |c.drStage| - target - 1, true));
    PaddedWrite(mid, target, data);
    DataInShiftDr(mid, data, false);
    ReadAligned(c.drStage, target, data);
  }

  /** With BYPASS everywhere else, capturing gives one bit per other device. */
  lemma CapturedLayout(c: Chain, target: nat, opcode: Bits)
    requires c.Valid() && target < |c.ir| && |opcode| == |c.ir[target]|
    ensures var stages := CaptureAll(c.devices, Selected(c.ir, target, opcode));
            OthersBypassed(stages, target) && stages[target] == c.devices[target].Captured(opcode)
  {
  }

  /**
   A burst is read without skipping the devices after the target: their BYPASS registers, which capture
   zeros, come first and look like a unit that is not ready.
   */
  lemma BypassLooksNotReady(c: Chain, target: nat, opcode: Bits, len: nat)
    requires c.Valid() && c.tap == ShiftDr && target < |c.ir| && |opcode| == |c.ir[target]|
    requires c.drStage == CaptureAll(c.devices, Selected(c.ir, target, opcode))
    requires target <= len <= target + |c.drStage[target]|
    ensures TdoRun(c, DataPins(Zeros(len), false)) == Zeros(target) + c.devices[target].Captured(opcode)[..len - target]
  {
    CapturedLayout(c, target, opcode);
    assert forall i :: 0 <= i < target ==> c.drStage[i] == [false];
    hide Run, TdoRun, ShiftMany, Flat, CaptureAll, Selected, OthersBypassed, Offset, DataPins, Zeros;
    DataInShiftDr(c, Zeros(len), false);
    ReadIsPrefix(c.drStage, Zeros(len));
    BypassLayout(c.drStage, target);
    ZeroStages(c.drStage[..target]);
    PrefixOfThree(Zeros(target), c.drStage[target], Flat(c.drStage[target + 1..]), Zeros(len), len);
  }

  lemma PrefixOfThree(a: Bits, b: Bits, c: Bits, d: Bits, len: nat)
    requires |a| <= len <= |a| + |b|
    ensures (a + b + c + d)[..len] == a + b[..len - |a|]
  {
  }

  lemma {:induction false} ZeroStages(stages: seq<Bits>)
    requires forall i :: 0 <= i < |stages| ==> stages[i] == [false]
    ensures Flat(stages) == Zeros(|stages|)
  {
    if stages != [] {
      ZeroStages(stages[1..]);
    }
  }

  /** Every clock of a data stream is made in Shift-DR, the one that raises TMS included. */
  lemma {:induction false} ClockedInShiftDr(c: Chain, bits: Bits, tmsOnLast: bool, i: nat)
    requires c.Valid() && c.tap == ShiftDr && i < |bits|
    ensures Run(c, DataPins(bits, tmsOnLast)[..i]).tap == ShiftDr
  {
    assert DataPins(bits, tmsOnLast)[..i] == DataPins(bits[..i], false);
    DataInShiftDr(c, bits[..i], false);
  }

  /** A data stream without TMS, and a padded one with it, are one padded stream. */
  lemma StreamsJoin(first: Bits, second: Bits, prefix: nat)
    requires second != []
    ensures DataPins(first, false) + WritePins(second, prefix, true) == WritePins(first + second, prefix, true)
  {
  }

  /**
   A scan of two streams from Run-Test/Idle, as register writes, register reads and bursts make it: skipped
   bits, a first stream, a second stream with padding and TMS. For any lengths it shifts only in Shift-DR,
   ends in Run-Test/Idle, and is one scan of all the bits.
   */
  lemma TwoStreamScan(c: Chain, skip: nat, first: Bits, second: Bits, prefix: nat)
    requires c.Valid() && c.tap == RunTestIdle && second != []
    ensures var shifting := Run(c, GO_SHIFT_DR);
            var skipped := Run(shifting, DataPins(Zeros(skip), false));
            var between := Run(skipped, DataPins(first, false));
            var after := Run(between, WritePins(second, prefix, true));
            var done := Run(after, EXIT_TO_IDLE);
            && shifting.tap == skipped.tap == between.tap == ShiftDr && after.tap == Exit1Dr
            && after == Run(shifting, WritePins(Zeros(skip) + first + second, prefix, true))
            && done.tap == RunTestIdle && done.ir == c.ir && done.devices == c.devices && done.drStage == after.drStage
  {
    hide Run, ShiftMany, DataPins;
    GoShiftDr(c);
    var shifting := Run(c, GO_SHIFT_DR);
    DataInShiftDr(shifting, Zeros(skip), false);
    var skipped := Run(shifting, DataPins(Zeros(skip), false));
    DataInShiftDr(skipped, first, false);
    var between := Run(skipped, DataPins(first, false));
    DataInShiftDr(between, second + Zeros(prefix), true);
    ExitToIdle(Run(between, WritePins(second, prefix, true)));
    OneScan(shifting, Zeros(skip), first, second, prefix);
  }

  lemma OneScan(c: Chain, skipped: Bits, first: Bits, second: Bits, prefix: nat)
    requires c.Valid() && second != []
    ensures (Run(Run(Run(c, DataPins(skipped, false)), DataPins(first, false)), WritePins(second, prefix, true))
             == Run(c, WritePins(skipped + first + second, prefix, true)))
  {
    hide Run, DataPins, WritePins;
    var mid := Run(c, DataPins(skipped, false));
    RunAppend(mid, DataPins(first, false), WritePins(second, prefix, true));
    StreamsJoin(first, second, prefix);
    RunAppend(c, DataPins(skipped, false), WritePins(first + second, prefix, true));
    StreamsJoin(skipped, first + second, prefix);
    assert skipped + (first + second) == skipped + first + second;
  }

  /** A burst: however many status bits and words are read, the CRC read at the end leads back to Run-Test/Idle. */
  lemma BurstEndsIdle(c: Chain, read: nat, prefix: nat)
    requires c.Valid() && c.tap == RunTestIdle
    ensures var shifting := Run(c, GO_SHIFT_DR);
            var words := Run(shifting, DataPins(Zeros(read), false));
            var done := Run(Run(words, WritePins(Zeros(32), prefix, true)), EXIT_TO_IDLE);
            && shifting.tap == words.tap == ShiftDr && done.tap == RunTestIdle
            && done.ir == c.ir && done.devices == c.devices
  {
    hide Run;
    TwoStreamScan(c, 0, Zeros(read), Zeros(32), prefix);
    NoSkip(Run(c, GO_SHIFT_DR));
  }

  lemma NoSkip(c: Chain)
    requires c.Valid()
    ensures Run(c, DataPins(Zeros(0), false)) == c
  {
    assert DataPins(Zeros(0), false) == [];
  }

  /** The bridge selects `opcode` in the target; the padding stays right. */
  method SelectInstruction(b: JtagBridge, opcode: Word, ghost target: nat)
    requires b.chain.Valid() && b.chain.tap == RunTestIdle && b.Configured(target)
    modifies b`chain, b`currentChain
    ensures b.chain.Valid() && b.Configured(target) && b.currentChain == -1
    ensures var ir := Selected(old(b.chain).ir, target, SentOpcode(opcode, b.irSize, b.irPostfix));
            b.chain == old(b.chain).(ir := ir, irStage := ir)
  {
    SetIrSelects(b.chain, target, opcode);
    Reselected(b.chain.ir, target, SentOpcode(opcode, b.irSize, b.irPostfix), b.chain.ir[target]);
    b.TapSetIr(opcode);
  }

  /** The clocks of a reading scan up to Exit1-DR. */
  function ReadPins(target: nat, prefix: nat, len: nat): seq<Pins> {
    DataPins(Zeros(target), false) + WritePins(Zeros(len), prefix, true)
  }

  /** What the cable samples of the target's register during a reading scan. */
  function ReadBack(c: Chain, target: nat, len: nat): Bits
    requires c.Valid()
  {
    TdoRun(Run(Run(c, GO_SHIFT_DR), DataPins(Zeros(target), false)), DataPins(Zeros(len), false))
  }

  /** A whole reading scan from Run-Test/Idle and back, clock by clock. */
  lemma ReadingScan(c: Chain, target: nat, len: nat)
    requires c.Valid() && c.tap == RunTestIdle && len > 0
    requires OthersBypassed(CaptureAll(c.devices, c.ir), target)
    ensures var done := Run(Run(Run(c, GO_SHIFT_DR), ReadPins(target, |c.devices| - target - 1, len)), EXIT_TO_IDLE);
            done.tap == RunTestIdle && done.ir == c.ir && done.devices == c.devices
    ensures var register := CaptureAll(c.devices, c.ir)[target];
            len <= |register| ==> ReadBack(c, target, len) == register[..len]
  {
    GoShiftDr(c);
    var shifting := Run(c, GO_SHIFT_DR);
    AdjustedReadWrite(shifting, target, Zeros(len));
    ExitToIdle(Run(shifting, ReadPins(target, |c.devices| - target - 1, len)));
  }

  /** A whole data scan that only reads: the target's captured bits come back aligned. */
  method ReadRegister(b: JtagBridge, len: nat, ghost target: nat) returns (words: seq<Word>)
    requires b.chain.Valid() && b.chain.tap == RunTestIdle && b.Configured(target)
    requires OthersBypassed(CaptureAll(b.chain.devices, b.chain.ir), target) && 0 < len
    modifies b`chain
    ensures b.chain.Valid() && b.chain.tap == RunTestIdle && b.chain.devices == old(b.chain).devices
    ensures b.chain.ir == old(b.chain).ir && |words| == (len + 31) / 32
    ensures var register := old(CaptureAll(b.chain.devices, b.chain.ir)[target]);
            len <= |register| ==> Sampled(words, register[..len])
  {
    hide Run, TdoRun, OthersBypassed, Sampled, WritePins, Flat, Clock;
    ghost var c := b.chain;
    b.TapSetShiftDr();
    var zeros := seq((len + 31) / 32, _ => ZERO);
    ZeroWords(zeros, len);
    words := b.JtagReadWriteStream(zeros, len, true, true);
    assert Sampled(words, ReadBack(c, target, len));
    SampledCount(words, ReadBack(c, target, len));
    b.TapExitToIdle();
    assert b.chain == Run(Run(Run(c, GO_SHIFT_DR), ReadPins(target, b.drPrefix, len)), EXIT_TO_IDLE);
    ReadingScan(c, target, len);
  }

  lemma ZeroWords(words: seq<Word>, n: nat)
    requires n <= 32 * |words| && forall i :: 0 <= i < |words| ==> words[i] == ZERO
    ensures StreamBits(words, n) == Zeros(n)
  {
  }

  lemma SampledCount(words: seq<Word>, bits: Bits)
    requires Sampled(words, bits)
    ensures |words| == (|bits| + 31) / 32
  {
  }

  lemma SampledWord(words: seq<Word>, bits: Bits)
    requires 0 < |bits| <= 32 && Sampled(words, bits)
    ensures forall j :: 0 <= j < 32 ==> words[0][j] == (j < |bits| && bits[j])
  {
    assert words == [words[0]];
    FieldOf(words[0], bits);
  }

  /** A whole data scan that writes: Update-DR latches the bits into the target's register. */
  method WriteRegister(b: JtagBridge, words: seq<Word>, len: nat, ghost target: nat)
    requires b.chain.Valid() && b.chain.tap == RunTestIdle && b.Configured(target)
    requires OthersBypassed(CaptureAll(b.chain.devices, b.chain.ir), target) && 0 < len <= 32 * |words|
    modifies b`chain
    ensures b.chain.Valid() && b.chain.tap == RunTestIdle && b.chain.devices == old(b.chain).devices
    ensures b.chain.ir == old(b.chain).ir && b.chain.irStage == old(b.chain).irStage
    ensures |CaptureAll(b.chain.devices, b.chain.ir)[target]| == len ==>
              var latched := b.chain.latched[target];
              b.chain.ir[target] in latched && latched[b.chain.ir[target]] == StreamBits(words, len)
  {
    hide Run, Flat, Clock;
    GoShiftDr(b.chain);
    b.TapSetShiftDr();
    PaddedWrite(b.chain, target, StreamBits(words, len));
    b.JtagWriteStream(words, len, true);
    ExitToIdle(b.chain);
    b.TapExitToIdle();
  }

  /** Reads the identification code of the target: instruction scan, then an adjusted 32-bit read. */
  method GetIdcode(b: JtagBridge, cmd: Word, ghost target: nat) returns (idcode: Word)
    requires b.chain.Valid() && b.chain.tap == RunTestIdle && b.Configured(target)
    modifies b`chain, b`currentChain, b`virtualJtag
    ensures b.chain.Valid() && b.chain.tap == RunTestIdle && b.chain.devices == old(b.chain).devices
    ensures b.Configured(target) && b.virtualJtag == old(b.virtualJtag)
    ensures var sent := SentOpcode(cmd, b.irSize, b.irPostfix);
            var register := b.chain.devices[target].Captured(sent);
            && b.chain.ir == Selected(old(b.chain).ir, target, sent)
            && (|register| == 32 ==> idcode == register)
  {
    var saved := b.virtualJtag;
    b.virtualJtag := false;
    CapturedLayout(b.chain, target, SentOpcode(cmd, b.irSize, b.irPostfix));
    SelectInstruction(b, cmd, target);
    ghost var register := CaptureAll(b.chain.devices, b.chain.ir)[target];
    var words := ReadRegister(b, 32, target);
    idcode := words[0];
    if |register| == 32 {
      assert register[..32] == register;
      SampledWord(words, register);
      assert idcode == register;
    }
    b.virtualJtag := saved;
  }

  // ---------- Selecting the debug unit ----------

  /** The five bits of the virtual instruction register that select the debug unit. */
  const VJTAG_DEBUG: Word := Zeros(3) + Ones(2) + Zeros(27)

  /** Selects the debug unit: by an instruction, or through Altera's virtual instruction register. */
  method EnableDebugModule(b: JtagBridge, ghost target: nat)
    requires b.chain.Valid() && b.chain.tap == RunTestIdle && b.Configured(target)
    modifies b`chain, b`currentChain
    ensures b.chain.Valid() && b.chain.tap == RunTestIdle && b.chain.devices == old(b.chain).devices
    ensures b.Configured(target) && b.currentChain == -1
    ensures var last := if b.virtualJtag then b.cmdVdr else b.debugCmd;
            b.chain.ir == Selected(old(b.chain).ir, target, SentOpcode(last, b.irSize, b.irPostfix))
    ensures var vir := SentOpcode(b.cmdVir, b.irSize, b.irPostfix);
            b.virtualJtag && |b.chain.devices[target].Captured(vir)| == VJTAG_IR_SIZE + 1 ==>
              vir in b.chain.latched[target] && b.chain.latched[target][vir] == [false, false, false, true, true]
  {
    if b.virtualJtag {
      ghost var vir := SentOpcode(b.cmdVir, b.irSize, b.irPostfix);
      CapturedLayout(b.chain, target, vir);
      Reselected(b.chain.ir, target, vir, SentOpcode(b.cmdVdr, b.irSize, b.irPostfix));
      SelectInstruction(b, b.cmdVir, target);
      assert StreamBits([VJTAG_DEBUG], VJTAG_IR_SIZE + 1) == VJTAG_DEBUG[..VJTAG_IR_SIZE + 1];
      WriteRegister(b, [VJTAG_DEBUG], VJTAG_IR_SIZE + 1, target);
      SelectInstruction(b, b.cmdVdr, target);
    } else {
      SelectInstruction(b, b.debugCmd, target);
    }
  }
}
