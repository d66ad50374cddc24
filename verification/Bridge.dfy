/** The bridge's view of the chain: its configuration, and the scan functions that clock the hardware. */
module Bridge {
  import opened BitWords
  import opened ScanChain
  import opened ChainCommands

  const MAX_MODULES := 4
  const VJTAG_IR_SIZE := 4

  /** On the hosts the bridge runs on, a shift uses its count modulo 32. */
  function HostShl(a: Word, n: nat): Word {
    Shl(a, n % 32)
  }

  class JtagBridge {
    var chain: Chain
    const hasTrst: bool

    var irSize: nat
    var irPrefix: nat
    var irPostfix: nat
    var drPrefix: nat
    var drPostfix: nat
    var debugCmd: Word
    var virtualJtag: bool
    var cmdVir: Word
    var cmdVdr: Word

    var currentChain: int
    var currentRegIdx: seq<int>

    /** The padding matches a target device of the chain. */
    ghost predicate Configured(target: nat)
      reads this
      requires chain.Valid()
    {
      PadsFor(chain, target)
    }

    ghost predicate PadsFor(c: Chain, target: nat)
      reads `irSize, `irPrefix, `irPostfix, `drPrefix, `drPostfix
      requires c.Valid()
    {
      && target < |c.devices|
      && 1 <= irSize == |c.ir[target]| <= 32
      && irPostfix == |Flat(c.ir[..target])|
      && irPrefix == |Flat(c.ir[target + 1..])|
      && drPrefix == |c.devices| - target - 1
      && drPostfix == target
    }

    // ---------- The cable ----------

    method WriteBit(pins: Pins)
      requires chain.Valid()
      modifies this`chain
      ensures chain == Clock(old(chain), pins)
    {
      chain := Clock(chain, pins);
    }

    method ReadWriteBit(pins: Pins) returns (bit: bool)
      requires chain.Valid()
      modifies this`chain
      ensures chain == Clock(old(chain), pins) && bit == Tdo(old(chain), pins)
    {
      bit := Tdo(chain, pins);
      chain := Clock(chain, pins);
    }

    /**
     Asserts TRST for one clock. With the wire every device is reset and keeps its shift registers;
     a cable without it clocks a plain 0, which takes a chain that is reset already to Run-Test/Idle.
     */
    method WriteTrst()
      requires chain.Valid()
      modifies this`chain
      ensures chain.Valid() && chain.devices == old(chain).devices
      ensures (hasTrst ==> chain.tap == TestLogicReset && InReset(chain) && chain.irStage == old(chain).irStage
                           && chain.drStage == old(chain).drStage && chain.latched == old(chain).latched)
      ensures !hasTrst && old(chain).tap == TestLogicReset ==> chain == old(chain).(tap := RunTestIdle)
      ensures !hasTrst ==> chain == Clock(old(chain), TMS_LOW)
    {
      if hasTrst {
        chain := OnFall(chain.(tap := TestLogicReset));
      } else {
        chain := Clock(chain, TMS_LOW);
      }
    }

    /** Clocks out the first `len` bits of an array of words, least significant first. */
    method CableWriteStream(stream: seq<Word>, len: nat, setLastBit: bool)
      requires chain.Valid() && 0 < len <= 32 * |stream|
      modifies this`chain
      ensures chain == Run(old(chain), DataPins(StreamBits(stream, len), setLastBit))
    {
      ghost var start, bits := chain, StreamBits(stream, len);
      ghost var pins := DataPins(bits, setLastBit);
      for i := 0 to len
        invariant chain.Valid() && chain == Run(start, pins[..i])
      {
        assert bits[i] == stream[i / 32][i % 32];
        WriteBit(Pins(setLastBit && i == len - 1, stream[i / 32][i % 32]));
        RunSnoc(start, pins, i);
      }
      assert pins[..len] == pins;
    }

    /** The same, sampling TDO into the words of `instream`. */
    method CableReadWriteStream(outstream: seq<Word>, len: nat, setLastBit: bool) returns (instream: seq<Word>)
      requires chain.Valid() && 0 < len <= 32 * |outstream|
      modifies this`chain
      ensures chain == Run(old(chain), DataPins(StreamBits(outstream, len), setLastBit))
      ensures Sampled(instream, TdoRun(old(chain), DataPins(StreamBits(outstream, len), setLastBit)))
    {
      ghost var start, bits := chain, StreamBits(outstream, len);
      ghost var pins := DataPins(bits, setLastBit);
      instream := [];
      for i := 0 to len
        invariant chain.Valid() && chain == Run(start, pins[..i])
        invariant Sampled(instream, TdoRun(start, pins[..i]))
      {
        assert bits[i] == outstream[i / 32][i % 32];
        var inval := ReadWriteBit(Pins(setLastBit && i == len - 1, outstream[i / 32][i % 32]));
        RunSnoc(start, pins, i);
        PutBitSampled(instream, TdoRun(start, pins[..i]), inval);
        instream := PutBit(instream, i, inval);
      }
      assert pins[..len] == pins;
    }

    // ---------- Reset, and walks between states ----------

    /** One clock with TMS low, and eight with TMS high. */
    method ClockReset()
      requires chain.Valid()
      modifies this`chain
      ensures chain == Run(old(chain), RESET_PINS)
    {
      hide Run, Clock, RESET_PINS;
      ghost var start, pins := chain, RESET_PINS;
      ResetPinsAre();
      RunSnoc(start, pins, 0);
      NothingRun(start);
      assert pins[..0] == [];
      WriteBit(TMS_LOW);
      for i := 0 to 8
        invariant chain.Valid() && chain == Run(start, pins[..i + 1])
      {
        RunSnoc(start, pins, i + 1);
        WriteBit(TMS_HIGH);
      }
      assert pins[..9] == pins;
    }

    /**
     Ends in Run-Test/Idle with every reset instruction selected, from any state, with or without a TRST wire:
     the reset clocks, TRST, and one more clock with TMS low.
     */
    method TapReset()
      requires chain.Valid()
      modifies this`chain, this`currentChain, this`currentRegIdx
      ensures chain.Valid() && chain.tap == RunTestIdle && chain.devices == old(chain).devices
      ensures forall i :: 0 <= i < |chain.devices| ==> chain.ir[i] == chain.devices[i].resetIr
      ensures currentChain == -1 && currentRegIdx == seq(MAX_MODULES, _ => -1)
      ensures var reset := Run(old(chain), RESET_PINS);
              && reset.tap == TestLogicReset
              && chain == Clock(if hasTrst then OnFall(reset) else Clock(reset, TMS_LOW), TMS_LOW)
    {
      hide Run;
      ResetRun(chain);
      ClockReset();
      WriteTrst();
      WriteBit(TMS_LOW);
      currentChain := -1;
      currentRegIdx := seq(MAX_MODULES, _ => -1);
    }

    method TapSetShiftDr()
      requires chain.Valid()
      modifies this`chain
      ensures chain == Run(old(chain), GO_SHIFT_DR)
    {
      WriteBit(TMS_HIGH);
      WriteBit(TMS_LOW);
      WriteBit(TMS_LOW);
      RunThree(old(chain), TMS_HIGH, TMS_LOW, TMS_LOW);
    }

    method TapExitToIdle()
      requires chain.Valid()
      modifies this`chain
      ensures chain == Run(old(chain), EXIT_TO_IDLE)
    {
      WriteBit(TMS_HIGH);
      WriteBit(TMS_LOW);
      RunTwo(old(chain), TMS_HIGH, TMS_LOW);
    }

    // ---------- Instruction scans ----------

    /** Moves `opcode` into the target's instruction register, and BYPASS into every other. */
    method TapSetIr(opcode: Word)
      requires chain.Valid() && 1 <= irSize <= 32
      modifies this`chain, this`currentChain
      ensures chain == Run(old(chain), IrScanPins(IrStream(opcode, irSize, irPrefix, irPostfix)))
      ensures currentChain == -1
    {
      hide Run, IrStream, IrScanPins, OpcodeWord, SpillWord, StreamBits;
      var chainSize := irSize + irPrefix + irPostfix;
      var irChain := seq(chainSize / 32 + 1, _ => ALL_ONES);

      var startOffset := irPostfix / 32;
      var startShift := irPostfix - startOffset * 32;
      irChain := irChain[startOffset := OpcodeWord(irChain[startOffset], opcode, irSize, startShift)];
      if startShift + irSize > 32 {
        irChain := irChain[startOffset + 1 := SpillWord(irChain[startOffset + 1], opcode, irSize, startShift)];
      }
      IrChainBits(irChain, opcode, irSize, irPrefix, irPostfix);

      ScanInstruction(irChain, chainSize);
      currentChain := -1;
    }

    /** The walk through the instruction side of the state machine, with the stream in Shift-IR. */
    method ScanInstruction(irChain: seq<Word>, chainSize: nat)
      requires chain.Valid() && 0 < chainSize <= 32 * |irChain|
      modifies this`chain
      ensures chain == Run(old(chain), IrScanPins(StreamBits(irChain, chainSize)))
    {
      ghost var start, data := chain, DataPins(StreamBits(irChain, chainSize), true);
      WriteBit(TMS_HIGH);
      WriteBit(TMS_HIGH);
      WriteBit(TMS_LOW);
      WriteBit(TMS_LOW);
      RunFour(start, TMS_HIGH, TMS_HIGH, TMS_LOW, TMS_LOW);
      CableWriteStream(irChain, chainSize, true);
      RunAppend(start, GO_SHIFT_IR, data);
      TapExitToIdle();
      RunAppend(start, GO_SHIFT_IR + data, EXIT_TO_IDLE);
    }

    // ---------- Data scans ----------

    /** Writes to the selected data register; with `setTms`, pads for the devices before the target. */
    method JtagWriteStream(outData: seq<Word>, len: nat, setTms: bool)
      requires chain.Valid() && 0 < len <= 32 * |outData|
      modifies this`chain
      ensures chain == Run(old(chain), WritePins(StreamBits(outData, len), drPrefix, setTms))
    {
      ghost var bits := StreamBits(outData, len);
      if !setTms {
        CableWriteStream(outData, len, false);
      } else if drPrefix == 0 {
        CableWriteStream(outData, len, true);
        assert bits + Zeros(0) == bits;
      } else {
        CableWriteStream(outData, len, false);
        WritePadding();
        WritePinsSplit(bits, drPrefix);
        RunAppend(old(chain), DataPins(bits, false), DataPins(Zeros(drPrefix), true));
      }
    }

    /** The zeros that push the data through the BYPASS registers before the target. */
    method WritePadding()
      requires chain.Valid() && drPrefix > 0
      modifies this`chain
      ensures chain == Run(old(chain), DataPins(Zeros(drPrefix), true))
    {
      ghost var start, pins := chain, DataPins(Zeros(drPrefix), true);
      for i := 0 to drPrefix - 1
        invariant chain.Valid() && chain == Run(start, pins[..i])
      {
        WriteBit(TMS_LOW);
        RunSnoc(start, pins, i);
      }
      WriteBit(TMS_HIGH);
      RunSnoc(start, pins, drPrefix - 1);
      assert pins[..drPrefix] == pins;
    }

    method SkipPostfixBits()
      requires chain.Valid()
      modifies this`chain
      ensures chain == Run(old(chain), DataPins(Zeros(drPostfix), false))
    {
      ghost var start, pins := chain, DataPins(Zeros(drPostfix), false);
      for i := 0 to drPostfix
        invariant chain.Valid() && chain == Run(start, pins[..i])
      {
        WriteBit(TMS_LOW);
        RunSnoc(start, pins, i);
      }
      assert pins[..drPostfix] == pins;
    }

    /** Writes and reads at once; with `adjust`, first shifts past the devices after the target. */
    method JtagReadWriteStream(outData: seq<Word>, len: nat, adjust: bool, setTms: bool) returns (inData: seq<Word>)
      requires chain.Valid() && 0 < len <= 32 * |outData|
      modifies this`chain
      ensures var skip := if adjust then DataPins(Zeros(drPostfix), false) else [];
              var bits := StreamBits(outData, len);
              && chain == Run(old(chain), skip + WritePins(bits, drPrefix, setTms))
              && Sampled(inData, TdoRun(Run(old(chain), skip), DataPins(bits, false)))
    {
      ghost var bits := StreamBits(outData, len);
      ghost var skip := if adjust then DataPins(Zeros(drPostfix), false) else [];
      if adjust && drPostfix > 0 {
        SkipPostfixBits();
      }
      assert chain == Run(old(chain), skip) by {
        if drPostfix == 0 { assert DataPins(Zeros(0), false) == []; }
      }
      ghost var mid := chain;
      if !setTms {
        inData := CableReadWriteStream(outData, len, false);
      } else if drPrefix == 0 {
        inData := CableReadWriteStream(outData, len, true);
        assert bits + Zeros(0) == bits;
        TdoIgnoresLastTms(mid, bits);
      } else {
        inData := CableReadWriteStream(outData, len, false);
        WritePadding();
        WritePinsSplit(bits, drPrefix);
        RunAppend(mid, DataPins(bits, false), DataPins(Zeros(drPrefix), true));
      }
      RunAppend(old(chain), skip, WritePins(bits, drPrefix, setTms));
    }
  }

  // ---------- Walks ----------

  /** How many clocks with TMS high lead to Test-Logic-Reset; never more than five. */
  function ResetDistance(s: TapState): (d: nat)
    ensures d <= 5 && (d == 0 <==> s == TestLogicReset)
  {
    match s
    case TestLogicReset => 0
    case SelectIr => 1
    case SelectDr => 2
    case RunTestIdle | UpdateDr | UpdateIr => 3
    case Exit1Dr | Exit2Dr | Exit1Ir | Exit2Ir => 4
    case CaptureDr | ShiftDr | PauseDr | CaptureIr | ShiftIr | PauseIr => 5
  }

  /** The state after `k` clocks with TMS high. */
  function AfterHigh(s: TapState, k: nat): TapState
    decreases k
  {
    if k == 0 then s else AfterHigh(NextState(s, true), k - 1)
  }

  lemma OneNearer(s: TapState)
    ensures ResetDistance(NextState(s, true)) == if s == TestLogicReset then 0 else ResetDistance(s) - 1
  {
  }

  /** They lead to Test-Logic-Reset exactly when there are as many of them as the distance. */
  lemma {:induction false} HighResets(s: TapState, k: nat)
    ensures AfterHigh(s, k) == TestLogicReset <==> k >= ResetDistance(s)
    decreases k
  {
    if k > 0 {
      OneNearer(s);
      HighResets(NextState(s, true), k - 1);
    }
  }

  const RESET_PINS: seq<Pins> := [TMS_LOW] + seq(8, _ => TMS_HIGH)

  lemma ResetPinsAre()
    ensures |RESET_PINS| == 9 && RESET_PINS[0] == TMS_LOW && forall i :: 0 < i < 9 ==> RESET_PINS[i] == TMS_HIGH
  {
  }

  lemma NothingRun(c: Chain)
    requires c.Valid()
    ensures Run(c, []) == c
  {
  }

  /** Eight clocks with TMS high are more than enough. */
  lemma ResetRun(c: Chain)
    requires c.Valid()
    ensures var r := Run(c, RESET_PINS); r.tap == TestLogicReset && InReset(r)
  {
    hide Run, RESET_PINS, InReset;
    ResetPinsAre();
    var pins := RESET_PINS;
    RunSnoc(c, pins, 0);
    HighRun(c, pins, 8);
    assert pins[..9] == pins;
    HighResets(Run(c, pins[..1]).tap, 8);
  }

  lemma {:induction false} HighRun(c: Chain, pins: seq<Pins>, k: nat)
    requires c.Valid() && k < |pins| && forall i :: 0 < i < |pins| ==> pins[i] == TMS_HIGH
    ensures Run(c, pins[..k + 1]).tap == AfterHigh(Run(c, pins[..1]).tap, k)
    ensures k > 0 && Run(c, pins[..k + 1]).tap == TestLogicReset ==> InReset(Run(c, pins[..k + 1]))
    decreases k
  {
    hide Run;
    if k > 0 {
      HighRun(c, pins, k - 1);
      RunSnoc(c, pins, k);
      OneMoreHigh(Run(c, pins[..1]).tap, k - 1);
      ResetOnFall(Run(c, pins[..k]));
    }
  }

  lemma {:induction false} OneMoreHigh(s: TapState, k: nat)
    ensures AfterHigh(s, k + 1) == NextState(AfterHigh(s, k), true)
    decreases k
  {
    if k > 0 {
      OneMoreHigh(NextState(s, true), k - 1);
    }
  }

  lemma ResetOnFall(c: Chain)
    requires c.Valid()
    ensures Clock(c, TMS_HIGH).tap == TestLogicReset ==> InReset(Clock(c, TMS_HIGH))
  {
  }

  ghost predicate InReset(c: Chain)
    requires c.Valid()
  {
    forall i :: 0 <= i < |c.devices| ==> c.ir[i] == c.devices[i].resetIr
  }

  lemma RunOne(c: Chain, a: Pins)
    requires c.Valid()
    ensures Run(c, [a]) == Clock(c, a)
  {
    assert [a][1..] == [];
  }

  lemma RunCons(c: Chain, a: Pins, rest: seq<Pins>)
    requires c.Valid()
    ensures Run(c, [a] + rest) == Run(Clock(c, a), rest)
  {
    RunAppend(c, [a], rest);
    RunOne(c, a);
  }

  lemma RunTwo(c: Chain, a: Pins, b: Pins)
    requires c.Valid()
    ensures Run(c, [a, b]) == Clock(Clock(c, a), b)
  {
    assert [a, b] == [a] + [b];
    RunCons(c, a, [b]);
    RunOne(Clock(c, a), b);
  }

  lemma RunThree(c: Chain, a: Pins, b: Pins, d: Pins)
    requires c.Valid()
    ensures Run(c, [a, b, d]) == Clock(Clock(Clock(c, a), b), d)
  {
    assert [a, b, d] == [a] + [b, d];
    RunCons(c, a, [b, d]);
    RunTwo(Clock(c, a), b, d);
  }

  lemma RunFour(c: Chain, a: Pins, b: Pins, d: Pins, e: Pins)
    requires c.Valid()
    ensures Run(c, [a, b, d, e]) == Clock(Clock(Clock(Clock(c, a), b), d), e)
  {
    assert [a, b, d, e] == [a] + [b, d, e];
    RunCons(c, a, [b, d, e]);
    RunThree(Clock(c, a), b, d, e);
  }

  // ---------- Data scans ----------

  /** The clocks of a data write: the data, then with `setTms` the padding, TMS high on the very last clock. */
  function WritePins(bits: Bits, prefix: nat, setTms: bool): seq<Pins> {
    if setTms then DataPins(bits + Zeros(prefix), true) else DataPins(bits, false)
  }

  lemma WritePinsSplit(bits: Bits, prefix: nat)
    requires prefix > 0
    ensures WritePins(bits, prefix, true) == DataPins(bits, false) + DataPins(Zeros(prefix), true)
  {
  }

  lemma {:induction false} TdoIgnoresLastTms(c: Chain, bits: Bits)
    requires c.Valid()
    ensures TdoRun(c, DataPins(bits, true)) == TdoRun(c, DataPins(bits, false))
    decreases |bits|
  {
    if bits != [] {
      var high, low := DataPins(bits, true), DataPins(bits, false);
      assert high[1..] == DataPins(bits[1..], true) && low[1..] == DataPins(bits[1..], false);
      if |bits| > 1 {
        TdoIgnoresLastTms(Clock(c, low[0]), bits[1..]);
      }
    }
  }

  // ---------- The words of an instruction scan ----------

  /** The word with the opcode's low bits: the opcode between ones. */
  function OpcodeWord(w: Word, opcode: Word, size: nat, start: nat): Word {
    var placed := And(w, Shl(opcode, start));
    var lower := Or(placed, Not(HostShl(ALL_ONES, start)));
    Or(lower, HostShl(ALL_ONES, start + size))
  }

  /** The next word, when the opcode spills into it. */
  function SpillWord(w: Word, opcode: Word, size: nat, start: nat): Word
    requires start <= 32 <= start + size
  {
    Or(And(w, Sar(opcode, 32 - start)), HostShl(ALL_ONES, size - (32 - start)))
  }

  lemma OpcodeWordBits(opcode: Word, size: nat, postfix: nat, j: nat)
    requires 1 <= size <= 32 && j < 32
    ensures var start := postfix % 32;
            OpcodeWord(ALL_ONES, opcode, size, start)[j]
            == (start <= j < start + size ==> SentOpcode(opcode, size, postfix)[j - start])
  {
  }

  lemma SpillWordBits(opcode: Word, size: nat, start: nat, j: nat)
    requires size <= 32 && start < 32 < start + size && j < 32
    ensures SpillWord(ALL_ONES, opcode, size, start)[j] == (j < size - (32 - start) ==> opcode[32 - start + j])
  {
  }

  function IrChainWord(w: nat, opcode: Word, size: nat, postfix: nat): Word {
    var at, start := postfix / 32, postfix % 32;
    if w == at then OpcodeWord(ALL_ONES, opcode, size, start)
    else if w == at + 1 && start + size > 32 then SpillWord(ALL_ONES, opcode, size, start)
    else ALL_ONES
  }

  /** The words `TapSetIr` builds, read as a bit stream. */
  lemma IrChainBits(irChain: seq<Word>, opcode: Word, size: nat, prefix: nat, postfix: nat)
    requires 1 <= size <= 32 && |irChain| == (size + prefix + postfix) / 32 + 1
    requires forall w :: 0 <= w < |irChain| ==> irChain[w] == IrChainWord(w, opcode, size, postfix)
    ensures StreamBits(irChain, size + prefix + postfix) == IrStream(opcode, size, prefix, postfix)
  {
    hide OpcodeWord, SpillWord;
    var at, start := postfix / 32, postfix % 32;
    var n := size + prefix + postfix;
    var sent, stream := StreamBits(irChain, n), IrStream(opcode, size, prefix, postfix);
    forall k | 0 <= k < n ensures sent[k] == stream[k] {
      var w, j := k / 32, k % 32;
      if w == at {
        OpcodeWordBits(opcode, size, postfix, j);
      } else if w == at + 1 && start + size > 32 {
        SpillWordBits(opcode, size, start, j);
      }
    }
  }

  /** The words hold the sampled bits, least significant first, and zeros above them. */
  ghost predicate Sampled(words: seq<Word>, bits: Bits) {
    && |words| == (|bits| + 31) / 32
    && HoldsBits(words, bits)
  }

  ghost predicate HoldsBits(words: seq<Word>, bits: Bits) {
    forall k :: 0 <= k < 32 * |words| ==> words[k / 32][k % 32] == (k < |bits| && bits[k])
  }

  /** Stores sample number `i`, starting a cleared word when the previous one is full. */
  function PutBit(words: seq<Word>, i: nat, bit: bool): seq<Word>
    requires |words| == (i + 31) / 32
  {
    var room := if i % 32 == 0 then words + [ZERO] else words;
    room[i / 32 := Or(room[i / 32], Shl([bit] + Zeros(31), i % 32))]
  }

  lemma PutBitSampled(words: seq<Word>, bits: Bits, bit: bool)
    requires Sampled(words, bits)
    ensures Sampled(PutBit(words, |bits|, bit), bits + [bit])
  {
    var i := |bits|;
    var room := if i % 32 == 0 then words + [ZERO] else words;
    assert HoldsBits(room, bits);
    var w := Or(room[i / 32], Shl([bit] + Zeros(31), i % 32));
    assert !room[i / 32][i % 32];
    assert forall j :: 0 <= j < 32 ==> w[j] == if j == i % 32 then bit else room[i / 32][j];
  }

  lemma RunSnoc(c: Chain, pins: seq<Pins>, i: nat)
    requires c.Valid() && i < |pins|
    ensures Run(c, pins[..i + 1]) == Clock(Run(c, pins[..i]), pins[i])
    ensures TdoRun(c, pins[..i + 1]) == TdoRun(c, pins[..i]) + [Tdo(Run(c, pins[..i]), pins[i])]
  {
    assert pins[..i + 1] == pins[..i] + [pins[i]];
    RunAppend(c, pins[..i], [pins[i]]);
    TdoRunAppend(c, pins[..i], [pins[i]]);
  }
}
