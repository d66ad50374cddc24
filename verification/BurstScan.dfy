/**
 The data half of a burst read on the clocks of the chain: status bits, words and CRC come out of the unit
 behind the BYPASS registers of the devices after it, which the bridge does not skip.
 */
module BurstScan {
  import opened BitWords
  import opened ScanChain
  import opened ChainCommands
  import opened Bridge
  import opened ChainSetup
  import opened Crc32
  import opened BurstRead
  import DebugCommands

  // ---------- What the unit gives out ----------

  ghost predicate Shaped(t: Transfer) {
    |t.waits| == |t.received|
  }

  /** One word of a burst: zeros while the unit is not ready, a one, and the word. */
  function WordBits(t: Transfer, size: nat, j: nat): Bits
    requires Shaped(t) && WordSize(size) && j < |t.received|
  {
    Zeros(t.waits[j]) + [true] + t.received[j][..8 * size]
  }

  /** The words from `j` on, and the CRC. */
  function StreamFrom(t: Transfer, size: nat, j: nat): Bits
    requires Shaped(t) && WordSize(size) && j <= |t.received|
    decreases |t.received| - j
  {
    if j == |t.received| then t.receivedCrc else WordBits(t, size, j) + StreamFrom(t, size, j + 1)
  }

  /** The same transfer with a first word that comes later. */
  function Delayed(t: Transfer, bits: nat): (d: Transfer)
    requires Shaped(t) && t.waits != []
    ensures Shaped(d)
  {
    t.(waits := t.waits[0 := t.waits[0] + bits])
  }

  lemma {:induction false} SameTail(t: Transfer, u: Transfer, size: nat, j: nat)
    requires Shaped(t) && Shaped(u) && WordSize(size) && j <= |t.received|
    requires u == t.(waits := u.waits) && u.waits[j..] == t.waits[j..]
    ensures StreamFrom(t, size, j) == StreamFrom(u, size, j)
    decreases |t.received| - j
  {
    if j < |t.received| {
      assert u.waits[j] == u.waits[j..][0] == t.waits[j];
      assert u.waits[j + 1..] == u.waits[j..][1..] == t.waits[j + 1..];
      SameTail(t, u, size, j + 1);
    }
  }

  /** Zeros before the stream delay its first word. */
  lemma DelayedStream(t: Transfer, bits: nat, size: nat)
    requires Shaped(t) && t.waits != [] && WordSize(size)
    ensures StreamFrom(Delayed(t, bits), size, 0) == Zeros(bits) + StreamFrom(t, size, 0)
  {
    var d := Delayed(t, bits);
    SameTail(t, d, size, 1);
    assert WordBits(d, size, 0) == Zeros(bits) + WordBits(t, size, 0);
  }

  /** The devices after the unit, one bit each, make a burst time out exactly when they use up the first wait. */
  lemma DelayedTimesOut(t: Transfer, bits: nat)
    requires Shaped(t) && t.waits != []
    ensures TimedOut(Delayed(t, bits)) <==> TimedOut(t) || t.waits[0] + bits >= 100
  {
    var d := Delayed(t, bits);
    if j :| 0 <= j < |t.waits| && t.waits[j] >= MAX_READ_STATUS_WAIT {
      assert d.waits[j] >= MAX_READ_STATUS_WAIT;
    }
    if j :| 0 <= j < |d.waits| && d.waits[j] >= MAX_READ_STATUS_WAIT {
      assert j > 0 ==> t.waits[j] >= MAX_READ_STATUS_WAIT;
    }
    assert d.waits[0] == t.waits[0] + bits;
  }

  // ---------- What comes out of the chain ----------

  /** Clocking zeros into a chain in Shift-DR brings out these bits. */
  ghost predicate Gives(c: Chain, bits: Bits) {
    c.Valid() && c.tap == ShiftDr && TdoRun(c, DataPins(Zeros(|bits|), false)) == bits
  }

  lemma GivesInTurn(c: Chain, first: Bits, rest: Bits)
    requires Gives(c, first + rest)
    ensures TdoRun(c, DataPins(Zeros(|first|), false)) == first
    ensures var after := Run(c, DataPins(Zeros(|first|), false));
            Gives(after, rest) && after.ir == c.ir && after.devices == c.devices
  {
    hide TdoRun, Run;
    var a, b := DataPins(Zeros(|first|), false), DataPins(Zeros(|rest|), false);
    assert DataPins(Zeros(|first + rest|), false) == a + b;
    TdoRunAppend(c, a, b);
    DataInShiftDr(c, Zeros(|first|), false);
    SplitEqual(TdoRun(c, a), TdoRun(Run(c, a), b), first, rest);
  }

  lemma SplitEqual(a: Bits, b: Bits, c: Bits, d: Bits)
    requires a + b == c + d && |a| == |c|
    ensures a == c && b == d
  {
    assert a == (a + b)[..|a|] && b == (a + b)[|a|..];
  }

  /**
   After the walk to Shift-DR, the chain gives the burst with a first word that is delayed by one bit for each
   device after the unit.
   */
  lemma BurstComes(c: Chain, target: nat, key: Bits, t: Transfer, size: nat)
    requires c.Valid() && c.tap == RunTestIdle && DebugCommands.Attached(c, target, key)
    requires Shaped(t) && t.waits != [] && WordSize(size)
    requires StreamFrom(t, size, 0) <= c.devices[target].Captured(key)
    ensures Gives(Run(c, GO_SHIFT_DR), StreamFrom(Delayed(t, target), size, 0))
  {
    hide TdoRun, Run, StreamFrom, DataPins;
    var stream := StreamFrom(t, size, 0);
    GoShiftDr(c);
    var len := target + |stream|;
    CapturedLayout(c, target, key);
    BypassLooksNotReady(Run(c, GO_SHIFT_DR), target, key, len);
    DelayedStream(t, target, size);
    assert c.devices[target].Captured(key)[..len - target] == stream;
  }

  // ---------- Reading it ----------

  /** The chain has moved on in Shift-DR. */
  ghost predicate Shifting(c: Chain, was: Chain) {
    c.Valid() && c.tap == ShiftDr && c.ir == was.ir && c.devices == was.devices
  }

  method ReadStatus(b: JtagBridge, ghost bit: bool, ghost rest: Bits) returns (status: bool)
    requires Gives(b.chain, [bit] + rest)
    modifies b`chain
    ensures status == bit && Gives(b.chain, rest) && Shifting(b.chain, old(b.chain))
  {
    hide TdoRun, Run;
    ghost var c := b.chain;
    GivesInTurn(c, [bit], rest);
    assert DataPins(Zeros(1), false) == [TMS_LOW];
    status := b.ReadWriteBit(TMS_LOW);
    RunOne(c, TMS_LOW);
    OneSample(c);
  }

  lemma OneSample(c: Chain)
    requires c.Valid()
    ensures TdoRun(c, [TMS_LOW]) == [Tdo(c, TMS_LOW)]
  {
    assert [TMS_LOW][1..] == [];
  }

  /** Waits for the status bit of one word; gives up when it has seen too many bits. */
  method WaitOnChain(b: JtagBridge, ghost zeros: nat, ghost rest: Bits) returns (ready: bool)
    requires Gives(b.chain, Zeros(zeros) + [true] + rest)
    modifies b`chain
    ensures ready <==> zeros < 100
    ensures Shifting(b.chain, old(b.chain)) && (ready ==> Gives(b.chain, rest))
  {
    hide Gives, Zeros;
    var status := false;
    var j := 0;
    GivesIsValid(b.chain, Zeros(zeros) + [true] + rest);
    while !status
      invariant j <= MAX_READ_STATUS_WAIT && Shifting(b.chain, old(b.chain))
      invariant if status then j == zeros + 1 && Gives(b.chain, rest)
                else j <= zeros && Gives(b.chain, Zeros(zeros - j) + [true] + rest)
      decreases zeros + 1 - j
    {
      FirstOf(zeros - j, rest);
      status := ReadStatus(b, j == zeros, if j == zeros then rest else Zeros(zeros - j - 1) + [true] + rest);
      j := j + 1;
      if j > MAX_READ_STATUS_WAIT {
        return false;
      }
    }
    ready := true;
  }

  lemma GivesIsValid(c: Chain, bits: Bits)
    requires Gives(c, bits)
    ensures Shifting(c, c)
  {
  }

  lemma FirstOf(zeros: nat, rest: Bits)
    ensures (Zeros(zeros) + [true] + rest
             == if zeros == 0 then [true] + rest else [false] + (Zeros(zeros - 1) + [true] + rest))
  {
  }

  /** Reads up to 32 bits into a word; with TMS on the last clock, after the padding. */
  method ReadWord(b: JtagBridge, len: nat, setTms: bool, ghost bits: Bits, ghost rest: Bits) returns (word: Word)
    requires Gives(b.chain, bits + rest) && 0 < len == |bits| <= 32
    modifies b`chain
    ensures word == bits + Zeros(32 - len)
    ensures !setTms ==> Gives(b.chain, rest) && Shifting(b.chain, old(b.chain))
    ensures setTms ==> b.chain.Valid() && b.chain.tap == Exit1Dr && b.chain.ir == old(b.chain).ir
    ensures setTms ==> b.chain.devices == old(b.chain).devices
  {
    hide TdoRun, Run, Sampled;
    ghost var c := b.chain;
    GivesInTurn(c, bits, rest);
    assert StreamBits([ZERO], len) == Zeros(len);
    DataInShiftDr(c, Zeros(len) + Zeros(b.drPrefix), true);
    var words := b.JtagReadWriteStream([ZERO], len, false, setTms);
    NoSkip(c);
    assert [] + WritePins(Zeros(len), b.drPrefix, setTms) == WritePins(Zeros(len), b.drPrefix, setTms);
    NothingRun(c);
    SampledWord(words, bits);
    word := words[0];
    assert word == bits + Zeros(32 - len);
  }

  /**
   The data half of a burst, clock by clock. It does what receiving the delayed transfer does: it completes
   exactly when that does not time out, with the same words and the CRC; then the chain is back in
   Run-Test/Idle. A timeout leaves it in Shift-DR.
   */
  method ReadBurst(b: JtagBridge, size: nat, from: nat, count: nat, data: array<Word>,
                   ghost target: nat, ghost key: Bits, ghost t: Transfer)
    returns (crcCalc: Word, crcRead: Word, complete: bool)
    requires b.chain.Valid() && b.chain.tap == RunTestIdle && DebugCommands.Attached(b.chain, target, key)
    requires WordSize(size) && from < count <= data.Length && Shaped(t) && |t.received| == count - from
    requires StreamFrom(t, size, 0) <= b.chain.devices[target].Captured(key)
    modifies b`chain, data
    ensures forall k :: 0 <= k < data.Length && !(from <= k < count) ==> data[k] == old(data[k])
    ensures complete <==> !TimedOut(Delayed(t, target))
    ensures complete ==> crcCalc == Feed(ALL_ONES, Flat(Payload(t, size))) && crcRead == t.receivedCrc
    ensures complete ==> forall k :: from <= k < count ==> data[k] == Cut(t.received[k - from], size)
    ensures b.chain.Valid() && b.chain.ir == old(b.chain).ir && b.chain.devices == old(b.chain).devices
    ensures b.chain.tap == if complete then RunTestIdle else ShiftDr
  {
    hide Feed, Flat, Gives, StreamFrom, Run, DebugCommands.Attached, Chain.Valid, UnitClocks, Cut;
    ghost var c, d, payload := b.chain, Delayed(t, target), Payload(t, size);
    BurstComes(c, target, key, t, size);
    b.TapSetShiftDr();
    GoShiftDr(c);
    GivesIsValid(b.chain, StreamFrom(d, size, 0));
    crcCalc, crcRead := ALL_ONES, ZERO;
    NothingFed(payload);
    for i := from to count
      invariant forall k :: 0 <= k < data.Length && !(from <= k < count) ==> data[k] == old(data[k])
      invariant forall k :: from <= k < i ==> data[k] == Cut(t.received[k - from], size)
      invariant forall j :: 0 <= j < i - from ==> d.waits[j] < MAX_READ_STATUS_WAIT
      invariant crcCalc == Feed(ALL_ONES, Flat(payload[..i - from]))
      invariant Gives(b.chain, StreamFrom(d, size, i - from)) && Shifting(b.chain, c)
    {
      var inData, ready := ReadReady(b, size, d, i - from);
      if !ready {
        return crcCalc, crcRead, false;
      }
      crcCalc := ComputeCrc(crcCalc, inData, 8 * size);
      FeedMore(payload, i - from);
      data[i] := inData;
    }
    assert payload[..count - from] == payload;
    LastIsCrc(d, size);
    crcRead := ReadWord(b, 32, true, t.receivedCrc, []);
    assert t.receivedCrc + Zeros(0) == t.receivedCrc;
    ExitToIdle(b.chain);
    b.TapExitToIdle();
    complete := true;
  }

  lemma LastIsCrc(d: Transfer, size: nat)
    requires Shaped(d) && WordSize(size)
    ensures StreamFrom(d, size, |d.received|) == d.receivedCrc + []
  {
  }

  /** Waits for one word of the burst, and reads it. */
  method ReadReady(b: JtagBridge, size: nat, ghost d: Transfer, ghost j: nat) returns (inData: Word, ready: bool)
    requires Shaped(d) && WordSize(size) && j < |d.received| && Gives(b.chain, StreamFrom(d, size, j))
    modifies b`chain
    ensures ready <==> d.waits[j] < MAX_READ_STATUS_WAIT
    ensures Shifting(b.chain, old(b.chain))
    ensures ready ==> inData == Cut(d.received[j], size) && inData[..8 * size] == d.received[j][..8 * size]
    ensures ready ==> Gives(b.chain, StreamFrom(d, size, j + 1))
  {
    hide Gives, Zeros;
    ghost var bits, rest := d.received[j][..8 * size], StreamFrom(d, size, j + 1);
    Grouped(d.waits[j], bits, rest);
    ready := WaitOnChain(b, d.waits[j], bits + rest);
    inData := ZERO;
    if ready {
      inData := ReadWord(b, 8 * size, false, bits, rest);
    }
  }

  lemma Grouped(zeros: nat, bits: Bits, rest: Bits)
    ensures Zeros(zeros) + [true] + bits + rest == Zeros(zeros) + [true] + (bits + rest)
  {
  }

  // ---------- After a timeout ----------

  /** In Pause-DR data bits are not shifted; the last one, with TMS high, leaves towards Update-DR. */
  lemma {:induction false} PausedStaysPut(c: Chain, bits: Bits)
    requires c.Valid() && c.tap == PauseDr && bits != []
    ensures Run(c, DataPins(bits, true)) == c.(tap := Exit2Dr)
    decreases |bits|
  {
    var pins := DataPins(bits, true);
    assert pins[1..] == DataPins(bits[1..], true);
    if |bits| == 1 {
      assert bits[1..] == [];
    } else {
      PausedStaysPut(Clock(c, pins[0]), bits[1..]);
    }
  }

  lemma WalksToPause(c: Chain)
    requires c.Valid() && c.tap == ShiftDr
    ensures Run(c, GO_SHIFT_DR) == Clock(c, TMS_HIGH).(tap := PauseDr)
  {
    var left := Clock(c, TMS_HIGH);
    RunThree(c, TMS_HIGH, TMS_LOW, TMS_LOW);
    hide Run;
    assert Clock(left, TMS_LOW) == left.(tap := PauseDr);
  }

  lemma LeavesThroughUpdate(c: Chain)
    requires c.Valid() && c.tap == Exit2Dr
    ensures Run(c, EXIT_TO_IDLE) == c.(tap := RunTestIdle, latched := LatchAll(c.latched, c.ir, c.drStage))
  {
    RunTwo(c, TMS_HIGH, TMS_LOW);
  }

  /**
   A timeout leaves the chain in Shift-DR. The next scan then walks to Pause-DR and back to Run-Test/Idle:
   what it was to send reaches no register, and the registers are updated with what the burst left behind.
   */
  lemma NextScanLost(c: Chain, bits: Bits)
    requires c.Valid() && c.tap == ShiftDr && bits != []
    ensures var left := Clock(c, TMS_HIGH);
            (Run(Run(Run(c, GO_SHIFT_DR), DataPins(bits, true)), EXIT_TO_IDLE)
             == left.(tap := RunTestIdle, latched := LatchAll(left.latched, left.ir, left.drStage)))
  {
    hide Run, Clock, DataPins, LatchAll;
    var paused := Clock(c, TMS_HIGH).(tap := PauseDr);
    WalksToPause(c);
    PausedStaysPut(paused, bits);
    LeavesThroughUpdate(paused.(tap := Exit2Dr));
  }
}
