/**
 The heat map: the memory is swept with longer and longer delays, and for each bit the first delay at
 which it fails is kept in flash, whose bits can only be cleared.
 */
module DelayMap {
  import opened BitWords
  import opened DramArray

  const BLOCK_TIME_OFFSET := 850
  const MIN_DELAY := 2
  const MAX_DELAY := 450
  const DELAY_INCREMENT := 2
  const TICKS_PER_SEC := 1000000
  const SEGMENT_DATA_START := 0x3A10
  const SEGMENT_DATA_END := 0x20000

  /** How many words of memory have room for their results between those addresses, at four bytes a word. */
  const RESULT_WORDS := 29052

  /** What memory gives back: for each delay and word, any four bits. */
  type Memory = (nat, nat) -> Nibble

  // ---------- One word of results ----------

  function ByteOf(w: Word, b: nat): Bits
    requires b < 4
  {
    w[8 * b..8 * b + 8]
  }

  /** A byte of ones except for byte `b`, which is the low byte of `inc`. */
  function InByte(inc: Word, b: nat): Word
    requires b < 4
  {
    Or(Shl(inc, 8 * b), Not(Shl(ALL_ONES, 8 * b)))
  }

  function Increment(count: nat): Word {
    Or(Shl(ALL_ONES, 8), NatBits(count, 32))
  }

  /** The mask that records a failure in byte `b`, or ones. */
  function ByteMask(curr: Word, data: Nibble, row: nat, count: nat, b: nat): Word
    requires b < 4
  {
    if data[b] == (row % 2 == 1) && ByteOf(curr, b) == Ones(8) then InByte(Increment(count), b) else ALL_ONES
  }

  lemma OtherMask(curr: Word, data: Nibble, row: nat, count: nat, a: nat, i: nat)
    requires a < 4 && i < 32 && i / 8 != a
    ensures ByteMask(curr, data, row, count, a)[i]
  {
  }

  lemma OwnMask(curr: Word, data: Nibble, row: nat, count: nat, b: nat, j: nat)
    requires b < 4 && j < 8 && count < 256
    ensures (ByteMask(curr, data, row, count, b)[8 * b + j]
             == (Failed(data, row, b) && ByteOf(curr, b) == Ones(8) ==> NatBits(count, 8)[j]))
  {
    LowByte(count, j);
  }

  /** What a byte of results becomes. */
  function NewByte(was: Bits, failed: bool, count: nat): Bits {
    if failed && was == Ones(8) then NatBits(count, 8) else was
  }

  /** Clearing bits with the combined masks changes exactly the bytes of first failures. */
  lemma MasksCombine(curr: Word, newResults: Word, data: Nibble, row: nat, count: nat, b: nat)
    requires b < 4 && count < 256
    requires forall i :: 0 <= i < 32 ==>
      newResults[i] == (ByteMask(curr, data, row, count, 0)[i] && ByteMask(curr, data, row, count, 1)[i]
                        && ByteMask(curr, data, row, count, 2)[i] && ByteMask(curr, data, row, count, 3)[i])
    ensures ByteOf(And(curr, newResults), b) == NewByte(ByteOf(curr, b), Failed(data, row, b), count)
  {
    hide ByteMask;
    forall j | 0 <= j < 8
      ensures And(curr, newResults)[8 * b + j] == NewByte(ByteOf(curr, b), Failed(data, row, b), count)[j]
    {
      var i := 8 * b + j;
      forall a | 0 <= a < 4 && a != b ensures ByteMask(curr, data, row, count, a)[i] {
        OtherMask(curr, data, row, count, a, i);
      }
      OwnMask(curr, data, row, count, b, j);
      assert curr[i] == ByteOf(curr, b)[j];
    }
  }

  lemma LowByte(count: nat, j: nat)
    requires count < 256 && j < 8
    ensures NatBits(count, 32)[j] == NatBits(count, 8)[j]
  {
    Pow2Values();
    FewBits(count, 8, 32);
  }

  /** Tests each bit of a word that was read, and makes the mask to write to flash. */
  method TestWord(curr: Word, data: Nibble, row: nat, count: nat) returns (newResults: Word)
    requires count < 256
    ensures forall b :: 0 <= b < 4 ==>
      ByteOf(And(curr, newResults), b) == NewByte(ByteOf(curr, b), Failed(data, row, b), count)
  {
    newResults := ALL_ONES;
    var currInc := Increment(count);
    if data[0] == (row % 2 == 1) && ByteOf(curr, 0) == Ones(8) {
      newResults := And(newResults, InByte(currInc, 0));
    }
    if data[1] == (row % 2 == 1) && ByteOf(curr, 1) == Ones(8) {
      newResults := And(newResults, InByte(currInc, 1));
    }
    if data[2] == (row % 2 == 1) && ByteOf(curr, 2) == Ones(8) {
      newResults := And(newResults, InByte(currInc, 2));
    }
    if data[3] == (row % 2 == 1) && ByteOf(curr, 3) == Ones(8) {
      newResults := And(newResults, InByte(currInc, 3));
    }
    forall b | 0 <= b < 4
      ensures ByteOf(And(curr, newResults), b) == NewByte(ByteOf(curr, b), Failed(data, row, b), count)
    {
      MasksCombine(curr, newResults, data, row, count, b);
    }
  }

  // ---------- One sweep ----------

  /**
   The block in which testing starts: as many whole blocks of 850 microseconds as the delay in seconds has
   room for, and one row more, for the refresh that writing a row gives it.
   */
  function StartBlock(delay: nat): (start: nat)
    ensures start >= DRAM_NUM_COLS
    ensures (start - DRAM_NUM_COLS) * 850 <= delay * 1000000 < (start - DRAM_NUM_COLS + 1) * 850
    ensures delay <= MAX_DELAY ==> delay * TICKS_PER_SEC < 0x8000_0000
  {
    delay * TICKS_PER_SEC / BLOCK_TIME_OFFSET + DRAM_NUM_COLS
  }

  /**
   Every word was read when its row had been left alone for the delay: at most a block too short, and less than
   a row of blocks too long.
   */
  ghost predicate Delayed(pass: Pass, delay: nat)
    reads pass
  {
    && |pass.readAt| == |pass.writtenAt| == DRAM_WORDS
    && forall k :: 0 <= k < DRAM_WORDS ==>
         && LastInRow(k) < DRAM_WORDS
         && delay * 1000000 - 850 < pass.SinceRefresh(k) * 850 < delay * 1000000 + 256 * 850
  }

  lemma SweepDelayed(pass: Pass, delay: nat)
    requires pass.Valid(StartBlock(delay), pass.block) && |pass.readAt| == DRAM_WORDS
    ensures Delayed(pass, delay)
  {
    var start := StartBlock(delay);
    pass.Complete(start);
    hide Pass.SinceRefresh, Pass.Valid, StartBlock;
  }

  /** Flash after the first `n` words have been tested. */
  ghost predicate Tested(before: seq<Word>, after: seq<Word>, memory: Memory, delay: nat, n: nat) {
    && |after| == |before| == RESULT_WORDS
    && forall k, b :: 0 <= k < RESULT_WORDS && 0 <= b < 4 ==>
      ByteOf(after[k], b)
      == if k < n then NewByte(ByteOf(before[k], b), Failed(memory(delay, k), RowOf(k), b), delay / 2)
         else ByteOf(before[k], b)
  }

  lemma NothingTested(flash: seq<Word>, memory: Memory, delay: nat)
    requires |flash| == RESULT_WORDS
    ensures Tested(flash, flash, memory, delay, 0)
  {
  }

  /** Testing beyond the words that have room changes nothing. */
  lemma NoMoreTested(before: seq<Word>, after: seq<Word>, memory: Memory, delay: nat, n: nat, m: nat)
    requires Tested(before, after, memory, delay, n) && RESULT_WORDS <= n && RESULT_WORDS <= m
    ensures Tested(before, after, memory, delay, m)
  {
  }

  /** The address of the results of word `n`; it stops at the end of the segment. */
  function ResultAddress(n: nat): nat {
    SEGMENT_DATA_START + 4 * if n < RESULT_WORDS then n else RESULT_WORDS
  }

  method Sweep(delay: nat, memory: Memory, flash: array<Word>) returns (ghost pass: Pass)
    requires MIN_DELAY <= delay <= MAX_DELAY && flash.Length == RESULT_WORDS
    modifies flash
    ensures Tested(old(flash[..]), flash[..], memory, delay, RESULT_WORDS)
    ensures fresh(pass) && pass.Valid(StartBlock(delay), pass.block) && Delayed(pass, delay)
  {
    hide Tested, Delayed;
    ghost var before := flash[..];
    var start := StartBlock(delay);
    var p := new Pass(start);
    var baseAddressFlash := SEGMENT_DATA_START;
    NothingTested(before, memory, delay);
    p.Unfinished(start);
    while p.readRow < DRAM_NUM_ROWS
      invariant fresh(p) && p.Valid(start, p.block) && baseAddressFlash == ResultAddress(|p.readAt|)
      invariant Tested(before, flash[..], memory, delay, |p.readAt|)
      invariant p.readRow < DRAM_NUM_ROWS ==> p.block < start + DRAM_WORDS && |p.readAt| < DRAM_WORDS
      invariant |p.readAt| <= DRAM_WORDS && (p.readRow >= DRAM_NUM_ROWS ==> |p.readAt| == DRAM_WORDS)
      decreases start + DRAM_WORDS - p.block
    {
      p.NextBlock(start);
      if p.block >= start {
        baseAddressFlash := ReadAndTest(p, start, delay, memory, flash, baseAddressFlash, before);
      }
      p.Unfinished(start);
    }
    NoMoreTested(before, flash[..], memory, delay, DRAM_WORDS, RESULT_WORDS);
    SweepDelayed(p, delay);
    pass := p;
  }

  /** Reads the next word, and records its failures while there is room for them. */
  method ReadAndTest(p: Pass, start: nat, delay: nat, memory: Memory, flash: array<Word>, baseAddressFlash: nat,
                     ghost before: seq<Word>)
    returns (next: nat)
    requires p.block > 0 && p.Valid(start, p.block - 1) && p.block >= start && |p.readAt| < DRAM_WORDS
    requires delay <= MAX_DELAY && flash.Length == RESULT_WORDS && baseAddressFlash == ResultAddress(|p.readAt|)
    requires Tested(before, flash[..], memory, delay, |p.readAt|)
    modifies p, flash
    ensures p.block == old(p.block) && p.Valid(start, p.block) && |p.readAt| == old(|p.readAt|) + 1
    ensures next == ResultAddress(|p.readAt|) && Tested(before, flash[..], memory, delay, |p.readAt|)
  {
    hide Tested;
    ghost var n := |p.readAt|;
    CursorWord(p.readRow, p.readCol, n);
    var dataFromDram := memory(delay, DRAM_NUM_COLS * p.readRow + p.readCol);
    next := baseAddressFlash;
    if baseAddressFlash < SEGMENT_DATA_END {
      TestAndStore(flash, (baseAddressFlash - SEGMENT_DATA_START) / 4, dataFromDram, p.readRow, delay, before, memory);
      next := next + 4;
    } else {
      NoMoreTested(before, flash[..], memory, delay, n, n + 1);
    }
    p.NextRead(start);
  }

  /** Tests one word and writes its results; writing flash only clears bits. */
  method TestAndStore(flash: array<Word>, at: nat, data: Nibble, row: nat, delay: nat,
                      ghost before: seq<Word>, ghost memory: Memory)
    requires at < flash.Length == RESULT_WORDS && delay <= MAX_DELAY
    requires data == memory(delay, at) && row == RowOf(at)
    requires Tested(before, flash[..], memory, delay, at)
    modifies flash
    ensures Tested(before, flash[..], memory, delay, at + 1)
  {
    var currResults := flash[at];
    var newResults := TestWord(currResults, data, row, delay / DELAY_INCREMENT);
    flash[at] := And(flash[at], newResults);
  }

  // ---------- All sweeps ----------

  /** What a bit's byte holds after the sweeps with delays up to `delay`. */
  ghost function Recorded(memory: Memory, n: nat, b: nat, delay: nat): (r: nat)
    requires b < 4 && delay % 2 == 0 && delay <= MAX_DELAY
    ensures r == 255 || 1 <= r <= delay / 2
  {
    if delay == 0 then 255
    else
      var before := Recorded(memory, n, b, delay - 2);
      if before == 255 && Failed(memory(delay, n), RowOf(n), b) then delay / 2 else before
  }

  /** It is 255 if the bit never failed, and otherwise half the first delay at which it did. */
  lemma {:induction false} RecordedIsFirst(memory: Memory, n: nat, b: nat, delay: nat)
    requires b < 4 && delay % 2 == 0 && delay <= MAX_DELAY
    ensures var r := Recorded(memory, n, b, delay);
            if r == 255 then forall d :: 2 <= d <= delay && d % 2 == 0 ==> !Failed(memory(d, n), RowOf(n), b)
            else Failed(memory(2 * r, n), RowOf(n), b)
                 && forall d :: 2 <= d < 2 * r && d % 2 == 0 ==> !Failed(memory(d, n), RowOf(n), b)
    decreases delay
  {
    if delay > 0 {
      RecordedIsFirst(memory, n, b, delay - 2);
    }
  }

  lemma HalfOfOnes(p: nat)
    requires p > 0
    ensures (2 * p - 1) % 2 == 1 && (2 * p - 1) / 2 == p - 1
  {
  }

  lemma {:induction false} AllOnesNumber(n: nat)
    ensures NatBits(Pow2(n) - 1, n) == Ones(n)
  {
    if n > 0 {
      AllOnesNumber(n - 1);
      HalfOfOnes(Pow2(n - 1));
      assert Ones(n) == [true] + Ones(n - 1);
    }
  }

  lemma SameByte(a: nat, b: nat)
    requires a < 256 && b < 256
    ensures NatBits(a, 8) == NatBits(b, 8) <==> a == b
  {
    Pow2Values();
    NumberRoundTrip(a, 8);
    NumberRoundTrip(b, 8);
  }

  lemma ByteErased(count: nat)
    requires count < 256
    ensures NatBits(count, 8) == Ones(8) <==> count == 255
  {
    Pow2Values();
    AllOnesNumber(8);
    SameByte(count, 255);
  }

  ghost predicate Recording(flash: seq<Word>, memory: Memory, delay: nat)
    requires delay % 2 == 0 && delay <= MAX_DELAY
  {
    |flash| == RESULT_WORDS && forall n, b :: 0 <= n < RESULT_WORDS && 0 <= b < 4 ==>
      ByteOf(flash[n], b) == NatBits(Recorded(memory, n, b, delay), 8)
  }

  /** The delays that are tried. */
  predicate Tried(d: nat) {
    MIN_DELAY <= d <= MAX_DELAY && d % DELAY_INCREMENT == 0
  }

  predicate FailedAt(memory: Memory, n: nat, b: nat, d: nat)
    requires b < 4
  {
    Failed(memory(d, n), RowOf(n), b)
  }

  /**
   A byte of the finished map is all ones just when the bit never failed, and otherwise tells the first
   delay at which it did.
   */
  lemma FirstFailure(flash: seq<Word>, memory: Memory, n: nat, b: nat, d: nat)
    requires Recording(flash, memory, MAX_DELAY) && n < RESULT_WORDS && b < 4 && Tried(d)
    ensures ByteOf(flash[n], b) == Ones(8) <==> forall e: nat :: Tried(e) ==> !FailedAt(memory, n, b, e)
    ensures (ByteOf(flash[n], b) == NatBits(d / 2, 8)
             <==> FailedAt(memory, n, b, d) && forall e: nat :: Tried(e) && e < d ==> !FailedAt(memory, n, b, e))
  {
    hide Recorded, Failed, NatBits;
    var r := Recorded(memory, n, b, MAX_DELAY);
    RecordedIsFirst(memory, n, b, MAX_DELAY);
    ByteErased(r);
    SameByte(r, d / 2);
    assert ByteOf(flash[n], b) == NatBits(r, 8);
    if r != 255 {
      assert Tried(2 * r) && FailedAt(memory, n, b, 2 * r);
    }
  }

  lemma SweepRecords(before: seq<Word>, after: seq<Word>, memory: Memory, delay: nat)
    requires delay % 2 == 0 && 2 <= delay <= MAX_DELAY
    requires Recording(before, memory, delay - 2) && Tested(before, after, memory, delay, RESULT_WORDS)
    ensures Recording(after, memory, delay)
  {
    forall n, b | 0 <= n < RESULT_WORDS && 0 <= b < 4
      ensures ByteOf(after[n], b) == NatBits(Recorded(memory, n, b, delay), 8)
    {
      ByteErased(Recorded(memory, n, b, delay - 2));
    }
  }

  lemma ErasedRecording(flash: seq<Word>, memory: Memory)
    requires |flash| == RESULT_WORDS && forall n :: 0 <= n < RESULT_WORDS ==> flash[n] == ALL_ONES
    ensures Recording(flash, memory, 0)
  {
    forall n, b | 0 <= n < RESULT_WORDS && 0 <= b < 4 ensures ByteOf(flash[n], b) == NatBits(255, 8) {
      ByteErased(255);
    }
  }

  /**
   The whole measurement, from erased flash, whatever the memory gives back in each sweep: 225 sweeps, each
   of which reads every word after its own delay.
   */
  method MeasureAll(memory: Memory, flash: array<Word>) returns (ghost passes: seq<Pass>)
    requires flash.Length == RESULT_WORDS && forall n :: 0 <= n < RESULT_WORDS ==> flash[n] == ALL_ONES
    modifies flash
    ensures Recording(flash[..], memory, MAX_DELAY)
    ensures |passes| == 225 && forall i :: 0 <= i < 225 ==> Delayed(passes[i], 2 * i + 2)
  {
    hide Recording, Recorded, Tested, Delayed;
    ErasedRecording(flash[..], memory);
    passes := [];
    var delay := MIN_DELAY;
    while delay <= MAX_DELAY
      invariant delay % 2 == 0 && 2 <= delay <= MAX_DELAY + 2
      invariant Recording(flash[..], memory, delay - 2)
      invariant 2 * |passes| == delay - 2 && forall i :: 0 <= i < |passes| ==> Delayed(passes[i], 2 * i + 2)
    {
      ghost var before := flash[..];
      ghost var pass := Sweep(delay, memory, flash);
      SweepRecords(before, flash[..], memory, delay);
      passes := passes + [pass];
      delay := delay + DELAY_INCREMENT;
    }
  }
}
