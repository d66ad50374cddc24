/**
 The delay search: a binary search, in 16-bit arithmetic, for the delay after which a given share of the
 memory's bits are still unflipped.
 */
module DelaySearch {
  import opened BitWords
  import opened DramArray

  const BLOCK_TIME_OFFSET := 700
  const MIN_DELAY := 0
  const MAX_DELAY := 60000
  const TICKS_PER_SECOND := 10000
  const MARGIN_OF_ERROR := 26
  const TARGET_ACCURACY := 256 * 256 * 4 * 99 / 100

  // ---------- The search, for any count of unflipped bits ----------

  type Counts = nat -> nat

  predicate Near(flips: nat) {
    (if flips > TARGET_ACCURACY then flips - TARGET_ACCURACY else TARGET_ACCURACY - flips) < MARGIN_OF_ERROR
  }

  /** That is a share of 99% of the memory's 262144 bits, up to a hundredth of a per cent, but for the highest count. */
  lemma NearIsShare(flips: nat)
    ensures Near(flips) <==> 9899 * 262144 <= 10000 * flips <= 9901 * 262144 && flips != 259548
  {
  }

  function Middle(lo: nat, hi: nat): nat {
    lo / 2 + hi / 2
  }

  /** Where a search ends: whether it found a delay, its last bounds, and the delays it measured. */
  datatype Outcome = Outcome(found: bool, lo: nat, hi: nat, measured: seq<nat>)

  /** The bounds after measuring their middle. */
  function Narrowed(lo: nat, hi: nat, flips: nat): (nat, nat) {
    if flips < TARGET_ACCURACY then (lo, Middle(lo, hi)) else (Middle(lo, hi), hi)
  }

  function Search(count: Counts, lo: nat, hi: nat): Outcome
    requires lo + 3 <= hi
    decreases hi - lo
  {
    var delay := Middle(lo, hi);
    if Near(count(delay)) then Outcome(true, lo, hi, [delay])
    else
      var (lo', hi') := Narrowed(lo, hi, count(delay));
      if lo' + 3 > hi' then Outcome(false, lo', hi', [delay])
      else
        var rest := Search(count, lo', hi');
        rest.(measured := [delay] + rest.measured)
  }

  /** The middle is strictly inside the bounds, and narrowing to it leaves at most half the gap, and one. */
  lemma MiddleInside(lo: nat, hi: nat, flips: nat)
    requires lo + 3 <= hi
    ensures lo < Middle(lo, hi) < hi
    ensures var (lo', hi') := Narrowed(lo, hi, flips);
            lo <= lo' < hi' <= hi && hi' - lo' <= (hi - lo) / 2 + 1
  {
  }

  /** How many measurements a gap allows. */
  function Rounds(gap: nat): nat {
    if gap < 3 then 0 else 1 + Rounds(gap / 2 + 1)
  }

  lemma {:induction false} RoundsMonotone(a: nat, b: nat)
    requires a <= b
    ensures Rounds(a) <= Rounds(b)
  {
    if a >= 3 {
      RoundsMonotone(a / 2 + 1, b / 2 + 1);
    }
  }

  lemma {:induction false} SearchIsShort(count: Counts, lo: nat, hi: nat)
    requires lo + 3 <= hi
    ensures 1 <= |Search(count, lo, hi).measured| <= Rounds(hi - lo)
    decreases hi - lo
  {
    var flips := count(Middle(lo, hi));
    var (lo', hi') := Narrowed(lo, hi, flips);
    MiddleInside(lo, hi, flips);
    RoundsMonotone(hi' - lo', (hi - lo) / 2 + 1);
    if !Near(flips) && lo' + 3 <= hi' {
      SearchIsShort(count, lo', hi');
    }
  }

  lemma {:induction false} RoundsOfPowers(gap: nat, k: nat)
    requires gap < Pow2(k) + 2
    ensures Rounds(gap) <= k
  {
    if gap >= 3 {
      RoundsOfPowers(gap / 2 + 1, k - 1);
    }
  }

  lemma FewMeasurements(count: Counts, lo: nat, hi: nat, k: nat)
    requires lo + 3 <= hi && hi - lo < Pow2(k) + 2
    ensures |Search(count, lo, hi).measured| <= k
  {
    SearchIsShort(count, lo, hi);
    RoundsOfPowers(hi - lo, k);
  }

  /** At most sixteen measurements are made. */
  lemma SixteenAtMost(count: Counts)
    ensures |Search(count, MIN_DELAY, MAX_DELAY).measured| <= 16
  {
    Pow2Values();
    FewMeasurements(count, MIN_DELAY, MAX_DELAY, 16);
  }

  /** The search reports a delay just when the last one it measured is within the margin, and no earlier one was. */
  lemma {:induction false} SearchIsHonest(count: Counts, lo: nat, hi: nat)
    requires lo + 3 <= hi
    ensures var r := Search(count, lo, hi);
            && r.measured != [] && (r.found <==> Near(count(r.measured[|r.measured| - 1])))
            && forall i :: 0 <= i < |r.measured| - 1 ==> !Near(count(r.measured[i]))
    decreases hi - lo
  {
    var flips := count(Middle(lo, hi));
    var (lo', hi') := Narrowed(lo, hi, flips);
    MiddleInside(lo, hi, flips);
    if !Near(flips) && lo' + 3 <= hi' {
      SearchIsHonest(count, lo', hi');
      var rest, r := Search(count, lo', hi'), Search(count, lo, hi);
      assert r.measured[|r.measured| - 1] == rest.measured[|rest.measured| - 1];
    }
  }

  /**
   A bound that has moved has a count outside the margin, on its own side of the target; a failed
   search leaves a gap of at most two.
   */
  lemma {:induction false} BoundsAreMeasured(count: Counts, lo: nat, hi: nat)
    requires lo + 3 <= hi
    ensures var r := Search(count, lo, hi);
            && lo <= r.lo < r.hi <= hi && (!r.found ==> r.hi <= r.lo + 2)
            && (r.lo == lo || (count(r.lo) >= TARGET_ACCURACY && !Near(count(r.lo))))
            && (r.hi == hi || (count(r.hi) < TARGET_ACCURACY && !Near(count(r.hi))))
    decreases hi - lo
  {
    var flips := count(Middle(lo, hi));
    var (lo', hi') := Narrowed(lo, hi, flips);
    MiddleInside(lo, hi, flips);
    if !Near(flips) && lo' + 3 <= hi' {
      BoundsAreMeasured(count, lo', hi');
    }
  }

  /** Longer delays never leave more bits unflipped. */
  ghost predicate Decaying(count: Counts) {
    forall a: nat, b: nat :: a <= b ==> count(a) >= count(b)
  }

  /** A target between the counts at the outer bounds stays between the counts at the bounds. */
  lemma TargetStaysBracketed(count: Counts, lo: nat, hi: nat)
    requires lo + 3 <= hi && count(lo) >= TARGET_ACCURACY > count(hi)
    ensures var r := Search(count, lo, hi);
            count(r.lo) >= TARGET_ACCURACY > count(r.hi)
  {
    BoundsAreMeasured(count, lo, hi);
  }

  /** The delay `d` is a middle on the way that halving the bounds around `d` takes, before they meet. */
  predicate Reaches(lo: nat, hi: nat, d: nat)
    decreases hi - lo
  {
    lo + 3 <= hi
    && (d == Middle(lo, hi)
        || (if d < Middle(lo, hi) then Reaches(lo, Middle(lo, hi), d) else Reaches(Middle(lo, hi), hi, d)))
  }

  /** What a search finds lies on that way. */
  lemma {:induction false} FoundIsReached(count: Counts, lo: nat, hi: nat) returns (d: nat)
    requires lo + 3 <= hi && Search(count, lo, hi).found
    ensures Near(count(d)) && Reaches(lo, hi, d) && lo < d < hi
    decreases hi - lo
  {
    d := Middle(lo, hi);
    MiddleInside(lo, hi, count(d));
    if !Near(count(d)) {
      var (lo', hi') := Narrowed(lo, hi, count(d));
      d := FoundIsReached(count, lo', hi');
    }
  }

  /** When bits only decay, the search does not turn away from a delay within the margin that lies on its way. */
  lemma {:induction false} ReachedIsFound(count: Counts, lo: nat, hi: nat, d: nat)
    requires lo + 3 <= hi && Decaying(count) && Near(count(d)) && Reaches(lo, hi, d)
    ensures Search(count, lo, hi).found
    decreases hi - lo
  {
    var delay := Middle(lo, hi);
    MiddleInside(lo, hi, count(delay));
    if !Near(count(delay)) {
      assert d < delay ==> count(d) >= count(delay);
      assert delay <= d ==> count(delay) >= count(d);
      var (lo', hi') := Narrowed(lo, hi, count(delay));
      ReachedIsFound(count, lo', hi', d);
    }
  }

  /** When bits only decay, the search finds a delay exactly when one within the margin is reached by halving. */
  lemma FindsExactlyTheReached(count: Counts)
    requires Decaying(count)
    ensures (Search(count, MIN_DELAY, MAX_DELAY).found
             <==> exists d: nat :: Near(count(d)) && Reaches(MIN_DELAY, MAX_DELAY, d))
  {
    if Search(count, MIN_DELAY, MAX_DELAY).found {
      var d := FoundIsReached(count, MIN_DELAY, MAX_DELAY);
    }
    if d: nat :| Near(count(d)) && Reaches(MIN_DELAY, MAX_DELAY, d) {
      ReachedIsFound(count, MIN_DELAY, MAX_DELAY, d);
    }
  }

  /** Counts with which only a delay of 2 is within the margin. */
  function OnlyTwo(d: nat): nat {
    if d < 2 then 262144 else if d == 2 then TARGET_ACCURACY else 0
  }

  function Halved(hi: nat, k: nat): nat {
    if k == 0 then hi else Halved(hi / 2, k - 1)
  }

  lemma {:induction false} HalvesDown(hi: nat, k: nat)
    requires Halved(hi, k) == 3
    ensures hi >= 3 && !Reaches(0, hi, 2)
    decreases k
  {
    if k > 0 {
      HalvesDown(hi / 2, k - 1);
    } else {
      assert !Reaches(1, 3, 2);
    }
  }

  lemma OnlyTwoDecays()
    ensures Decaying(OnlyTwo) && forall d: nat :: Near(OnlyTwo(d)) <==> d == 2
  {
  }

  /** An instance: a delay of 2 is not reached, so the search misses it when it is the only one within the margin. */
  lemma TwoIsMissed()
    ensures Decaying(OnlyTwo) && Near(OnlyTwo(2)) && !Search(OnlyTwo, MIN_DELAY, MAX_DELAY).found
  {
    hide Search, Reaches;
    OnlyTwoDecays();
    HalvesDown(60000, 14);
    FindsExactlyTheReached(OnlyTwo);
  }

  // ---------- The measurement ----------

  /** What memory gives back after each delay, word by word. */
  type Memory = (nat, nat) -> Nibble

  function One(bit: bool): nat {
    if bit then 1 else 0
  }

  /** The unflipped bits of a word. */
  function Unflipped(data: Nibble, row: nat): (n: nat)
    ensures n <= DRAM_BITS_PER_WORD
  {
    One(!Failed(data, row, 0)) + One(!Failed(data, row, 1)) + One(!Failed(data, row, 2)) + One(!Failed(data, row, 3))
  }

  /** The unflipped bits of the first `n` words. */
  function UnflippedUpTo(memory: Memory, delay: nat, n: nat): (count: nat)
    ensures count <= DRAM_BITS_PER_WORD * n
  {
    if n == 0 then 0
    else UnflippedUpTo(memory, delay, n - 1) + Unflipped(memory(delay, n - 1), RowOf(n - 1))
  }

  function CountOf(memory: Memory): Counts {
    delay => UnflippedUpTo(memory, delay, DRAM_WORDS)
  }

  /**
   The block in which the first word is read: as many whole blocks of 700 microseconds as the delay, in
   hundredths of a second, has room for, and one row more.
   */
  function StartBlock(delay: nat): (start: nat)
    ensures (start - DRAM_NUM_COLS) * 700 <= delay * 10000 < (start - DRAM_NUM_COLS + 1) * 700
    ensures start >= DRAM_NUM_COLS
    ensures delay <= MAX_DELAY ==> delay * TICKS_PER_SECOND < 0x1_0000_0000 && start < 0x1_0000_0000
  {
    delay * TICKS_PER_SECOND / BLOCK_TIME_OFFSET + DRAM_NUM_COLS
  }

  /**
   Every word was read when its row had been left alone for the delay: at most a block too short, and less than
   a row of blocks too long.
   */
  ghost predicate Delayed(pass: Pass, delay: nat)
    reads pass
  {
    && |pass.readAt| == |pass.writtenAt| == DRAM_WORDS
    && forall k :: 0 <= k < DRAM_WORDS ==>
         && LastInRow(k) < DRAM_WORDS
         && delay * 10000 - 700 < pass.SinceRefresh(k) * 700 < delay * 10000 + 256 * 700
  }

  lemma PassDelayed(pass: Pass, delay: nat)
    requires pass.Valid(StartBlock(delay), pass.block) && |pass.readAt| == DRAM_WORDS
    ensures Delayed(pass, delay)
  {
    var start := StartBlock(delay);
    pass.Complete(start);
    hide Pass.SinceRefresh, Pass.Valid, StartBlock;
  }

  /** One pass over the memory; it counts the bits that still read as they were written. */
  method Measure(delay: nat, memory: Memory) returns (flipCounter: nat, ghost pass: Pass)
    requires delay <= MAX_DELAY
    ensures flipCounter == CountOf(memory)(delay) <= DRAM_BITS_PER_WORD * DRAM_WORDS
    ensures fresh(pass) && pass.Valid(StartBlock(delay), pass.block) && Delayed(pass, delay)
  {
    var start := StartBlock(delay);
    var p := new Pass(start);
    flipCounter := 0;
    hide UnflippedUpTo, RowOf, Delayed;
    p.Unfinished(start);
    while p.readRow < DRAM_NUM_ROWS
      invariant fresh(p) && p.Valid(start, p.block)
      invariant flipCounter == UnflippedUpTo(memory, delay, |p.readAt|)
      invariant p.readRow < DRAM_NUM_ROWS ==> p.block < start + DRAM_WORDS && |p.readAt| < DRAM_WORDS
      invariant |p.readAt| <= DRAM_WORDS && (p.readRow >= DRAM_NUM_ROWS ==> |p.readAt| == DRAM_WORDS)
      decreases start + DRAM_WORDS - p.block
    {
      p.NextBlock(start);
      if p.block >= start {
        flipCounter := ReadAndCount(p, start, delay, memory, flipCounter);
      }
      p.Unfinished(start);
    }
    PassDelayed(p, delay);
    pass := p;
  }

  method ReadAndCount(p: Pass, start: nat, delay: nat, memory: Memory, flipCounter: nat) returns (next: nat)
    requires p.block > 0 && p.Valid(start, p.block - 1) && p.block >= start && |p.readAt| < DRAM_WORDS
    requires flipCounter == UnflippedUpTo(memory, delay, |p.readAt|)
    modifies p
    ensures p.block == old(p.block) && p.Valid(start, p.block) && |p.readAt| == old(|p.readAt|) + 1
    ensures next == UnflippedUpTo(memory, delay, |p.readAt|)
  {
    CursorWord(p.readRow, p.readCol, |p.readAt|);
    var dataFromDram := memory(delay, DRAM_NUM_COLS * p.readRow + p.readCol);
    next := flipCounter + CountUnflipped(dataFromDram, p.readRow);
    p.NextRead(start);
  }

  /** The low bits of the row and of the word shifted right, compared. */
  function CountUnflipped(data: Nibble, row: nat): (n: nat)
    ensures n == Unflipped(data, row)
  {
    var odd := row % 2 == 1;
    One(odd != data[0]) + One(odd != data[1]) + One(odd != data[2]) + One(odd != data[3])
  }

  /** One entry of the log in flash: the delay, and the count in two halves. */
  datatype Entry = Entry(delay: nat, high: nat, low: nat)

  function EntryOf(delay: nat, flips: nat): (e: Entry)
    requires delay < 0x1_0000 && flips < 0x1_0000_0000
    ensures e.high < 0x1_0000 && e.low < 0x1_0000 && e.high * 0x1_0000 + e.low == flips
  {
    Entry(delay, flips / 0x1_0000, flips % 0x1_0000)
  }

  /** The log holds each measurement. */
  ghost predicate Records(log: seq<Entry>, count: Counts, measured: seq<nat>) {
    && |log| == |measured|
    && forall i :: 0 <= i < |log| ==>
      log[i].delay == measured[i] && log[i].high * 0x1_0000 + log[i].low == count(measured[i])
  }

  /** At the end the last measurement is there twice. */
  ghost predicate Logged(log: seq<Entry>, count: Counts, measured: seq<nat>) {
    && measured != [] && Records(log, count, measured + [measured[|measured| - 1]])
  }

  lemma RecordsMore(log: seq<Entry>, count: Counts, measured: seq<nat>, delay: nat)
    requires Records(log, count, measured) && delay < 0x1_0000 && count(delay) < 0x1_0000_0000
    ensures Records(log + [EntryOf(delay, count(delay))], count, measured + [delay])
  {
  }

  /** What is left to do, after some measurements, is a search between the present bounds. */
  ghost predicate Remaining(all: Outcome, count: Counts, lo: nat, hi: nat, measured: seq<nat>)
    requires lo + 3 <= hi
  {
    var rest := Search(count, lo, hi);
    all.found == rest.found && all.measured == measured + rest.measured
  }

  lemma RemainingStep(all: Outcome, count: Counts, lo: nat, hi: nat, measured: seq<nat>)
    requires lo + 3 <= hi && Remaining(all, count, lo, hi, measured)
    ensures var delay := Middle(lo, hi);
            var more, (lo', hi') := measured + [delay], Narrowed(lo, hi, count(delay));
            if Near(count(delay)) then all.found && all.measured == more
            else if lo' + 3 > hi' then !all.found && all.measured == more
            else Remaining(all, count, lo', hi', more)
  {
    var delay := Middle(lo, hi);
    var (lo', hi') := Narrowed(lo, hi, count(delay));
    if !Near(count(delay)) && lo' + 3 <= hi' {
      var rest := Search(count, lo', hi').measured;
      assert measured + ([delay] + rest) == (measured + [delay]) + rest;
    }
  }

  /** Arithmetic on an `unsigned int` of 16 bits. */
  function Wrapped(n: nat): nat {
    n % 0x1_0000
  }

  lemma NothingWraps(lo: nat, hi: nat)
    requires lo <= hi <= MAX_DELAY
    ensures Wrapped(Wrapped(lo / 2) + Wrapped(hi / 2)) == Middle(lo, hi) && Wrapped(lo + 3) == lo + 3
  {
    hide Wrapped;
    Fits(lo / 2);
    Fits(hi / 2);
    Fits(lo / 2 + hi / 2);
    Fits(lo + 3);
  }

  lemma Fits(n: nat)
    requires n < 0x1_0000
    ensures Wrapped(n) == n
  {
  }

  /** The whole search. It returns 0 when the last measurement is within the margin, and 1 when the bounds have met. */
  method FindDelay(memory: Memory) returns (result: int, log: seq<Entry>)
    ensures var r := Search(CountOf(memory), MIN_DELAY, MAX_DELAY);
            result == (if r.found then 0 else 1) && Logged(log, CountOf(memory), r.measured) && |log| <= 17
  {
    hide Search, Records, Remaining, CountOf, UnflippedUpTo, Wrapped;
    ghost var count, measured: seq<nat> := CountOf(memory), [];
    ghost var all := Search(count, MIN_DELAY, MAX_DELAY);
    NothingDone(count);
    var currentMinDelay, currentMaxDelay := MIN_DELAY, MAX_DELAY;
    log := [];
    while true
      invariant MIN_DELAY <= currentMinDelay && currentMinDelay + 3 <= currentMaxDelay <= MAX_DELAY
      invariant Remaining(all, count, currentMinDelay, currentMaxDelay, measured) && Records(log, count, measured)
      decreases currentMaxDelay - currentMinDelay
    {
      NothingWraps(currentMinDelay, currentMaxDelay);
      var delay := Wrapped(Wrapped(currentMinDelay / 2) + Wrapped(currentMaxDelay / 2));
      var flipCounter, pass := Measure(delay, memory);
      MiddleInside(currentMinDelay, currentMaxDelay, flipCounter);
      RemainingStep(all, count, currentMinDelay, currentMaxDelay, measured);
      RecordsMore(log, count, measured, delay);
      log := log + [EntryOf(delay, flipCounter)];
      measured := measured + [delay];
      var difference := if flipCounter > TARGET_ACCURACY then flipCounter - TARGET_ACCURACY
                        else TARGET_ACCURACY - flipCounter;
      if difference < MARGIN_OF_ERROR {
        RecordsMore(log, count, measured, delay);
        log := log + [EntryOf(delay, flipCounter)];
        LogLength(log, count, measured + [delay]);
        return 0, log;
      } else {
        if flipCounter < TARGET_ACCURACY {
          currentMaxDelay := delay;
        } else {
          currentMinDelay := delay;
        }
      }
      NothingWraps(currentMinDelay, currentMaxDelay);
      if Wrapped(currentMinDelay + 3) > currentMaxDelay {
        RecordsMore(log, count, measured, delay);
        log := log + [EntryOf(delay, flipCounter)];
        LogLength(log, count, measured + [delay]);
        return 1, log;
      }
    }
  }

  lemma NothingDone(count: Counts)
    ensures var all := Search(count, MIN_DELAY, MAX_DELAY);
            && Remaining(all, count, MIN_DELAY, MAX_DELAY, []) && Records([], count, [])
            && |all.measured| <= 16
  {
    SixteenAtMost(count);
    assert [] + Search(count, MIN_DELAY, MAX_DELAY).measured == Search(count, MIN_DELAY, MAX_DELAY).measured;
  }

  lemma LogLength(log: seq<Entry>, count: Counts, measured: seq<nat>)
    requires Records(log, count, measured)
    ensures |log| == |measured|
  {
  }
}
