/** The memory under test: 256 rows of 256 four-bit words, charged in alternate rows. */
module DramArray {
  import opened BitWords

  const DRAM_NUM_COLS := 256
  const DRAM_NUM_ROWS := 256
  const DRAM_BITS_PER_WORD := 4
  const DRAM_WORDS := 65536

  type Nibble = b: Bits | |b| == 4 witness [false, false, false, false]

  function RowOf(n: nat): nat {
    n / DRAM_NUM_COLS
  }

  /** The last word of a word's row. */
  function LastInRow(n: nat): nat {
    DRAM_NUM_COLS * RowOf(n) + DRAM_NUM_COLS - 1
  }

  /** What is written to every word of a row. */
  function Pattern(row: nat): Nibble {
    if row % 2 == 1 then [false, false, false, false] else [true, true, true, true]
  }

  /** A bit has failed when it no longer reads as it was written. */
  predicate Failed(data: Nibble, row: nat, b: nat)
    requires b < DRAM_BITS_PER_WORD
  {
    data[b] != Pattern(row)[b]
  }

  /** Row and column of the word after the first `n`. */
  ghost predicate Cursor(row: nat, col: nat, n: nat) {
    n == DRAM_NUM_COLS * row + col && col < DRAM_NUM_COLS && n <= DRAM_WORDS
  }

  lemma CursorWord(row: nat, col: nat, n: nat)
    requires Cursor(row, col, n)
    ensures row == RowOf(n) && (row < DRAM_NUM_ROWS <==> n < DRAM_WORDS)
  {
  }

  /**
   One pass over the memory, in blocks of fixed length: every block writes one word, until all are
   written, and from block `start` on also reads one. `writtenAt` and `readAt` are the blocks in which
   the words were written and read, in order, and `stored` is what was written.
   */
  class Pass {
    var block: nat
    var writeRow: nat
    var writeCol: nat
    var readRow: nat
    var readCol: nat
    ghost var writtenAt: seq<nat>
    ghost var readAt: seq<nat>
    ghost var stored: seq<Nibble>

    /** The pass, when the reads of blocks up to `done` have been made. */
    ghost predicate Valid(start: nat, done: int)
      reads this
    {
      && Cursor(writeRow, writeCol, |writtenAt|) && Cursor(readRow, readCol, |readAt|)
      && |writtenAt| == (if block < DRAM_WORDS then block else DRAM_WORDS)
      && |readAt| == (if done < start then 0 else done - start + 1)
      && (forall k :: 0 <= k < |writtenAt| ==> writtenAt[k] == k + 1)
      && |stored| == |writtenAt| && (forall k :: 0 <= k < |stored| ==> stored[k] == Pattern(RowOf(k)))
      && forall k :: 0 <= k < |readAt| ==> readAt[k] == start + k
    }

    constructor (ghost start: nat)
      requires start > 0
      ensures Valid(start, 0) && block == 0
    {
      block, writeRow, writeCol, readRow, readCol := 0, 0, 0, 0, 0;
      writtenAt, readAt, stored := [], [], [];
    }

    /** Begins a block, and writes the next word if there is one. */
    method NextBlock(ghost start: nat)
      requires Valid(start, block)
      modifies this
      ensures block == old(block) + 1 && Valid(start, old(block)) && readAt == old(readAt)
    {
      hide LastInRow;
      block := block + 1;
      CursorWord(writeRow, writeCol, |writtenAt|);
      if writeRow < DRAM_NUM_ROWS {
        WriteWord(if writeRow % 2 == 1 then [false, false, false, false] else [true, true, true, true]);
        writeCol := writeCol + 1;
        if writeCol == DRAM_NUM_COLS {
          writeRow := writeRow + 1;
          writeCol := 0;
        }
      }
    }

    /** Puts data into the word at the writing cursor. */
    method WriteWord(data: Nibble)
      modifies this`writtenAt, this`stored
      ensures writtenAt == old(writtenAt) + [block] && stored == old(stored) + [data]
    {
      writtenAt, stored := writtenAt + [block], stored + [data];
    }

    /** Moves on to the next word to read. */
    method NextRead(ghost start: nat)
      requires block > 0 && Valid(start, block - 1) && block >= start && |readAt| < DRAM_WORDS
      modifies this
      ensures block == old(block) && Valid(start, block) && readAt == old(readAt) + [block]
    {
      readAt := readAt + [block];
      readCol := readCol + 1;
      if readCol == DRAM_NUM_COLS {
        readRow := readRow + 1;
        readCol := 0;
      }
    }

    /** Rows are left to read just when words are. */
    lemma Unfinished(start: nat)
      requires Valid(start, block) && start > 0
      ensures |readAt| <= DRAM_WORDS && (readRow < DRAM_NUM_ROWS <==> |readAt| < DRAM_WORDS)
      ensures |readAt| < DRAM_WORDS ==> block < start + DRAM_WORDS
    {
    }

    /** Blocks between the last write to any word of its row, which refreshes the row, and the reading of word `k`. */
    ghost function SinceRefresh(k: nat): int
      requires k < |readAt| && LastInRow(k) < |writtenAt|
      reads this
    {
      var read: int := readAt[k];
      read - writtenAt[LastInRow(k)]
    }

    /**
     Every word is read after it is written, always the same number of blocks later, and its row has been
     left alone for at least `start - DRAM_NUM_COLS` blocks, and by less than a row more.
     */
    lemma Spacing(start: nat, k: nat)
      requires Valid(start, block) && k < |readAt| && DRAM_NUM_COLS <= start
      ensures k < |writtenAt| && readAt[k] - writtenAt[k] == start - 1
      ensures LastInRow(k) < |writtenAt| && start - DRAM_NUM_COLS <= SinceRefresh(k) < start
    {
    }

    /** All words have then been written before they were read. */
    lemma Complete(start: nat)
      requires Valid(start, block) && |readAt| == DRAM_WORDS && DRAM_NUM_COLS <= start
      ensures |writtenAt| == DRAM_WORDS
      ensures forall k :: 0 <= k < DRAM_WORDS ==>
        LastInRow(k) < DRAM_WORDS && start - DRAM_NUM_COLS <= SinceRefresh(k) < start
    {
      Spacing(start, DRAM_WORDS - 1);
      forall k | 0 <= k < DRAM_WORDS
        ensures LastInRow(k) < DRAM_WORDS && start - DRAM_NUM_COLS <= SinceRefresh(k) < start
      {
        Spacing(start, k);
      }
    }
  }
}
