/**
 The 32-bit CRC that protects burst transfers of the advanced debug unit, and what the
 comparison of a computed with a received CRC detects.
 */
module Crc32 {
  import opened BitWords

  /** 0xedb88320, least significant hexadecimal digit first. */
  const POLY: Word :=
    Nibble(0x0) + Nibble(0x2) + Nibble(0x3) + Nibble(0x8) + Nibble(0x8) + Nibble(0xb) + Nibble(0xd) + Nibble(0xe)

  lemma PolynomialTop()
    ensures POLY[31]
  {
    assert Nibble(0xe)[3];
  }

  /** One bit into the register: shift right; feed the polynomial back when the bit differs from the LSB. */
  function Step(crc: Word, bit: bool): Word {
    seq(32, i requires 0 <= i < 32 => (i < 31 && crc[i + 1]) != (bit != crc[0] && POLY[i]))
  }

  /** The register after a whole bit string. */
  function Feed(crc: Word, bits: Bits): Word
    decreases |bits|
  {
    if bits == [] then crc else Feed(Step(crc, bits[0]), bits[1..])
  }

  // ---------- The unit's register ----------

  /** Where the CRC register of the debug unit feeds data and its lowest bit back. */
  const TAPS: set<nat> := {5, 8, 9, 15, 19, 20, 21, 23, 24, 26, 27, 29, 30, 31}

  /** One clock of that register: every bit takes the next one, combined with the feedback at the taps. */
  function UnitClock(crc: Word, data: bool): Word {
    seq(32, i requires 0 <= i < 32 => (i < 31 && crc[i + 1]) != (i in TAPS && data != crc[0]))
  }

  function UnitClocks(crc: Word, data: Bits): Word
    decreases |data|
  {
    if data == [] then crc else UnitClocks(UnitClock(crc, data[0]), data[1..])
  }

  /** The CRC that the unit computes, from a register of ones. */
  function UnitCrc(data: Bits): Word {
    UnitClocks(ALL_ONES, data)
  }

  lemma PolynomialTaps()
    ensures forall i :: 0 <= i < 32 ==> (POLY[i] <==> i in TAPS)
  {
    hide Nibble;
    NibbleIs(0x0, false, false, false, false);
    NibbleIs(0x2, false, true, false, false);
    NibbleIs(0x3, true, true, false, false);
    NibbleIs(0x8, false, false, false, true);
    NibbleIs(0xb, true, true, false, true);
    NibbleIs(0xd, true, false, true, true);
    NibbleIs(0xe, false, true, true, true);
  }

  lemma NibbleIs(d: nat, b0: bool, b1: bool, b2: bool, b3: bool)
    requires d == (if b0 then 1 else 0) + (if b1 then 2 else 0) + (if b2 then 4 else 0) + (if b3 then 8 else 0)
    ensures Nibble(d) == [b0, b1, b2, b3]
  {
  }

  /** The bridge's step is one clock of the unit's register. */
  lemma StepIsClock(crc: Word, bit: bool)
    ensures Step(crc, bit) == UnitClock(crc, bit)
  {
    hide TAPS, POLY;
    PolynomialTaps();
  }

  /** So the bridge computes over any bits what the unit computes over them. */
  lemma {:induction false} FeedIsClocks(crc: Word, bits: Bits)
    ensures Feed(crc, bits) == UnitClocks(crc, bits)
    decreases |bits|
  {
    if bits != [] {
      StepIsClock(crc, bits[0]);
      FeedIsClocks(Step(crc, bits[0]), bits[1..]);
    }
  }

  /** What the unit's register gives out when it is shifted: its lowest bit, again and again. */
  function ShiftedOut(crc: Word, n: nat): (out: Bits)
    ensures |out| == n
    decreases n
  {
    if n == 0 then [] else [crc[0]] + ShiftedOut(Shr(crc, 1), n - 1)
  }

  lemma {:induction false} ShiftedOutBits(crc: Word, n: nat)
    requires n <= 32
    ensures ShiftedOut(crc, n) == crc[..n]
    decreases n
  {
    if n > 0 {
      ShiftedOutBits(Shr(crc, 1), n - 1);
      assert crc[..n] == [crc[0]] + crc[1..n];
      assert crc[1..n] == Shr(crc, 1)[..n - 1];
    }
  }

  // ---------- The bridge's register ----------

  /** Adds the low `length` bits of a data word to the register. */
  method ComputeCrc(crcIn: Word, dataIn: Word, length: nat) returns (crcOut: Word)
    requires length <= 32
    ensures crcOut == Feed(crcIn, dataIn[..length]) == UnitClocks(crcIn, dataIn[..length])
  {
    crcOut := crcIn;
    for i := 0 to length
      invariant crcOut == Feed(crcIn, dataIn[..i])
    {
      ghost var before := crcOut;
      var d := if Shr(dataIn, i)[0] then ALL_ONES else ZERO;
      var c := if crcOut[0] then ALL_ONES else ZERO;
      crcOut := Shr(crcOut, 1);
      crcOut := XorBits(crcOut, And(XorBits(d, c), POLY));
      assert crcOut == Step(before, dataIn[i]);
      assert dataIn[..i + 1] == dataIn[..i] + [dataIn[i]];
      FeedConcat(crcIn, dataIn[..i], [dataIn[i]]);
    }
    FeedIsClocks(crcIn, dataIn[..length]);
  }

  lemma {:induction false} FeedConcat(crc: Word, a: Bits, b: Bits)
    ensures Feed(crc, a + b) == Feed(Feed(crc, a), b)
    decreases |a|
  {
    if a == [] {
      assert a + b == b;
    } else {
      assert (a + b)[1..] == a[1..] + b;
      FeedConcat(Step(crc, a[0]), a[1..], b);
    }
  }

  /** The CRC is linear over exclusive or, in the register and in the data. */
  lemma {:induction false} FeedLinear(a: Word, b: Word, x: Bits, y: Bits)
    requires |x| == |y|
    ensures Feed(XorBits(a, b), XorBits(x, y)) == XorBits(Feed(a, x), Feed(b, y))
    decreases |x|
  {
    if x != [] {
      assert Step(XorBits(a, b), x[0] != y[0]) == XorBits(Step(a, x[0]), Step(b, y[0]));
      assert XorBits(x, y)[1..] == XorBits(x[1..], y[1..]);
      FeedLinear(Step(a, x[0]), Step(b, y[0]), x[1..], y[1..]);
    }
  }

  /** Zero bits neither create nor hide a difference. */
  lemma {:induction false} ZerosKeepDifference(crc: Word, n: nat)
    ensures crc == ZERO <==> Feed(crc, Zeros(n)) == ZERO
    decreases n
  {
    if n > 0 {
      assert Zeros(n)[1..] == Zeros(n - 1);
      var next := Step(crc, false);
      PolynomialTop();
      if next == ZERO {
        assert !next[31] && !crc[0];
        forall i | 0 < i < 32 ensures !crc[i] { assert !next[i - 1]; }
      }
      if crc == ZERO { assert next == ZERO; }
      ZerosKeepDifference(next, n - 1);
    }
  }

  /** Feeding the register its own bits empties it. */
  lemma OwnBitsCancel(crc: Word)
    ensures Feed(crc, crc) == ZERO
  {
    OwnBitsShift(crc, crc, 32);
  }

  lemma {:induction false} OwnBitsShift(all: Word, crc: Word, n: nat)
    requires n <= 32 && crc == Shr(all, 32 - n)
    ensures Feed(crc, all[32 - n..]) == ZERO
    decreases n
  {
    if n > 0 {
      assert all[32 - n..][0] == crc[0] && all[32 - n..][1..] == all[32 - (n - 1)..];
      assert Step(crc, crc[0]) == Shr(all, 32 - (n - 1));
      OwnBitsShift(all, Step(crc, crc[0]), n - 1);
    } else {
      assert crc == ZERO;
    }
  }

  /** A register with one of its top `k + 1` bits set survives 31 - k further bits. */
  lemma {:induction false} TopBitsSurvive(crc: Word, k: nat, bits: Bits, i: nat)
    requires 31 <= i + k && i < 32 && crc[i]
    requires k + |bits| <= 31
    ensures Feed(crc, bits) != ZERO
    decreases |bits|
  {
    if bits != [] {
      var next := Step(crc, bits[0]);
      PolynomialTop();
      if bits[0] != crc[0] {
        assert next[31];
        TopBitsSurvive(next, k + 1, bits[1..], 31);
      } else {
        assert next[i - 1];
        TopBitsSurvive(next, k + 1, bits[1..], i - 1);
      }
    }
  }

  /** All differing positions lie within 32 consecutive ones that start at `at`. */
  ghost predicate BurstAt(error: Bits, at: nat) {
    forall i :: 0 <= i < |error| && error[i] ==> at <= i < at + 32
  }

  /** An error pattern that starts with a set bit and is at most 32 bits long does not vanish. */
  lemma ShortErrorRemains(error: Bits)
    requires 0 < |error| <= 32 && error[0]
    ensures Feed(ZERO, error) != ZERO
  {
    var first := Step(ZERO, true);
    PolynomialTop();
    assert first[31];
    TopBitsSurvive(first, 0, error[1..], 31);
  }

  lemma BurstRemains(error: Bits, at: nat, first: nat)
    requires BurstAt(error, at)
    requires first < |error| && error[first] && forall i :: 0 <= i < first ==> !error[i]
    ensures Feed(ZERO, error) != ZERO
  {
    hide Feed, Step;
    var end := if first + 32 < |error| then first + 32 else |error|;
    var head, body, tail := error[..first], error[first..end], error[end..];
    assert head == Zeros(first);
    assert tail == Zeros(|error| - end);
    assert error == head + (body + tail);
    FeedConcat(ZERO, head, body + tail);
    FeedConcat(ZERO, body, tail);
    ZerosKeepDifference(ZERO, first);
    ShortErrorRemains(body);
    ZerosKeepDifference(Feed(ZERO, body), |error| - end);
  }

  /** What the receiver compares: the CRC it computed over the data with the CRC bits that followed. */
  predicate Accepts(data: Bits, crc: Word) {
    Feed(ALL_ONES, data) == crc
  }

  /** The comparison succeeds exactly when feeding data and CRC bits together leaves the register empty. */
  lemma AcceptsIffEmpty(start: Word, data: Bits, crc: Word)
    ensures Feed(start, data) == crc <==> Feed(start, data + crc) == ZERO
  {
    var computed := Feed(start, data);
    FeedConcat(start, data, crc);
    OwnBitsCancel(computed);
    if computed != crc {
      var error := XorBits(computed, crc);
      FeedLinear(computed, computed, computed, crc);
      assert XorBits(computed, computed) == ZERO;
      DifferenceShows(computed, crc);
      var first := FirstSet(error);
      assert BurstAt(error, first);
      BurstRemains(error, first, first);
      assert XorBits(Feed(computed, computed), Feed(computed, crc)) == Feed(computed, crc);
    }
  }

  lemma DifferenceShows(a: Bits, b: Bits)
    requires |a| == |b| && a != b
    ensures exists i :: 0 <= i < |a| && XorBits(a, b)[i]
  {
    var i :| 0 <= i < |a| && a[i] != b[i];
    assert XorBits(a, b)[i];
  }

  function FirstSet(error: Bits): (first: nat)
    requires exists i :: 0 <= i < |error| && error[i]
    ensures first < |error| && error[first]
    ensures forall i :: 0 <= i < first ==> !error[i]
  {
    if error[0] then 0 else
      assert exists i :: 0 <= i < |error[1..]| && error[1..][i] by {
        var i :| 0 <= i < |error| && error[i];
        assert error[1..][i - 1];
      }
      1 + FirstSet(error[1..])
  }

  /** A corrupted transfer is accepted exactly when its error pattern is a multiple of the polynomial. */
  lemma AcceptsIffErrorVanishes(data: Bits, crc: Word, data': Bits, crc': Word)
    requires |data'| == |data| && Accepts(data, crc)
    ensures Accepts(data', crc') <==> Feed(ZERO, XorBits(data + crc, data' + crc')) == ZERO
  {
    var sent, received := data + crc, data' + crc';
    AcceptsIffEmpty(ALL_ONES, data, crc);
    AcceptsIffEmpty(ALL_ONES, data', crc');
    FeedLinear(ALL_ONES, ALL_ONES, sent, received);
    assert XorBits(ALL_ONES, ALL_ONES) == ZERO;
    assert XorBits(ZERO, Feed(ALL_ONES, received)) == Feed(ALL_ONES, received);
  }

  /** Every error confined to 32 consecutive bits, the boundary between data and CRC included, is detected. */
  lemma BurstDetected(data: Bits, crc: Word, data': Bits, crc': Word, at: nat)
    requires |data'| == |data| && Accepts(data, crc)
    requires BurstAt(XorBits(data + crc, data' + crc'), at)
    ensures Accepts(data', crc') <==> data' == data && crc' == crc
  {
    var error := XorBits(data + crc, data' + crc');
    if data' + crc' != data + crc {
      DifferenceShows(data + crc, data' + crc');
      BurstRemains(error, at, FirstSet(error));
      AcceptsIffErrorVanishes(data, crc, data', crc');
    } else {
      assert data == (data + crc)[..|data|] && data' == (data' + crc')[..|data|];
      assert crc == (data + crc)[|data|..] && crc' == (data' + crc')[|data|..];
    }
  }

  /** The bound is tight: some 33-bit error slips through, whatever was sent. */
  lemma LongerBurstMissed(data: Bits, crc: Word) returns (crc': Word, data': Bits)
    requires |data| >= 1 && Accepts(data, crc)
    ensures |data'| == |data| && data' != data && Accepts(data', crc')
    ensures forall i :: 0 <= i < |data| - 1 ==> data'[i] == data[i]
  {
    var last := |data| - 1;
    data' := data[last := !data[last]];
    crc' := Feed(ALL_ONES, data');
    assert data'[last] != data[last];
  }
}
