/**
 32-bit machine words as their bits, least significant first, with the C operators
 the bridge applies to them.
 */
module BitWords {

  type Bits = seq<bool>
  type Word = w: Bits | |w| == 32 witness seq(32, _ => false)

  function Zeros(n: nat): (z: Bits)
    ensures |z| == n
  {
    seq(n, _ => false)
  }

  function Ones(n: nat): (o: Bits)
    ensures |o| == n
  {
    seq(n, _ => true)
  }

  const ZERO: Word := Zeros(32)
  const ALL_ONES: Word := Ones(32)

  /** The four bits of a hexadecimal digit. */
  function Nibble(d: nat): (b: Bits)
    ensures |b| == 4
  {
    [d % 2 == 1, d / 2 % 2 == 1, d / 4 % 2 == 1, d / 8 % 2 == 1]
  }

  function And(a: Word, b: Word): Word {
    seq(32, i requires 0 <= i < 32 => a[i] && b[i])
  }

  function Or(a: Word, b: Word): Word {
    seq(32, i requires 0 <= i < 32 => a[i] || b[i])
  }

  function Not(a: Word): Word {
    seq(32, i requires 0 <= i < 32 => !a[i])
  }

  function XorBits(a: Bits, b: Bits): (x: Bits)
    requires |a| == |b|
    ensures |x| == |a|
  {
    seq(|a|, i requires 0 <= i < |a| => a[i] != b[i])
  }

  function Shl(a: Word, n: nat): Word {
    seq(32, i requires 0 <= i < 32 => i >= n && a[i - n])
  }

  function Shr(a: Word, n: nat): Word {
    seq(32, i requires 0 <= i < 32 => i + n < 32 && a[i + n])
  }

  /** Right shift of a signed int: the sign bit fills in from the top. */
  function Sar(a: Word, n: nat): Word {
    seq(32, i requires 0 <= i < 32 => if i + n < 32 then a[i + n] else a[31])
  }

  /** The first `n` bits of an array of words, in the order the cable shifts them. */
  function StreamBits(words: seq<Word>, n: nat): (b: Bits)
    requires n <= 32 * |words|
    ensures |b| == n
  {
    seq(n, i requires 0 <= i < n => words[i / 32][i % 32])
  }

  // ---------- Bit strings in series ----------

  /** Bit strings one after the other. */
  function Flat(stages: seq<Bits>): Bits {
    if stages == [] then [] else stages[0] + Flat(stages[1..])
  }

  predicate SameLengths(a: seq<Bits>, b: seq<Bits>) {
    |a| == |b| && forall i :: 0 <= i < |a| ==> |a[i]| == |b[i]|
  }

  /** Registers of given lengths are determined by the bits in series. */
  lemma {:induction false} FlatInjective(a: seq<Bits>, b: seq<Bits>)
    requires SameLengths(a, b) && Flat(a) == Flat(b)
    ensures a == b
    decreases |a|
  {
    if a != [] {
      assert a[0] == Flat(a)[..|a[0]|] && b[0] == Flat(b)[..|b[0]|];
      assert Flat(a[1..]) == Flat(a)[|a[0]|..] && Flat(b[1..]) == Flat(b)[|b[0]|..];
      FlatInjective(a[1..], b[1..]);
      assert a == [a[0]] + a[1..] && b == [b[0]] + b[1..];
    }
  }

  lemma {:induction false} FlatAppend(a: seq<Bits>, b: seq<Bits>)
    ensures Flat(a + b) == Flat(a) + Flat(b)
    decreases |a|
  {
    if a == [] {
      assert a + b == b;
    } else {
      assert (a + b)[1..] == a[1..] + b;
      FlatAppend(a[1..], b);
    }
  }

  // ---------- Numbers ----------

  function Pow2(n: nat): (p: nat)
    ensures p >= 1
  {
    if n == 0 then 1 else 2 * Pow2(n - 1)
  }

  lemma Pow2Values()
    ensures Pow2(8) == 0x100 && Pow2(16) == 0x1_0000 && Pow2(32) == 0x1_0000_0000
  {
    assert Pow2(8) == 0x100 by { assert Pow2(4) == 0x10; }
    Pow2Add(8, 8);
    Pow2Add(16, 16);
  }

  lemma {:induction false} Pow2Add(m: nat, n: nat)
    ensures Pow2(m + n) == Pow2(m) * Pow2(n)
  {
    if m > 0 {
      Pow2Add(m - 1, n);
    }
  }

  /** The low `n` bits of a number. */
  function NatBits(v: nat, n: nat): (b: Bits)
    ensures |b| == n
  {
    if n == 0 then [] else [v % 2 == 1] + NatBits(v / 2, n - 1)
  }

  /** The unsigned number a bit string denotes. */
  function ToNat(b: Bits): nat {
    if b == [] then 0 else (if b[0] then 1 else 0) + 2 * ToNat(b[1..])
  }

  lemma {:induction false} NumberRoundTrip(v: nat, n: nat)
    requires v < Pow2(n)
    ensures ToNat(NatBits(v, n)) == v
  {
    if n > 0 {
      NumberRoundTrip(v / 2, n - 1);
    }
  }

  /** A number that fits `m` bits has zeros above them. */
  lemma {:induction false} FewBits(v: nat, m: nat, n: nat)
    requires v < Pow2(m) && m <= n
    ensures NatBits(v, n) == NatBits(v, m) + Zeros(n - m)
  {
    if m > 0 {
      FewBits(v / 2, m - 1, n - 1);
    } else if n > 0 {
      FewBits(0, 0, n - 1);
    }
  }
}
