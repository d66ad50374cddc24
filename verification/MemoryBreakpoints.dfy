/** Memory breakpoints: traps patched into target memory, with the words they replaced kept in the table. */
module MemoryBreakpoints {

  /** The trap instruction of the OpenRISC 1000. */
  const TRAP_INSTR := 0x2100_0001

  /** The breakpoint addresses, with the word that was there before. */
  type Breakpoints = imap<nat, nat>

  /** The bus ignores the two low bits of an address. */
  function WordOf(addr: nat): nat {
    addr / 4
  }

  ghost predicate Occupied(bps: Breakpoints, w: nat) {
    exists a: nat :: a in bps && WordOf(a) == w
  }

  /** Another address in the same word has a breakpoint. */
  ghost predicate SharesWord(bps: Breakpoints, addr: nat) {
    exists a: nat :: a in bps && a != addr && WordOf(a) == WordOf(addr)
  }

  /** Every breakpoint has its trap in memory and remembers the original word; the rest of memory is untouched. */
  ghost predicate Transparent(bps: Breakpoints, memory: nat -> nat, original: nat -> nat) {
    && (forall a: nat :: a in bps ==> memory(WordOf(a)) == TRAP_INSTR && bps[a] == original(WordOf(a)))
    && forall w: nat :: !Occupied(bps, w) ==> memory(w) == original(w)
  }

  /** Writes one word of memory. */
  function Store(memory: nat -> nat, word: nat, value: nat): nat -> nat {
    a => if a == word then value else memory(a)
  }

  /** What inserting and removing a breakpoint do to the breakpoints and to memory. */
  ghost function Inserted(bps: Breakpoints, memory: nat -> nat, addr: nat): (Breakpoints, nat -> nat) {
    (if addr in bps then bps else bps[addr := memory(WordOf(addr))], Store(memory, WordOf(addr), TRAP_INSTR))
  }

  ghost function WithoutBreakpoint(bps: Breakpoints, addr: nat): Breakpoints {
    imap a | a in bps && a != addr :: bps[a]
  }

  ghost function Removed(bps: Breakpoints, memory: nat -> nat, addr: nat): (Breakpoints, nat -> nat) {
    (WithoutBreakpoint(bps, addr),
     if addr in bps then Store(memory, WordOf(addr), bps[addr]) else memory)
  }

  /** Inserting keeps breakpoints transparent exactly when it does not put a second one into a word. */
  lemma InsertTransparent(bps: Breakpoints, memory: nat -> nat, original: nat -> nat, addr: nat)
    requires Transparent(bps, memory, original)
    ensures var (bps', memory') := Inserted(bps, memory, addr);
            (Transparent(bps', memory', original)
             <==> addr in bps || !SharesWord(bps, addr) || original(WordOf(addr)) == TRAP_INSTR)
  {
    var (bps', memory') := Inserted(bps, memory, addr);
    var w := WordOf(addr);
    assert addr in bps' && memory'(w) == TRAP_INSTR;
    forall v: nat | !Occupied(bps', v) ensures memory'(v) == original(v) {
      assert v != w;
      assert !Occupied(bps, v);
    }
    if addr !in bps && SharesWord(bps, addr) {
      assert bps'[addr] == TRAP_INSTR;
    } else if addr !in bps {
      assert !Occupied(bps, w);
    }
  }

  /** Removing keeps breakpoints transparent exactly when the word has no other one. */
  lemma RemoveTransparent(bps: Breakpoints, memory: nat -> nat, original: nat -> nat, addr: nat)
    requires Transparent(bps, memory, original)
    ensures var (bps', memory') := Removed(bps, memory, addr);
            (Transparent(bps', memory', original)
             <==> addr !in bps || !SharesWord(bps, addr) || original(WordOf(addr)) == TRAP_INSTR)
  {
    var (bps', memory') := Removed(bps, memory, addr);
    var w := WordOf(addr);
    if addr in bps && SharesWord(bps, addr) {
      var a: nat :| a in bps && a != addr && WordOf(a) == w;
      assert a in bps' && memory'(w) == original(w);
    }
    forall v: nat | !Occupied(bps', v) ensures memory'(v) == original(v) {
      if Occupied(bps, v) {
        var a: nat :| a in bps && WordOf(a) == v;
        assert a == addr;
      }
    }
  }

  /** When the last breakpoint is gone, memory is exactly what it was. */
  lemma AllRemoved(bps: Breakpoints, memory: nat -> nat, original: nat -> nat, w: nat)
    requires Transparent(bps, memory, original) && forall a: nat :: a !in bps
    ensures memory(w) == original(w)
  {
    assert !Occupied(bps, w);
  }

  datatype Packet = Insert(addr: nat) | Remove(addr: nat)

  ghost function Perform(bps: Breakpoints, memory: nat -> nat, packets: seq<Packet>): (Breakpoints, nat -> nat)
    decreases |packets|
  {
    if packets == [] then (bps, memory)
    else
      var (b, m) := match packets[0]
                    case Insert(addr) => Inserted(bps, memory, addr)
                    case Remove(addr) => Removed(bps, memory, addr);
      Perform(b, m, packets[1..])
  }

  ghost predicate Aligned(bps: Breakpoints) {
    forall a: nat :: a in bps ==> a % 4 == 0
  }

  /**
   Over any run of packets for aligned addresses, in any order and with any duplicates, breakpoints
   are transparent.
   */
  lemma {:induction false} RunTransparent(bps: Breakpoints, memory: nat -> nat, original: nat -> nat,
                                          packets: seq<Packet>)
    requires Transparent(bps, memory, original) && Aligned(bps)
    requires forall p :: p in packets ==> p.addr % 4 == 0
    ensures var (b, m) := Perform(bps, memory, packets);
            Transparent(b, m, original) && Aligned(b)
    decreases |packets|
  {
    if packets != [] {
      var addr := packets[0].addr;
      assert packets[0] in packets;
      assert !SharesWord(bps, addr);
      InsertTransparent(bps, memory, original, addr);
      RemoveTransparent(bps, memory, original, addr);
      var (b, m) := match packets[0]
                    case Insert(addr) => Inserted(bps, memory, addr)
                    case Remove(addr) => Removed(bps, memory, addr);
      RunTransparent(b, m, original, packets[1..]);
    }
  }

  /** Without alignment a run can lose an instruction: two breakpoints in one word, removed in the order inserted. */
  lemma UnalignedLosesWord(original: nat -> nat)
    requires original(0) != TRAP_INSTR
    ensures var (b, m) := Perform(imap[], original, [Insert(0), Insert(2), Remove(0), Remove(2)]);
            (forall a: nat :: a !in b) && m(0) == TRAP_INSTR
  {
    var packets := [Insert(0), Insert(2), Remove(0), Remove(2)];
    var (b1, m1) := Inserted(imap[], original, 0);
    var (b2, m2) := Inserted(b1, m1, 2);
    var (b3, m3) := Removed(b2, m2, 0);
    var (b4, m4) := Removed(b3, m3, 2);
    assert packets[1..] == [Insert(2), Remove(0), Remove(2)];
    assert packets[1..][1..] == [Remove(0), Remove(2)];
    assert packets[1..][1..][1..] == [Remove(2)];
    assert Perform(b3, m3, [Remove(2)]) == Perform(b4, m4, []);
    assert Perform(b2, m2, [Remove(0), Remove(2)]) == (b4, m4);
    assert Perform(b1, m1, [Insert(2), Remove(0), Remove(2)]) == (b4, m4);
  }
}
