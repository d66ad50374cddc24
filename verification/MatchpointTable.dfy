/** The hash table in which the RSP server keeps its matchpoints: chains of linked entries, by address. */
module MatchpointTable {

  const MP_HASH_SIZE := 1021

  datatype MpType = BpMemory | BpHardware | WpWrite | WpRead | WpAccess

  /** What identifies a matchpoint. */
  datatype Key = Key(mpType: MpType, addr: nat)

  class MpEntry {
    const mpType: MpType
    const addr: nat
    const instr: nat
    var next: MpEntry?

    constructor (mpType: MpType, addr: nat, instr: nat, next: MpEntry?)
      ensures this.mpType == mpType && this.addr == addr && this.instr == instr && this.next == next
    {
      this.mpType, this.addr, this.instr, this.next := mpType, addr, instr, next;
    }

    ghost function Id(): Key {
      Key(mpType, addr)
    }
  }

  ghost function At(links: seq<MpEntry>, i: nat): MpEntry? {
    if i < |links| then links[i] else null
  }

  /** The entries, linked in order from `head` to a final null; so there is no cycle. */
  ghost predicate Linked(head: MpEntry?, links: seq<MpEntry>)
    reads links
  {
    && head == At(links, 0)
    && forall i :: 0 <= i < |links| ==> links[i].next == At(links, i + 1)
  }

  /** No two entries have the same key. */
  ghost predicate DistinctKeys(links: seq<MpEntry>) {
    forall i, j :: 0 <= i < j < |links| ==> links[i].Id() != links[j].Id()
  }

  /** The map a chain represents. */
  ghost function Contents(links: seq<MpEntry>): map<Key, nat> {
    if links == [] then map[] else Contents(links[1..])[links[0].Id() := links[0].instr]
  }

  lemma {:induction false} ContentsKeys(links: seq<MpEntry>, k: Key)
    ensures k in Contents(links) <==> exists i :: 0 <= i < |links| && links[i].Id() == k
  {
    if links != [] {
      ContentsKeys(links[1..], k);
      if i :| 0 <= i < |links| && links[i].Id() == k {
        if i > 0 { assert links[1..][i - 1].Id() == k; }
      }
      if i :| 0 <= i < |links[1..]| && links[1..][i].Id() == k {
        assert links[i + 1].Id() == k;
      }
    }
  }

  lemma {:induction false} ContentsAt(links: seq<MpEntry>, i: nat)
    requires DistinctKeys(links) && i < |links|
    ensures links[i].Id() in Contents(links) && Contents(links)[links[i].Id()] == links[i].instr
  {
    if i > 0 {
      ContentsAt(links[1..], i - 1);
    }
  }

  /** The entries without the one at `at`. */
  ghost function Without(links: seq<MpEntry>, at: nat): (r: seq<MpEntry>)
    requires at < |links|
    ensures |r| == |links| - 1
    ensures forall i :: 0 <= i < |r| ==> r[i] == links[if i < at then i else i + 1]
  {
    links[..at] + links[at + 1..]
  }

  lemma WithoutStays(links: seq<MpEntry>, at: nat, slot: nat)
    requires DistinctKeys(links) && InSlot(links, slot) && at < |links|
    ensures DistinctKeys(Without(links, at)) && InSlot(Without(links, at), slot)
  {
    var shorter := Without(links, at);
    forall e | e in shorter ensures e in links {
      var i :| 0 <= i < |shorter| && shorter[i] == e;
      assert links[if i < at then i else i + 1] == e;
    }
    forall i, j | 0 <= i < j < |shorter| ensures shorter[i].Id() != shorter[j].Id() {
      var i', j' := if i < at then i else i + 1, if j < at then j else j + 1;
      assert links[i'].Id() != links[j'].Id();
    }
  }

  lemma {:induction false} ContentsWithout(links: seq<MpEntry>, at: nat)
    requires DistinctKeys(links) && at < |links|
    ensures Contents(Without(links, at)) == Contents(links) - {links[at].Id()}
  {
    var first, rest := links[0], links[1..];
    if at == 0 {
      assert Without(links, 0) == rest;
      ContentsKeys(rest, first.Id());
      assert forall i :: 0 <= i < |rest| ==> rest[i] == links[i + 1];
    } else {
      ContentsWithout(rest, at - 1);
      assert Without(links, at)[0] == first;
      assert Without(links, at)[1..] == Without(rest, at - 1);
      assert first.Id() != links[at].Id();
    }
  }

  /** Bypassing the entry at `at` leaves the chain without it. */
  lemma Spliced(links: seq<MpEntry>, at: nat)
    requires at < |links|
    requires forall i :: 0 <= i < |links| && i + 1 != at ==> links[i].next == At(links, i + 1)
    requires at > 0 ==> links[at - 1].next == At(links, at + 1)
    ensures Linked(if at == 0 then At(links, 1) else links[0], Without(links, at))
  {
    var shorter := Without(links, at);
    forall i | 0 <= i < |shorter| ensures shorter[i].next == At(shorter, i + 1) {
      assert shorter[i] == links[if i < at then i else i + 1];
    }
  }

  lemma DistinctEntries(links: seq<MpEntry>, at: nat)
    requires DistinctKeys(links) && at < |links|
    ensures forall i :: 0 <= i < |links| && i != at ==> links[i] != links[at]
  {
    forall i | 0 <= i < |links| && i != at ensures links[i] != links[at] {
      assert i < at ==> links[i].Id() != links[at].Id();
      assert at < i ==> links[at].Id() != links[i].Id();
    }
  }

  /** One slot of the table: a head pointer and the chain that hangs from it. */
  class Chain {
    const slot: nat
    var head: MpEntry?
    ghost var links: seq<MpEntry>

    ghost function Nodes(): set<MpEntry>
      reads this
    {
      set e | e in links
    }

    ghost predicate Valid()
      reads this, Nodes()
    {
      Linked(head, links) && DistinctKeys(links) && InSlot(links, slot)
    }

    constructor (slot: nat)
      ensures Valid() && links == [] && this.slot == slot
    {
      this.slot := slot;
      head, links := null, [];
    }

    /** Finds the entry with this key, and the one before it. */
    method Find(mpType: MpType, addr: nat) returns (prev: MpEntry?, curr: MpEntry?, ghost at: nat)
      requires Valid()
      ensures at <= |links| && curr == At(links, at) && prev == if at > 0 then At(links, at - 1) else null
      ensures curr != null <==> Key(mpType, addr) in Contents(links)
      ensures curr != null ==> curr.Id() == Key(mpType, addr) && curr.instr == Contents(links)[curr.Id()]
    {
      at, prev, curr := 0, null, head;
      while curr != null
        invariant at <= |links| && Linked(head, links)
        invariant curr == At(links, at) && prev == if at > 0 then At(links, at - 1) else null
        invariant forall j :: 0 <= j < at ==> links[j].Id() != Key(mpType, addr)
        decreases |links| - at
      {
        if mpType == curr.mpType && addr == curr.addr {
          ContentsAt(links, at);
          return;
        }
        assert links[at].next == At(links, at + 1);
        prev, curr, at := curr, curr.next, at + 1;
      }
      ContentsKeys(links, Key(mpType, addr));
    }

    /** Adds an entry; an entry that is already there stays as it is. */
    method Add(mpType: MpType, addr: nat, instr: nat)
      requires Valid() && addr % MP_HASH_SIZE == slot
      modifies this
      ensures Valid()
      ensures forall e :: e in Nodes() ==> e in old(Nodes()) || fresh(e)
      ensures var key := Key(mpType, addr);
              Contents(links) == (if key in old(Contents(links)) then old(Contents(links))
                                  else old(Contents(links))[key := instr])
    {
      var prev, curr, at := Find(mpType, addr);
      if curr != null {
        return;
      }
      curr := new MpEntry(mpType, addr, instr, head);
      forall i | 0 <= i < |links| ensures links[i].Id() != curr.Id() {
        ContentsAt(links, i);
      }
      head, links := curr, [curr] + links;
      assert forall i :: 0 < i < |links| ==> links[i] == old(links)[i - 1];
    }

    /** Unlinks the entry with this key, if there is one, and returns it. */
    method Delete(mpType: MpType, addr: nat) returns (entry: MpEntry?)
      requires Valid()
      modifies this, links
      ensures Valid() && Contents(links) == old(Contents(links)) - {Key(mpType, addr)} && Nodes() <= old(Nodes())
      ensures entry == null <==> Key(mpType, addr) !in old(Contents(links))
      ensures entry != null ==> entry.Id() == Key(mpType, addr) && entry.instr == old(Contents(links))[entry.Id()]
    {
      var prev, curr, at := Find(mpType, addr);
      entry := curr;
      if curr == null {
        return;
      }
      ContentsWithout(links, at);
      Unlink(prev, curr, at);
    }

    /** Makes whatever pointed to the entry point past it. */
    method Unlink(prev: MpEntry?, curr: MpEntry, ghost at: nat)
      requires Valid() && at < |links| && curr == links[at]
      requires prev == if at > 0 then At(links, at - 1) else null
      modifies this, links
      ensures Valid() && links == Without(old(links), at)
    {
      WithoutStays(links, at, slot);
      if prev == null {
        head := curr.next;
      } else {
        DistinctEntries(links, at - 1);
        prev.next := curr.next;
      }
      Spliced(links, at);
      links := Without(links, at);
    }
  }

  /** Every entry hashes to the slot it hangs from. */
  ghost predicate InSlot(links: seq<MpEntry>, slot: nat) {
    forall e :: e in links ==> e.addr % MP_HASH_SIZE == slot
  }

  type Entries = map<Key, nat>

  /** Adds an entry; an entry that is already there stays as it is. */
  function Added(entries: Entries, key: Key, instr: nat): Entries {
    if key in entries then entries else entries[key := instr]
  }

  /** The table: 1021 chains, which together represent one finite map. */
  class Table {
    const slots: seq<Chain>
    ghost var entries: Entries

    /** All the entries. */
    ghost function Nodes(): set<MpEntry>
      reads slots
    {
      set s, e | s in slots && e in s.Nodes() :: e
    }

    ghost predicate ChainsValid()
      reads slots, Nodes()
    {
      && |slots| == MP_HASH_SIZE
      && (forall h :: 0 <= h < MP_HASH_SIZE ==> slots[h].slot == h)
      && forall s :: s in slots ==> s.Valid()
    }

    ghost predicate Valid()
      reads this, slots, Nodes()
    {
      ChainsValid() && forall k: Key :: Agree(k)
    }

    /** The entry for a key is the one in its own chain. */
    ghost predicate Agree(k: Key)
      requires |slots| == MP_HASH_SIZE
      reads this, slots
    {
      var part := Contents(slots[k.addr % MP_HASH_SIZE].links);
      (k in part <==> k in entries) && (k in part ==> part[k] == entries[k])
    }

    constructor ()
      ensures Valid() && entries == map[] && forall s :: s in slots ==> fresh(s)
    {
      var made: seq<Chain> := [];
      for i := 0 to MP_HASH_SIZE
        invariant |made| == i
        invariant forall h :: 0 <= h < i ==>
          fresh(made[h]) && made[h].Valid() && made[h].slot == h && made[h].links == []
      {
        var chain := new Chain(i);
        made := made + [chain];
      }
      slots, entries := made, map[];
    }

    /** Clears all the links. */
    method Init()
      requires Valid()
      modifies this`entries, slots
      ensures Valid() && entries == map[]
    {
      for i := 0 to MP_HASH_SIZE
        invariant entries == old(entries)
        invariant forall h :: 0 <= h < i ==> slots[h].head == null && slots[h].links == []
      {
        slots[i].head := null;
        slots[i].links := [];
      }
      entries := map[];
    }

    /** Adds to one chain; the others share no entry with it. */
    method AddTo(hv: nat, mpType: MpType, addr: nat, instr: nat)
      requires ChainsValid() && hv == addr % MP_HASH_SIZE
      modifies slots[hv]
      ensures ChainsValid()
      ensures var key, part := Key(mpType, addr), old(Contents(slots[hv].links));
              Contents(slots[hv].links) == if key in part then part else part[key := instr]
      ensures forall h :: 0 <= h < MP_HASH_SIZE && h != hv ==> slots[h].links == old(slots[h].links)
      ensures forall e :: e in Nodes() ==> e in old(Nodes()) || fresh(e)
    {
      slots[hv].Add(mpType, addr, instr);
    }

    method Add(mpType: MpType, addr: nat, instr: nat)
      requires Valid()
      modifies this`entries, slots[addr % MP_HASH_SIZE]
      ensures Valid() && entries == Added(old(entries), Key(mpType, addr), instr)
      ensures forall e :: e in Nodes() ==> e in old(Nodes()) || fresh(e)
    {
      hide Table.Nodes;
      var hv := addr % MP_HASH_SIZE;
      AddTo(hv, mpType, addr, instr);
      entries := Added(entries, Key(mpType, addr), instr);
      forall k: Key ensures Agree(k) {
        assert old(Agree(k)) && old(Agree(Key(mpType, addr)));
      }
    }

    method Lookup(mpType: MpType, addr: nat) returns (entry: MpEntry?)
      requires Valid()
      ensures entry != null <==> Key(mpType, addr) in entries
      ensures entry != null ==> entry.Id() == Key(mpType, addr) && entry.instr == entries[entry.Id()]
    {
      var hv := addr % MP_HASH_SIZE;
      assert Agree(Key(mpType, addr));
      var prev, curr, at := slots[hv].Find(mpType, addr);
      entry := curr;
    }

    /** Deletes from one chain; the others share no entry with it. */
    method DeleteFrom(hv: nat, mpType: MpType, addr: nat) returns (entry: MpEntry?)
      requires ChainsValid() && hv < MP_HASH_SIZE
      modifies slots[hv], slots[hv].links
      ensures ChainsValid() && Contents(slots[hv].links) == old(Contents(slots[hv].links)) - {Key(mpType, addr)}
      ensures forall h :: 0 <= h < MP_HASH_SIZE && h != hv ==> slots[h].links == old(slots[h].links)
      ensures Nodes() <= old(Nodes())
      ensures entry == null <==> Key(mpType, addr) !in old(Contents(slots[hv].links))
      ensures entry != null ==>
        entry.Id() == Key(mpType, addr) && entry.instr == old(Contents(slots[hv].links))[entry.Id()]
    {
      Disjoint(this, hv);
      entry := slots[hv].Delete(mpType, addr);
    }

    /** Unlinks the entry with this key, if there is one, and returns it. */
    method Delete(mpType: MpType, addr: nat) returns (entry: MpEntry?)
      requires Valid()
      modifies this`entries, slots[addr % MP_HASH_SIZE], slots[addr % MP_HASH_SIZE].links
      ensures Valid() && entries == old(entries) - {Key(mpType, addr)} && Nodes() <= old(Nodes())
      ensures entry != null <==> Key(mpType, addr) in old(entries)
      ensures entry != null ==> entry.Id() == Key(mpType, addr) && entry.instr == old(entries)[entry.Id()]
    {
      var hv := addr % MP_HASH_SIZE;
      assert Agree(Key(mpType, addr));
      entry := DeleteFrom(hv, mpType, addr);
      entries := entries - {Key(mpType, addr)};
      forall k: Key ensures Agree(k) {
        assert old(Agree(k));
      }
    }
  }

  /** No entry hangs from two chains. */
  lemma Disjoint(t: Table, g: nat)
    requires t.ChainsValid() && g < MP_HASH_SIZE
    ensures forall s :: s in t.slots && s != t.slots[g] ==> s.Nodes() !! t.slots[g].Nodes()
  {
    var chain := t.slots[g];
    assert chain.Valid() && chain.slot == g;
    forall s | s in t.slots && s != chain ensures s.Nodes() !! chain.Nodes() {
      var h :| 0 <= h < MP_HASH_SIZE && t.slots[h] == s;
      assert s.Valid() && s.slot == h != g;
      forall e | e in s.Nodes() ensures e !in chain.Nodes() {
        assert e in s.links && e.addr % MP_HASH_SIZE == h;
      }
    }
  }
}
