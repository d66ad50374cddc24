/** The RSP server's matchpoint packets, on the table, target memory, the watchpoint pool and the debug unit. */
module MatchpointServer {
  import opened BitWords
  import opened MatchpointTable
  import opened Watchpoints
  import B = MemoryBreakpoints

  /** What the server answers: "OK", or an empty packet when there is no watchpoint left. */
  datatype Reply = OK | Empty

  /** The memory breakpoints among the entries. */
  ghost function MemoryPart(entries: Entries): B.Breakpoints {
    imap a: nat | Key(BpMemory, a) in entries :: entries[Key(BpMemory, a)]
  }

  /** The hardware matchpoints among the entries, with the watchpoint each one holds. */
  ghost function HardwarePart(entries: Entries): Holders {
    imap k | k in entries && k.mpType != BpMemory :: entries[k]
  }

  lemma PartsAdded(entries: Entries, key: Key, instr: nat)
    ensures (HardwarePart(Added(entries, key, instr))
             == if key.mpType == BpMemory || key in entries then HardwarePart(entries)
                else HardwarePart(entries)[key := instr])
    ensures (MemoryPart(Added(entries, key, instr))
             == if key.mpType != BpMemory || key in entries then MemoryPart(entries)
                else MemoryPart(entries)[key.addr := instr])
  {
  }

  lemma PartsDeleted(entries: Entries, key: Key)
    ensures (HardwarePart(entries - {key})
             == if key.mpType == BpMemory || key !in entries then HardwarePart(entries)
                else WithoutHolder(HardwarePart(entries), key))
    ensures (MemoryPart(entries - {key})
             == if key.mpType != BpMemory then MemoryPart(entries)
                else B.WithoutBreakpoint(MemoryPart(entries), key.addr))
  {
  }

  class Server {
    const table: Table
    const pool: WatchpointPool
    var memory: nat -> nat
    var regs: DebugUnit

    ghost predicate Valid()
      reads this, pool.inUse, table, table.slots, table.Nodes()
    {
      table.Valid() && Watches().Valid()
    }

    /** The hardware side of the state. */
    ghost function Watches(): State
      reads this, pool.inUse, table
    {
      State(HardwarePart(table.entries), pool.inUse[..], regs)
    }

    /** The memory side of it. */
    ghost function Breakpoints(): B.Breakpoints
      reads table
    {
      MemoryPart(table.entries)
    }

    /** Starts with no matchpoints, and with the watchpoints that were not found present taken. */
    constructor (memory: nat -> nat, regs: DebugUnit, readings: seq<Reading>)
      requires regs.Valid() && |readings| == HWP_MAX_WP
      requires forall wp :: 0 <= wp < HWP_MAX_WP ==> readings[wp] == Failed || readings[wp] == Value(regs.dcr[wp])
      ensures Valid() && Breakpoints() == imap[] && this.memory == memory && this.regs == regs
      ensures Conserved(Watches(), set wp | 0 <= wp < HWP_MAX_WP && !readings[wp].Present(), {})
    {
      table := new Table();
      pool := new WatchpointPool(readings);
      this.memory, this.regs := memory, regs;
    }

    method InsertMemory(addr: nat) returns (reply: Reply)
      requires Valid()
      modifies this`memory, table`entries, table.slots[addr % MP_HASH_SIZE]
      ensures Valid() && reply == OK && Watches() == old(Watches())
      ensures forall e :: e in table.Nodes() ==> e in old(table.Nodes()) || fresh(e)
      ensures (Breakpoints(), memory) == B.Inserted(old(Breakpoints()), old(memory), addr)
      ensures memory(addr / 4) == 0x2100_0001
    {
      var instbuf := memory(B.WordOf(addr));
      PartsAdded(table.entries, Key(BpMemory, addr), instbuf);
      table.Add(BpMemory, addr, instbuf);
      memory := B.Store(memory, B.WordOf(addr), B.TRAP_INSTR);
      reply := OK;
    }

    /** Writes the registers of a watchpoint one by one. */
    method Program(mpType: MpType, addr: nat, hwp: nat)
      requires regs.Valid() && hwp < HWP_MAX_WP
      modifies this`regs
      ensures regs == Enabled(old(regs), hwp, Key(mpType, addr))
    {
      regs := regs.(dvr := regs.dvr[hwp := addr]);
      regs := regs.(dcr := regs.dcr[hwp := ControlCode(mpType)]);
      regs := regs.(dmr2 := Or(regs.dmr2, BitAt(12 + hwp)));
      regs := regs.(dmr1 := And(regs.dmr1, Not(Or(BitAt(2 * hwp), BitAt(2 * hwp + 1)))));
    }

    /** Disables a watchpoint and gives it back to the pool. */
    method Release(hwp: nat)
      requires table.Valid() && regs.Valid() && pool.Valid() && hwp < HWP_MAX_WP
      modifies this`regs, pool.inUse
      ensures table.Valid() && regs == Disabled(old(regs), hwp)
      ensures pool.inUse[..] == old(pool.inUse[..])[hwp := false]
    {
      regs := regs.(dmr2 := And(regs.dmr2, Not(BitAt(12 + hwp))));
      regs := regs.(dcr := regs.dcr[hwp := DCR_DISABLED]);
      pool.Return(hwp);
    }

    /** Programs a free watchpoint, if there is one. */
    method InsertHardware(mpType: MpType, addr: nat) returns (reply: Reply)
      requires Valid() && mpType != BpMemory
      modifies this`regs, pool.inUse, table`entries, table.slots[addr % MP_HASH_SIZE]
      ensures Valid() && Breakpoints() == old(Breakpoints())
      ensures forall e :: e in table.Nodes() ==> e in old(table.Nodes()) || fresh(e)
      ensures Watches() == Inserted(old(Watches()), Key(mpType, addr))
      ensures reply == Empty <==> FirstFree(old(Watches()).inUse) == -1
      ensures reply == OK ==> SetUp(regs, FirstFree(old(Watches()).inUse), Key(mpType, addr))
    {
      var hwp := pool.GetAvailable();
      if hwp == -1 {
        return Empty;
      }
      PartsAdded(table.entries, Key(mpType, addr), hwp);
      table.Add(mpType, addr, hwp);
      EnabledSetsUp(regs, hwp, Key(mpType, addr));
      Program(mpType, addr, hwp);
      reply := OK;
    }

    /** Puts the original instruction back, unless the breakpoint is gone already. */
    method RemoveMemory(addr: nat) returns (reply: Reply)
      requires Valid()
      modifies this`memory, table`entries, table.slots[addr % MP_HASH_SIZE], table.slots[addr % MP_HASH_SIZE].links
      ensures Valid() && reply == OK && Watches() == old(Watches()) && table.Nodes() <= old(table.Nodes())
      ensures Breakpoints() == B.Removed(old(Breakpoints()), old(memory), addr).0
      ensures memory == B.Removed(old(Breakpoints()), old(memory), addr).1
    {
      PartsDeleted(table.entries, Key(BpMemory, addr));
      var mpe := table.Delete(BpMemory, addr);
      if mpe != null {
        memory := B.Store(memory, B.WordOf(addr), mpe.instr);
      }
      reply := OK;
    }

    /** Disables the watchpoint and returns it; a matchpoint that does not exist is disabled already. */
    method RemoveHardware(mpType: MpType, addr: nat) returns (reply: Reply)
      requires Valid() && mpType != BpMemory
      modifies this`regs, pool.inUse, table`entries
      modifies table.slots[addr % MP_HASH_SIZE], table.slots[addr % MP_HASH_SIZE].links
      ensures Valid() && reply == OK && Breakpoints() == old(Breakpoints()) && table.Nodes() <= old(table.Nodes())
      ensures Watches() == Removed(old(Watches()), Key(mpType, addr))
    {
      PartsDeleted(table.entries, Key(mpType, addr));
      assert Key(mpType, addr) in table.entries ==> Key(mpType, addr) in Watches().held;
      var mpe := table.Delete(mpType, addr);
      if mpe != null {
        var hwp := mpe.instr;
        Release(hwp);
      }
      reply := OK;
    }

    /** Handles an insertion packet; exactly when memory stays recoverable, and when watchpoints are conserved. */
    method Insert(mpType: MpType, addr: nat, ghost original: nat -> nat, ghost absent: set<nat>, ghost client: set<nat>)
      returns (reply: Reply)
      requires Valid()
      modifies this, pool.inUse, table`entries, table.slots[addr % MP_HASH_SIZE]
      ensures Valid()
      ensures forall e :: e in table.Nodes() ==> e in old(table.Nodes()) || fresh(e)
      ensures (Breakpoints(), memory) == (if mpType == BpMemory then B.Inserted(old(Breakpoints()), old(memory), addr)
                                          else old((Breakpoints(), memory)))
      ensures (Watches() == if mpType == BpMemory then old(Watches())
                            else Inserted(old(Watches()), Key(mpType, addr)))
      ensures B.Transparent(old(Breakpoints()), old(memory), original) ==>
                (B.Transparent(Breakpoints(), memory, original)
                 <==> mpType != BpMemory || addr in old(Breakpoints()) || !B.SharesWord(old(Breakpoints()), addr)
                      || original(B.WordOf(addr)) == B.TRAP_INSTR)
      ensures Conserved(old(Watches()), absent, client) ==>
                (Conserved(Watches(), absent, client)
                 <==> reply == Empty || mpType == BpMemory || Key(mpType, addr) !in old(Watches()).held)
    {
      hide B.Transparent, Conserved, B.SharesWord;
      if mpType == BpMemory {
        if B.Transparent(Breakpoints(), memory, original) {
          B.InsertTransparent(Breakpoints(), memory, original, addr);
        }
        reply := InsertMemory(addr);
      } else {
        if Conserved(Watches(), absent, client) {
          InsertConserves(Watches(), absent, client, Key(mpType, addr));
        }
        reply := InsertHardware(mpType, addr);
      }
    }

    /** Handles a removal packet; watchpoints are always conserved. */
    method Remove(mpType: MpType, addr: nat, ghost original: nat -> nat, ghost absent: set<nat>, ghost client: set<nat>)
      returns (reply: Reply)
      requires Valid()
      modifies this, pool.inUse, table`entries
      modifies table.slots[addr % MP_HASH_SIZE], table.slots[addr % MP_HASH_SIZE].links
      ensures Valid() && reply == OK && table.Nodes() <= old(table.Nodes())
      ensures (Breakpoints(), memory) == (if mpType == BpMemory then B.Removed(old(Breakpoints()), old(memory), addr)
                                          else old((Breakpoints(), memory)))
      ensures (Watches() == if mpType == BpMemory then old(Watches())
                            else Removed(old(Watches()), Key(mpType, addr)))
      ensures B.Transparent(old(Breakpoints()), old(memory), original) ==>
                (B.Transparent(Breakpoints(), memory, original)
                 <==> mpType != BpMemory || addr !in old(Breakpoints()) || !B.SharesWord(old(Breakpoints()), addr)
                      || original(B.WordOf(addr)) == B.TRAP_INSTR)
      ensures Conserved(old(Watches()), absent, client) ==> Conserved(Watches(), absent, client)
    {
      hide B.Transparent, Conserved, B.SharesWord;
      if mpType == BpMemory {
        if B.Transparent(Breakpoints(), memory, original) {
          B.RemoveTransparent(Breakpoints(), memory, original, addr);
        }
        reply := RemoveMemory(addr);
      } else {
        if Conserved(Watches(), absent, client) {
          RemoveConserves(Watches(), absent, client, Key(mpType, addr));
        }
        reply := RemoveHardware(mpType, addr);
      }
    }

    /** Handles one packet of a run. */
    method Handle(packet: Packet, ghost client: set<nat>, ghost rest: seq<Packet>) returns (reply: Reply)
      requires Valid()
      modifies this, pool.inUse, table`entries, table.slots[packet.addr % MP_HASH_SIZE]
      modifies table.slots[packet.addr % MP_HASH_SIZE].links
      ensures Valid()
      ensures forall e :: e in table.Nodes() ==> e in old(table.Nodes()) || fresh(e)
      ensures (B.Perform(Breakpoints(), memory, MemoryPackets(rest))
               == B.Perform(old(Breakpoints()), old(memory), MemoryPackets([packet] + rest)))
      ensures Run(Watches(), client, HardwareSteps(rest)) == Run(old(Watches()), client, HardwareSteps([packet] + rest))
    {
      hide B.Inserted, B.Removed, Inserted, Removed;
      if packet.insert {
        reply := Insert(packet.mpType, packet.addr, _ => 0, {}, {});
      } else {
        reply := Remove(packet.mpType, packet.addr, _ => 0, {}, {});
      }
      assert ([packet] + rest)[1..] == rest;
    }

    /**
     Serves any sequence of packets on the table: the memory packets among them act on target memory and
     the others on the watchpoints, each in order. So with word-aligned breakpoints memory stays
     recoverable, and with no matchpoint inserted twice watchpoints are conserved.
     */
    method Serve(packets: seq<Packet>, ghost original: nat -> nat, ghost absent: set<nat>, ghost client: set<nat>)
      requires Valid()
      modifies this, pool.inUse, table`entries, table.slots, table.Nodes()
      ensures Valid()
      ensures (Breakpoints(), memory) == B.Perform(old(Breakpoints()), old(memory), MemoryPackets(packets))
      ensures Watches() == Run(old(Watches()), client, HardwareSteps(packets)).0
      ensures (B.Transparent(old(Breakpoints()), old(memory), original) && B.Aligned(old(Breakpoints()))
               && (forall p :: p in MemoryPackets(packets) ==> p.addr % 4 == 0)
               ==> B.Transparent(Breakpoints(), memory, original))
      ensures (Conserved(old(Watches()), absent, client) && AllAllowed(old(Watches()), absent, HardwareSteps(packets))
               ==> Conserved(Watches(), absent, client))
    {
      hide B.Transparent, Conserved, B.Perform, Run, MemoryPackets, HardwareSteps, AllAllowed, B.Aligned;
      hide Table.Valid, Table.Nodes, Server.Breakpoints;
      ghost var bps, m, s, entries := Breakpoints(), memory, Watches(), table.Nodes();
      for i := 0 to |packets|
        invariant Valid() && forall e :: e in table.Nodes() ==> e in entries || fresh(e)
        invariant (B.Perform(Breakpoints(), memory, MemoryPackets(packets[i..]))
                   == B.Perform(bps, m, MemoryPackets(packets)))
        invariant Run(Watches(), client, HardwareSteps(packets[i..])) == Run(s, client, HardwareSteps(packets))
      {
        assert packets[i..] == [packets[i]] + packets[i + 1..];
        InFootprint(table, packets[i].addr % MP_HASH_SIZE);
        var _ := Handle(packets[i], client, packets[i + 1..]);
      }
      assert packets[|packets|..] == [];
      NothingLeft(Breakpoints(), memory, Watches(), client);
      RunSafe(bps, m, s, packets, original, absent, client);
    }
  }

  lemma InFootprint(t: Table, h: nat)
    requires t.Valid() && h < MP_HASH_SIZE
    ensures |t.slots| == MP_HASH_SIZE && t.slots[h] in t.slots && forall e :: e in t.slots[h].links ==> e in t.Nodes()
  {
    assert t.slots[h] in t.slots;
    forall e | e in t.slots[h].links ensures e in t.Nodes() {
      assert e in t.slots[h].Nodes();
    }
  }

  lemma NothingLeft(bps: B.Breakpoints, memory: nat -> nat, s: State, client: set<nat>)
    requires s.Valid()
    ensures B.Perform(bps, memory, MemoryPackets([])) == (bps, memory)
    ensures Run(s, client, HardwareSteps([])) == (s, client)
  {
  }

  /** What the runs of the two kinds of packets keep. */
  lemma RunSafe(bps: B.Breakpoints, memory: nat -> nat, s: State, packets: seq<Packet>, original: nat -> nat,
                absent: set<nat>, client: set<nat>)
    requires s.Valid()
    ensures (B.Transparent(bps, memory, original) && B.Aligned(bps)
             && (forall p :: p in MemoryPackets(packets) ==> p.addr % 4 == 0)
             ==> var (b, m) := B.Perform(bps, memory, MemoryPackets(packets)); B.Transparent(b, m, original))
    ensures (Conserved(s, absent, client) && AllAllowed(s, absent, HardwareSteps(packets))
             ==> Conserved(Run(s, client, HardwareSteps(packets)).0, absent, client))
  {
    var mem, hw := MemoryPackets(packets), HardwareSteps(packets);
    if B.Transparent(bps, memory, original) && B.Aligned(bps) && forall p :: p in mem ==> p.addr % 4 == 0 {
      B.RunTransparent(bps, memory, original, mem);
    }
    if Conserved(s, absent, client) && AllAllowed(s, absent, hw) {
      RunConserves(s, absent, client, hw);
      ClientStays(s, client, packets);
    }
  }

  /** The server's packets leave what the client has alone. */
  lemma {:induction false} ClientStays(s: State, client: set<nat>, packets: seq<Packet>)
    requires s.Valid()
    ensures Run(s, client, HardwareSteps(packets)).1 == client
    decreases |packets|
  {
    if packets != [] {
      var steps := HardwareSteps(packets);
      if packets[0].mpType == BpMemory {
        ClientStays(s, client, packets[1..]);
      } else {
        assert steps[1..] == HardwareSteps(packets[1..]);
        ClientStays(Do(s, steps[0]), client, packets[1..]);
      }
    }
  }

  /** A `Z` packet inserts a matchpoint, a `z` packet removes one. */
  datatype Packet = Packet(insert: bool, mpType: MpType, addr: nat)

  /** The packets for memory breakpoints, in order. */
  function MemoryPackets(packets: seq<Packet>): seq<B.Packet> {
    if packets == [] then []
    else
      var p, rest := packets[0], MemoryPackets(packets[1..]);
      if p.mpType != BpMemory then rest
      else [if p.insert then B.Packet.Insert(p.addr) else B.Packet.Remove(p.addr)] + rest
  }

  /** The packets for hardware matchpoints, in order. */
  function HardwareSteps(packets: seq<Packet>): seq<Step> {
    if packets == [] then []
    else
      var p, rest := packets[0], HardwareSteps(packets[1..]);
      var key := Key(p.mpType, p.addr);
      if p.mpType == BpMemory then rest else [if p.insert then Step.Insert(key) else Step.Remove(key)] + rest
  }
}
