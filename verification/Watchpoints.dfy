/**
 Hardware matchpoints: the eight watchpoints of the CPU's debug unit, shared between the RSP server,
 which draws them from a pool, and the watchpoint client, which writes their registers itself.
 */
module Watchpoints {
  import opened BitWords
  import opened MatchpointTable

  const HWP_MAX_WP := 8

  // ---------- The pool ----------

  /** The lowest unused watchpoint, or -1. */
  ghost predicate IsFirstFree(inUse: seq<bool>, wp: int) {
    if wp == -1 then forall i :: 0 <= i < |inUse| ==> inUse[i]
    else 0 <= wp < |inUse| && !inUse[wp] && forall i :: 0 <= i < wp ==> inUse[i]
  }

  ghost function FirstFree(inUse: seq<bool>): (wp: int)
    ensures IsFirstFree(inUse, wp)
  {
    if inUse == [] then -1
    else if !inUse[0] then 0
    else
      var wp := FirstFree(inUse[1..]);
      assert forall i :: 0 < i < |inUse| ==> inUse[i] == inUse[1..][i - 1];
      if wp == -1 then -1 else wp + 1
  }

  /** What reading a control register gives: its value, unless the read fails. */
  datatype Reading = Failed | Value(dcr: Word) {
    /** A watchpoint is there when its register can be read and has the present bit. */
    predicate Present() {
      Value? && dcr[0]
    }
  }

  class WatchpointPool {
    const inUse: array<bool>

    ghost predicate Valid() {
      inUse.Length == 8
    }

    /** Every watchpoint that is not found present is marked in use. */
    constructor (readings: seq<Reading>)
      requires |readings| == HWP_MAX_WP
      ensures Valid() && fresh(inUse) && forall i :: 0 <= i < HWP_MAX_WP ==> inUse[i] == !readings[i].Present()
    {
      inUse := new bool[HWP_MAX_WP](i requires 0 <= i < HWP_MAX_WP => !readings[i].Present());
    }

    method SetInUse(wp: nat, used: bool)
      requires Valid()
      modifies inUse
      ensures inUse[..] == if wp < HWP_MAX_WP then old(inUse[..])[wp := used] else old(inUse[..])
    {
      if wp < HWP_MAX_WP {
        inUse[wp] := used;
      }
    }

    /** Takes the first unused watchpoint, or returns -1. */
    method GetAvailable() returns (ret: int)
      requires Valid()
      modifies inUse
      ensures ret == FirstFree(old(inUse[..]))
      ensures inUse[..] == if ret == -1 then old(inUse[..]) else old(inUse[..])[ret := true]
    {
      ret := -1;
      for i := 0 to HWP_MAX_WP
        invariant ret == -1 && inUse[..] == old(inUse[..])
        invariant forall j :: 0 <= j < i ==> inUse[j]
      {
        if !inUse[i] {
          ret := i;
          inUse[i] := true;
          break;
        }
      }
      assert IsFirstFree(old(inUse[..]), ret);
    }

    /** Gives a watchpoint back. */
    method Return(wp: nat)
      requires Valid()
      modifies inUse
      ensures inUse[..] == if wp < HWP_MAX_WP then old(inUse[..])[wp := false] else old(inUse[..])
    {
      if wp < HWP_MAX_WP && inUse[wp] {
        inUse[wp] := false;
      }
    }
  }

  // ---------- The debug unit of the CPU ----------

  /** The data value and data control registers of each watchpoint, and the two mode registers. */
  datatype DebugUnit = DebugUnit(dvr: seq<nat>, dcr: seq<Word>, dmr1: Word, dmr2: Word) {
    predicate Valid() {
      |dvr| == HWP_MAX_WP && |dcr| == HWP_MAX_WP
    }
  }

  function BitAt(n: nat): Word {
    seq(32, i => i == n)
  }

  /** A control register value of two hexadecimal digits. */
  function Control(high: nat, low: nat): Word {
    Nibble(low) + Nibble(high) + Zeros(24)
  }

  /** What each type of matchpoint is compared with: instruction fetches, stores, loads, or both. */
  function ControlCode(mpType: MpType): Word {
    match mpType
    case BpHardware => Control(0x2, 0x3)
    case WpWrite => Control(0x6, 0x3)
    case WpRead => Control(0x4, 0x3)
    case WpAccess => Control(0xC, 0x3)
    case BpMemory => ZERO
  }

  const DCR_DISABLED: Word := Control(0x0, 0x1)

  // ---------- When a watchpoint fires ----------

  datatype AccessKind = Fetch | Load | Store

  /** What the CPU does: it fetches an instruction, or loads or stores data, at an address. */
  datatype Access = Access(kind: AccessKind, addr: nat, data: nat)

  /** A field of three bits. */
  function Field(w: Word, at: nat): (n: nat)
    requires at + 3 <= 32
    ensures n < 8
  {
    (if w[at] then 1 else 0) + (if w[at + 1] then 2 else 0) + (if w[at + 2] then 4 else 0)
  }

  /** A number of 32 bits as a signed one. */
  function Signed(n: nat): int {
    if n < 0x8000_0000 then n else n - 0x1_0000_0000
  }

  /** The compare condition; 0 matches nothing, and 7 is reserved. */
  predicate Compares(condition: nat, a: int, b: int) {
    match condition
    case 1 => a == b
    case 2 => a < b
    case 3 => a <= b
    case 4 => a > b
    case 5 => a >= b
    case 6 => a != b
    case _ => false
  }

  /** What is compared: the address of a fetch, of a load, of a store or of either, or the data of loads and stores. */
  predicate Concerns(compareTo: nat, kind: AccessKind) {
    match compareTo
    case 1 => kind == Fetch
    case 2 => kind == Load
    case 3 => kind == Store
    case 4 => kind == Load
    case 5 => kind == Store
    case 6 => kind == Load || kind == Store
    case 7 => kind == Load || kind == Store
    case _ => false
  }

  function Compared(compareTo: nat, access: Access): nat {
    if compareTo == 4 || compareTo == 5 || compareTo == 7 then access.data else access.addr
  }

  /**
   A watchpoint that is present fires on an access, by the fields of its control register: the condition in
   bits 1 to 3, whether the comparison is signed in bit 4, and what is compared in bits 5 to 7.
   */
  predicate Fires(dcr: Word, dvr: nat, access: Access) {
    var value := Compared(Field(dcr, 5), access);
    && dcr[0] && Concerns(Field(dcr, 5), access.kind)
    && if dcr[4] then Compares(Field(dcr, 1), Signed(value), Signed(dvr)) else Compares(Field(dcr, 1), value, dvr)
  }

  /** The accesses a matchpoint is for. */
  predicate Wanted(key: Key, access: Access) {
    && access.addr == key.addr
    && match key.mpType
       case BpHardware => access.kind == Fetch
       case WpWrite => access.kind == Store
       case WpRead => access.kind == Load
       case WpAccess => access.kind == Load || access.kind == Store
       case BpMemory => false
  }

  ghost predicate FiresAsWanted(dcr: Word, dvr: nat, key: Key) {
    forall access: Access :: Fires(dcr, dvr, access) <==> Wanted(key, access)
  }

  /** A control register programmed for a matchpoint fires exactly on the accesses of its type at its address. */
  lemma CodeFires(key: Key)
    ensures FiresAsWanted(ControlCode(key.mpType), key.addr, key)
  {
  }

  /**
   The OR1200 core in this repository, which looks at data accesses without asking whether they load or store:
   what it compares an access with, if the field asks for data accesses at all.
   */
  predicate CoreFires(dcr: Word, dvr: nat, access: Access) {
    var compareTo := Field(dcr, 5);
    var value := if compareTo == 4 || compareTo == 5 || compareTo == 7 then access.data else access.addr;
    && compareTo != 0 && (compareTo == 1 <==> access.kind == Fetch)
    && if dcr[4] then Compares(Field(dcr, 1), Signed(value), Signed(dvr)) else Compares(Field(dcr, 1), value, dvr)
  }

  /** So on that core a matchpoint fires as wanted exactly if it is for fetches, or for loads and stores alike. */
  lemma CoreFiresAsWanted(key: Key)
    requires key.mpType != BpMemory
    ensures ((forall access: Access :: CoreFires(ControlCode(key.mpType), key.addr, access) <==> Wanted(key, access))
             <==> key.mpType == BpHardware || key.mpType == WpAccess)
    ensures key.mpType == WpWrite || key.mpType == WpRead ==>
              forall access: Access :: (CoreFires(ControlCode(key.mpType), key.addr, access)
                                        <==> Wanted(Key(WpAccess, key.addr), access))
  {
    if key.mpType == WpWrite || key.mpType == WpRead {
      var other := Access(if key.mpType == WpWrite then Load else Store, key.addr, 0);
      assert CoreFires(ControlCode(key.mpType), key.addr, other) && !Wanted(key, other);
    }
  }

  /** A disabled one never fires, and is still found present. */
  lemma DisabledNeverFires(dvr: nat, access: Access)
    ensures DCR_DISABLED[0] && !Fires(DCR_DISABLED, dvr, access)
  {
  }

  /** A client's value for a control register makes it match something. */
  predicate Comparing(val: Word) {
    (val[1] || val[2] || val[3]) && (val[5] || val[6] || val[7])
  }

  /** It fires on something, for some value register, with the present bit too and no reserved condition. */
  lemma ComparingFires(val: Word)
    ensures (exists dvr: nat, access: Access :: Fires(val, dvr, access))
       <==> Comparing(val) && val[0] && Field(val, 1) != 7
  {
    if Comparing(val) && val[0] && Field(val, 1) != 7 {
      var condition, compareTo := Field(val, 1), Field(val, 5);
      var n := if condition == 2 then 0 else if condition == 4 || condition == 6 then 2 else 1;
      var kind := if compareTo == 1 then Fetch else if compareTo == 3 || compareTo == 5 then Store else Load;
      assert Fires(val, 1, Access(kind, n, n));
    }
  }

  /** Programs watchpoint `wp`: value, control, enable bit in DMR2, chain bits in DMR1. */
  function Enabled(regs: DebugUnit, wp: nat, key: Key): (r: DebugUnit)
    requires regs.Valid() && wp < HWP_MAX_WP
    ensures r.Valid()
  {
    DebugUnit(regs.dvr[wp := key.addr], regs.dcr[wp := ControlCode(key.mpType)],
              And(regs.dmr1, Not(Or(BitAt(2 * wp), BitAt(2 * wp + 1)))), Or(regs.dmr2, BitAt(12 + wp)))
  }

  function Disabled(regs: DebugUnit, wp: nat): (r: DebugUnit)
    requires regs.Valid() && wp < HWP_MAX_WP
    ensures r.Valid()
  {
    regs.(dmr2 := And(regs.dmr2, Not(BitAt(12 + wp))), dcr := regs.dcr[wp := DCR_DISABLED])
  }

  // ---------- Conservation ----------

  /** The watchpoint each hardware matchpoint holds. */
  type Holders = imap<Key, nat>

  datatype State = State(held: Holders, inUse: seq<bool>, regs: DebugUnit) {
    ghost predicate Valid() {
      |inUse| == HWP_MAX_WP && regs.Valid() && forall k: Key :: k in held ==> held[k] < HWP_MAX_WP
    }
  }

  ghost predicate Holds(held: Holders, wp: nat) {
    exists k: Key :: k in held && held[k] == wp
  }

  /**
   The watchpoint a matchpoint holds fires exactly on the accesses that the matchpoint is for, is enabled, and
   is not chained to another.
   */
  ghost predicate SetUp(regs: DebugUnit, wp: nat, key: Key)
    requires regs.Valid() && wp < HWP_MAX_WP
  {
    && regs.dvr[wp] == key.addr && regs.dcr[wp] == ControlCode(key.mpType)
    && FiresAsWanted(regs.dcr[wp], regs.dvr[wp], key)
    && regs.dmr2[12 + wp] && !regs.dmr1[2 * wp] && !regs.dmr1[2 * wp + 1]
  }

  ghost predicate AllSetUp(held: Holders, regs: DebugUnit)
    requires regs.Valid()
  {
    forall k: Key :: k in held ==> held[k] < HWP_MAX_WP && SetUp(regs, held[k], k)
  }

  /**
   Every watchpoint is in use for one reason only: it is absent, or the client has it, or exactly
   one matchpoint holds it.
   */
  ghost predicate Accounted(held: Holders, inUse: seq<bool>, absent: set<nat>, client: set<nat>)
    requires |inUse| == HWP_MAX_WP
  {
    && (forall k: Key :: k in held ==> held[k] < HWP_MAX_WP && held[k] !in absent && held[k] !in client)
    && (forall k: Key, j: Key :: k in held && j in held && held[k] == held[j] ==> k == j)
    && forall wp: nat :: wp < HWP_MAX_WP ==> (inUse[wp] <==> wp in absent || wp in client || Holds(held, wp))
  }

  ghost predicate Conserved(s: State, absent: set<nat>, client: set<nat>) {
    s.Valid() && AllSetUp(s.held, s.regs) && Accounted(s.held, s.inUse, absent, client)
  }

  /** Inserting a hardware matchpoint; the table keeps the first entry for a key. */
  ghost function Inserted(s: State, key: Key): (r: State)
    requires s.Valid()
    ensures r.Valid()
  {
    var wp := FirstFree(s.inUse);
    if wp == -1 then s
    else State(if key in s.held then s.held else s.held[key := wp], s.inUse[wp := true], Enabled(s.regs, wp, key))
  }

  ghost function WithoutHolder(held: Holders, key: Key): Holders {
    imap k | k in held && k != key :: held[k]
  }

  ghost function Removed(s: State, key: Key): (r: State)
    requires s.Valid()
    ensures r.Valid()
  {
    if key !in s.held then s
    else
      var wp := s.held[key];
      State(WithoutHolder(s.held, key), s.inUse[wp := false], Disabled(s.regs, wp))
  }

  /** The client's writes to the watchpoint registers. */
  datatype Write = Dvr(wp: nat, addr: nat) | Dcr(wp: nat, val: Word) | Dmr1(val: Word) | Dmr2(val: Word) {
    /** There is a register to write to. */
    predicate InRange() {
      Dvr? || Dcr? ==> wp < HWP_MAX_WP
    }
  }

  /** The client writes a register; through a control register it also takes or leaves the watchpoint. */
  ghost function ClientWrote(s: State, write: Write): (r: State)
    requires s.Valid() && write.InRange()
    ensures r.Valid()
  {
    match write
    case Dvr(wp, addr) => s.(regs := s.regs.(dvr := s.regs.dvr[wp := addr]))
    case Dcr(wp, val) =>
      State(s.held, s.inUse[wp := Comparing(val)], s.regs.(dcr := s.regs.dcr[wp := val]))
    case Dmr1(val) => s.(regs := s.regs.(dmr1 := val))
    case Dmr2(val) => s.(regs := s.regs.(dmr2 := val))
  }

  function ClientHas(client: set<nat>, write: Write): set<nat> {
    if !write.Dcr? then client else if Comparing(write.val) then client + {write.wp} else client - {write.wp}
  }

  lemma EnabledSetsUp(regs: DebugUnit, wp: nat, key: Key)
    requires regs.Valid() && wp < HWP_MAX_WP
    ensures SetUp(Enabled(regs, wp, key), wp, key)
  {
    hide Fires, Wanted;
    CodeFires(key);
  }

  /** On the OR1200 core in this repository, watchpoint `wp` generates breakpoints when bit 13 + wp is set. */
  predicate CoreEnabled(regs: DebugUnit, wp: nat)
    requires wp < HWP_MAX_WP
  {
    regs.dmr2[13 + wp]
  }

  /** So there the bit the server sets, one lower, enables the watchpoint before the one it has set up. */
  lemma CoreEnablesTheOneBefore(regs: DebugUnit, wp: nat, key: Key, other: nat)
    requires regs.Valid() && wp < HWP_MAX_WP && other < HWP_MAX_WP
    ensures CoreEnabled(Enabled(regs, wp, key), other) <==> CoreEnabled(regs, other) || other + 1 == wp
  {
  }

  /** Setting up or disabling one watchpoint leaves the others set up. */
  lemma OthersSetUp(regs: DebugUnit, wp: nat, key: Key, other: nat, otherKey: Key)
    requires regs.Valid() && wp < HWP_MAX_WP && other < HWP_MAX_WP && wp != other
    requires SetUp(regs, other, otherKey)
    ensures SetUp(Enabled(regs, wp, key), other, otherKey)
    ensures SetUp(Disabled(regs, wp), other, otherKey)
  {
    assert 12 + other != 12 + wp;
  }

  lemma AddedHolder(held: Holders, key: Key, wp: nat, v: nat)
    requires key !in held
    ensures Holds(held[key := wp], v) <==> Holds(held, v) || v == wp
  {
    var more := held[key := wp];
    assert key in more && more[key] == wp;
    if Holds(held, v) {
      var k: Key :| k in held && held[k] == v;
      assert k in more && more[k] == v;
    }
  }

  lemma RemovedHolder(held: Holders, key: Key, v: nat)
    requires key in held && forall k: Key :: k in held && held[k] == held[key] ==> k == key
    ensures Holds(WithoutHolder(held, key), v) <==> Holds(held, v) && v != held[key]
  {
    if Holds(held, v) {
      var k: Key :| k in held && held[k] == v;
      assert v != held[key] ==> k in WithoutHolder(held, key);
    }
  }

  lemma InsertAccounts(held: Holders, inUse: seq<bool>, absent: set<nat>, client: set<nat>, key: Key, wp: nat)
    requires |inUse| == HWP_MAX_WP && Accounted(held, inUse, absent, client) && IsFirstFree(inUse, wp)
    ensures (Accounted(if key in held then held else held[key := wp], inUse[wp := true], absent, client)
             <==> key !in held)
  {
    assert !Holds(held, wp);
    if key !in held {
      forall v: nat ensures Holds(held[key := wp], v) <==> Holds(held, v) || v == wp {
        AddedHolder(held, key, wp, v);
      }
    }
  }

  /** Inserting conserves watchpoints exactly when the matchpoint is new or no watchpoint is free. */
  lemma InsertConserves(s: State, absent: set<nat>, client: set<nat>, key: Key)
    requires Conserved(s, absent, client)
    ensures Conserved(Inserted(s, key), absent, client) <==> key !in s.held || FirstFree(s.inUse) == -1
  {
    var r := Inserted(s, key);
    var wp := FirstFree(s.inUse);
    if wp != -1 {
      InsertAccounts(s.held, s.inUse, absent, client, key, wp);
      assert !Holds(s.held, wp);
      forall k: Key | k in r.held && key !in s.held ensures SetUp(r.regs, r.held[k], k) {
        if k == key {
          EnabledSetsUp(s.regs, wp, key);
        } else {
          assert s.held[k] != wp;
          OthersSetUp(s.regs, wp, key, s.held[k], k);
        }
      }
    }
  }

  /** Removing always conserves watchpoints. */
  lemma RemoveConserves(s: State, absent: set<nat>, client: set<nat>, key: Key)
    requires Conserved(s, absent, client)
    ensures Conserved(Removed(s, key), absent, client)
  {
    var r := Removed(s, key);
    if key in s.held {
      forall v: nat ensures Holds(r.held, v) <==> Holds(s.held, v) && v != s.held[key] {
        RemovedHolder(s.held, key, v);
      }
      forall k: Key | k in r.held ensures SetUp(r.regs, r.held[k], k) {
        OthersSetUp(s.regs, s.held[key], key, s.held[k], k);
      }
    }
  }

  /** Removing clears its own enable bit and no other. */
  lemma RemoveClearsOneBit(s: State, key: Key, i: nat)
    requires s.Valid() && i < 32
    ensures (Removed(s, key).regs.dmr2[i] <==> s.regs.dmr2[i] && !(key in s.held && i == 12 + s.held[key]))
  {
  }

  /** The write leaves the watchpoints that matchpoints hold as they are set up, and does not free an absent one. */
  ghost predicate Harmless(s: State, absent: set<nat>, write: Write)
    requires s.Valid() && write.InRange()
  {
    match write
    case Dvr(wp, addr) => Holds(s.held, wp) ==> addr == s.regs.dvr[wp]
    case Dcr(wp, val) => !Holds(s.held, wp) && (wp in absent ==> Comparing(val))
    case Dmr1(val) => forall wp: nat :: Holds(s.held, wp) ==> !val[2 * wp] && !val[2 * wp + 1]
    case Dmr2(val) => forall wp: nat :: Holds(s.held, wp) ==> val[12 + wp]
  }

  lemma HeldIsHolder(s: State, k: Key)
    requires k in s.held
    ensures Holds(s.held, s.held[k])
  {
  }

  /** The client's writes conserve watchpoints exactly when they are harmless. */
  lemma ClientConserves(s: State, absent: set<nat>, client: set<nat>, write: Write)
    requires Conserved(s, absent, client) && write.InRange()
    ensures Conserved(ClientWrote(s, write), absent, ClientHas(client, write)) <==> Harmless(s, absent, write)
  {
    if write.Dcr? {
      ClientTakes(s, absent, client, write.wp, write.val);
    } else {
      var r := ClientWrote(s, write);
      forall k: Key | k in s.held ensures Holds(s.held, s.held[k]) { HeldIsHolder(s, k); }
      assert AllSetUp(r.held, r.regs) <==> Harmless(s, absent, write);
    }
  }

  lemma ClientTakes(s: State, absent: set<nat>, client: set<nat>, wp: nat, val: Word)
    requires Conserved(s, absent, client) && wp < HWP_MAX_WP
    ensures (Conserved(ClientWrote(s, Dcr(wp, val)), absent, ClientHas(client, Dcr(wp, val)))
             <==> !Holds(s.held, wp) && (wp in absent ==> Comparing(val)))
  {
    hide Comparing, Holds, SetUp;
    ClientAccounts(s.held, s.inUse, absent, client, wp, Comparing(val));
    forall k: Key | k in s.held && s.held[k] != wp ensures SetUp(s.regs.(dcr := s.regs.dcr[wp := val]), s.held[k], k) {
      OtherControl(s.regs, wp, val, s.held[k], k);
    }
    forall k: Key | k in s.held ensures Holds(s.held, s.held[k]) { HeldIsHolder(s, k); }
  }

  lemma OtherControl(regs: DebugUnit, wp: nat, val: Word, other: nat, key: Key)
    requires regs.Valid() && wp < HWP_MAX_WP && other < HWP_MAX_WP && wp != other && SetUp(regs, other, key)
    ensures SetUp(regs.(dcr := regs.dcr[wp := val]), other, key)
  {
  }

  lemma ClientAccounts(held: Holders, inUse: seq<bool>, absent: set<nat>, client: set<nat>, wp: nat, takes: bool)
    requires |inUse| == HWP_MAX_WP && Accounted(held, inUse, absent, client) && wp < HWP_MAX_WP
    ensures (Accounted(held, inUse[wp := takes], absent, if takes then client + {wp} else client - {wp})
             <==> !Holds(held, wp) && (wp in absent ==> takes))
  {
    assert inUse[wp := takes][wp] == takes;
    if Holds(held, wp) {
      var k: Key :| k in held && held[k] == wp;
    }
  }

  /** A matchpoint that was inserted and then removed leaves every other one, and the pool, as they were. */
  lemma RemoveUndoesInsert(s: State, absent: set<nat>, client: set<nat>, key: Key)
    requires Conserved(s, absent, client) && key !in s.held
    ensures var r := Removed(Inserted(s, key), key);
            r.held == s.held && r.inUse == s.inUse
  {
    var wp := FirstFree(s.inUse);
    if wp == -1 {
    } else {
      var r := Removed(Inserted(s, key), key);
      assert r.held == s.held;
      assert r.inUse == s.inUse;
    }
  }

  // ---------- Runs ----------

  datatype Step = Insert(key: Key) | Remove(key: Key) | ByClient(write: Write)

  /** The condition, checked before a step, on which it conserves watchpoints. */
  ghost predicate Allowed(s: State, absent: set<nat>, step: Step)
    requires s.Valid()
  {
    match step
    case Insert(key) => key !in s.held || FirstFree(s.inUse) == -1
    case Remove(key) => true
    case ByClient(write) => write.InRange() ==> Harmless(s, absent, write)
  }

  ghost function Do(s: State, step: Step): (r: State)
    requires s.Valid()
    ensures r.Valid()
  {
    match step
    case Insert(key) => Inserted(s, key)
    case Remove(key) => Removed(s, key)
    case ByClient(write) => if write.InRange() then ClientWrote(s, write) else s
  }

  function ClientAfter(client: set<nat>, step: Step): set<nat> {
    if step.ByClient? && step.write.InRange() then ClientHas(client, step.write) else client
  }

  lemma StepConserves(s: State, absent: set<nat>, client: set<nat>, step: Step)
    requires Conserved(s, absent, client)
    ensures Conserved(Do(s, step), absent, ClientAfter(client, step)) <==> Allowed(s, absent, step)
  {
    match step
    case Insert(key) => InsertConserves(s, absent, client, key);
    case Remove(key) => RemoveConserves(s, absent, client, key);
    case ByClient(write) => if write.InRange() { ClientConserves(s, absent, client, write); }
  }

  ghost predicate AllAllowed(s: State, absent: set<nat>, steps: seq<Step>)
    requires s.Valid()
    decreases |steps|
  {
    steps == [] || (Allowed(s, absent, steps[0]) && AllAllowed(Do(s, steps[0]), absent, steps[1..]))
  }

  ghost function Run(s: State, client: set<nat>, steps: seq<Step>): (State, set<nat>)
    requires s.Valid()
    decreases |steps|
  {
    if steps == [] then (s, client) else Run(Do(s, steps[0]), ClientAfter(client, steps[0]), steps[1..])
  }

  /** Over any run of allowed steps, no watchpoint is lost or given out twice. */
  lemma {:induction false} RunConserves(s: State, absent: set<nat>, client: set<nat>, steps: seq<Step>)
    requires Conserved(s, absent, client) && AllAllowed(s, absent, steps)
    ensures var (r, has) := Run(s, client, steps); Conserved(r, absent, has)
    decreases |steps|
  {
    if steps != [] {
      StepConserves(s, absent, client, steps[0]);
      RunConserves(Do(s, steps[0]), absent, ClientAfter(client, steps[0]), steps[1..]);
    }
  }

  /** When no hardware matchpoint is left, exactly the absent watchpoints and the client's are in use. */
  lemma NoneHeld(s: State, absent: set<nat>, client: set<nat>, wp: nat)
    requires Conserved(s, absent, client) && (forall k: Key :: k !in s.held) && wp < HWP_MAX_WP
    ensures s.inUse[wp] <==> wp in absent + client
  {
    assert !Holds(s.held, wp);
  }
}
