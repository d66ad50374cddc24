/**
 Burst reads through the WISHBONE module of the debug unit, restarted where the bus failed,
 over a line that may corrupt what it carries.
 */
module BurstRead {
  import opened BitWords
  import opened Crc32
  import AdvDebug

  const MAX_READ_STATUS_WAIT := 100
  const MAX_BUS_ERRORS := 10

  const ADDRESS_SPACE := 0x1_0000_0000
  const COUNT_LIMIT := 0x1_0000

  /** How a read ends. `Astray` is where the code goes on with an index outside the buffer. */
  datatype Status = Success | MaxRetry | CrcError | MaxBusErrors | Astray

  predicate WordSize(size: nat) {
    size == 1 || size == 2 || size == 4
  }

  function Opcode(size: nat): nat {
    if size == 1 then 0x5 else if size == 2 then 0x6 else 0x7
  }

  /** The address of word `k`: start + k * size, by cases on the size. */
  function AddressOf(start: nat, k: nat, size: nat): nat
    requires WordSize(size)
  {
    if size == 1 then start + k else if size == 2 then start + 2 * k else start + 4 * k
  }

  /** A number of bytes as a number of words: n / size, by cases on the size. */
  function Words(n: nat, size: nat): nat
    requires WordSize(size)
  {
    if size == 1 then n else if size == 2 then n / 2 else n / 4
  }

  /**
   The index at which a read restarts: the difference of two `unsigned long`, which are 32 or 64 bits wide
   and wrap, divided, and stored in an `int` of 32 bits.
   */
  function RestartIndex(long: nat, start: nat, address: nat, size: nat): int
    requires WordSize(size) && long > 0
  {
    var low := Words((address - start) % long, size) % 0x1_0000_0000;
    if low < 0x8000_0000 then low else low - 0x1_0000_0000
  }

  predicate LongModulus(long: nat) {
    long == 0x1_0000_0000 || long == 0x1_0000_0000_0000_0000
  }

  /** The words of a read occupy these addresses. */
  predicate Within(start: nat, count: nat, size: nat, address: nat)
    requires WordSize(size)
  {
    start <= address < AddressOf(start, count, size)
  }

  /** On hosts of either width, the index is one of the buffer exactly when the error address is one of the read. */
  lemma RestartsWithin(long: nat, start: nat, count: nat, size: nat, address: nat)
    requires LongModulus(long) && WordSize(size) && address < ADDRESS_SPACE
    requires 0 < count < COUNT_LIMIT && AddressOf(start, count, size) <= ADDRESS_SPACE
    ensures 0 <= RestartIndex(long, start, address, size) < count <==> Within(start, count, size, address)
    ensures (Within(start, count, size, address)
             ==> RestartIndex(long, start, address, size) == Words(address - start, size))
  {
    hide RestartIndex, AddressOf, Words;
    if address < start {
      Below(long, start, count, size, start - address);
      assert start - (start - address) == address;
    } else {
      Above(long, start, count, size, address - start);
      assert start + (address - start) == address;
    }
  }

  /** An error address `d` above the start gives its word, if that is one of the buffer's. */
  lemma Above(long: nat, start: nat, count: nat, size: nat, d: nat)
    requires LongModulus(long) && WordSize(size) && d < ADDRESS_SPACE && 0 < count < COUNT_LIMIT
    ensures var index := RestartIndex(long, start, start + d, size);
            && (0 <= index < count <==> start + d < AddressOf(start, count, size))
            && (start + d < AddressOf(start, count, size) ==> index == Words(d, size))
  {
    hide AddressOf, Words;
    Remainder(long, d);
    WordsOrder(d, count, size);
    assert start + d - start == d;
  }

  lemma Remainder(long: nat, n: int)
    requires 0 < n + long && n < long
    ensures n % long == if n < 0 then n + long else n
  {
  }

  /** Whole words come before an address exactly if it comes that far. */
  lemma WordsOrder(n: nat, count: nat, size: nat)
    requires WordSize(size)
    ensures Words(n, size) <= n && (Words(n, size) < count <==> n < AddressOf(0, count, size))
    ensures forall start: nat :: AddressOf(start, count, size) == start + AddressOf(0, count, size)
  {
  }

  /** An error address `d` below the start gives an index that is negative or past the end. */
  lemma Below(long: nat, start: nat, count: nat, size: nat, d: nat)
    requires LongModulus(long) && WordSize(size) && 0 < d <= start
    requires 0 < count < COUNT_LIMIT && AddressOf(start, count, size) <= ADDRESS_SPACE
    ensures !(0 <= RestartIndex(long, start, start - d, size) < count)
  {
    hide AddressOf, Words;
    WordsOrder(0, count, size);
    Remainder(long, -(d as int));
    assert start - d - start == -(d as int);
    var low := Words(long - d, size) % 0x1_0000_0000;
    assert low >= count by {
      hide RestartIndex;
      if long == 0x1_0000_0000 { Below32(count, size, d); } else { Below64(count, size, d); }
    }
    hide Words, AddressOf, LongModulus, WordSize;
  }

  lemma Below32(count: nat, size: nat, d: nat)
    requires WordSize(size) && d > 0 && AddressOf(0, count, size) + d <= ADDRESS_SPACE
    ensures count <= Words(0x1_0000_0000 - d, size) % 0x1_0000_0000
  {
    var w := Words(0x1_0000_0000 - d, size);
    WordsOrder(0x1_0000_0000 - d, count, size);
    assert w < 0x1_0000_0000;
  }

  lemma Below64(count: nat, size: nat, d: nat)
    requires WordSize(size) && d > 0 && count < COUNT_LIMIT && AddressOf(0, count, size) + d <= ADDRESS_SPACE
    ensures count <= Words(0x1_0000_0000_0000_0000 - d, size) % 0x1_0000_0000
  {
    LowWord(size, d);
    WordsBack(size, d, count);
    hide Words, AddressOf, WordSize;
  }

  lemma WordsBack(size: nat, d: nat, count: nat)
    requires WordSize(size) && 0 < d && count < COUNT_LIMIT && AddressOf(0, count, size) + d <= ADDRESS_SPACE
    ensures 1 <= Words(d + size - 1, size) <= ADDRESS_SPACE - count
  {
  }

  lemma LowWord(size: nat, d: nat)
    requires WordSize(size) && 0 < d <= 0x1_0000_0000
    ensures (Words(0x1_0000_0000_0000_0000 - d, size) % 0x1_0000_0000
             == (0x1_0000_0000 - Words(d + size - 1, size)) % 0x1_0000_0000)
  {
    if size == 1 {
      WholeLongs(0xffff_ffff, 0x1_0000_0000 - d);
    } else if size == 2 {
      WholeLongs(0x7fff_ffff, 0x1_0000_0000 - (d + 1) / 2);
    } else {
      WholeLongs(0x3fff_ffff, 0x1_0000_0000 - (d + 3) / 4);
    }
  }

  lemma WholeLongs(k: nat, low: int)
    ensures (k * 0x1_0000_0000 + low) % 0x1_0000_0000 == low % 0x1_0000_0000
  {
  }

  /** The word size the hardware decodes from an opcode. */
  function SizeOf(opcode: nat): (size: nat)
    ensures WordSize(size)
  {
    if opcode == 0x5 then 1 else if opcode == 0x6 then 2 else 4
  }

  /** A word cut to its size, as it is stored. */
  function Cut(w: Word, size: nat): Word
    requires WordSize(size)
  {
    w[..8 * size] + Zeros(32 - 8 * size)
  }

  // ---------- What can happen to one burst ----------

  /**
   One burst: the words the unit sent, of which those before `fault` came off the bus without an error;
   how many zero status bits preceded each word; and the words and CRC as they left the line. At word
   `broken` the cable reports an error; it reports none if `broken` is past the end.
   */
  datatype Transfer = Transfer(
    sent: seq<Bits>, fault: nat, waits: seq<nat>, received: seq<Word>, receivedCrc: Word, broken: nat)

  /** The received words, cut to their size. */
  function Payload(t: Transfer, size: nat): (p: seq<Bits>)
    requires WordSize(size)
    ensures |p| == |t.received|
  {
    seq(|t.received|, j requires 0 <= j < |t.received| => t.received[j][..8 * size])
  }

  /** The unit computes the CRC of the words it sends, and shifts it out after them. */
  function SentCrc(t: Transfer): Word {
    UnitCrc(Flat(t.sent))
  }

  /** The hardware read memory up to the first bus error; the line may have flipped bits, 32 apart at most. */
  ghost predicate Honest(t: Transfer, memory: nat -> Word, address: nat, count: nat, size: nat)
    requires WordSize(size)
  {
    && |t.sent| == |t.waits| == |t.received| == count && t.fault <= count
    && (forall j :: 0 <= j < count ==> |t.sent[j]| == 8 * size)
    && (forall j :: 0 <= j < t.fault ==> t.sent[j] == memory(AddressOf(address, j, size))[..8 * size])
    && SameLengths(t.sent, Payload(t, size))
    && var sent, received := Flat(t.sent) + SentCrc(t), Flat(Payload(t, size)) + t.receivedCrc;
       |sent| == |received| && exists at: nat :: BurstAt(XorBits(sent, received), at)
  }

  predicate TimedOut(t: Transfer) {
    exists j :: 0 <= j < |t.waits| && t.waits[j] >= MAX_READ_STATUS_WAIT
  }

  predicate Corrupted(t: Transfer, size: nat)
    requires WordSize(size)
  {
    Payload(t, size) != t.sent || t.receivedCrc != SentCrc(t)
  }

  /** If the CRC comparison succeeds, the words received are the words sent; if it fails, the line is to blame. */
  lemma CrcProtects(t: Transfer, memory: nat -> Word, address: nat, count: nat, size: nat)
    requires WordSize(size) && Honest(t, memory, address, count, size)
    ensures Accepts(Flat(Payload(t, size)), t.receivedCrc) <==> !Corrupted(t, size)
  {
    var sent, received := Flat(t.sent) + SentCrc(t), Flat(Payload(t, size)) + t.receivedCrc;
    var at: nat :| BurstAt(XorBits(sent, received), at);
    FeedIsClocks(ALL_ONES, Flat(t.sent));
    BurstDetected(Flat(t.sent), SentCrc(t), Flat(Payload(t, size)), t.receivedCrc, at);
    if Flat(Payload(t, size)) == Flat(t.sent) {
      FlatInjective(Payload(t, size), t.sent);
    }
  }

  // ---------- The module at the far end ----------

  /** The 33 bits of the error register, as the bridge samples them. */
  function ErrorWords(flag: bool, address: Word): (w: seq<Word>)
    ensures |w| == 2
  {
    var low: Word := [flag] + address[..31];
    var high: Word := [address[31]] + Zeros(31);
    [low, high]
  }

  type Address = a: nat | a < ADDRESS_SPACE

  /** The bus error register: a flag, and an address that is latched while the flag is clear. */
  datatype ErrorRegister = ErrorRegister(flag: bool, address: Address)

  /** A burst as the error register sees it: it failed at word `fault`, or not at all if that is `count`. */
  datatype Done = Done(start: nat, count: nat, size: nat, fault: nat)

  predicate Failed(d: Done) {
    d.fault < d.count
  }

  function FailedAt(d: Done): Address
    requires WordSize(d.size)
  {
    AddressOf(d.start, d.fault, d.size) % ADDRESS_SPACE
  }

  function AfterBurst(r: ErrorRegister, d: Done): ErrorRegister
    requires WordSize(d.size)
  {
    if !r.flag && Failed(d) then ErrorRegister(true, FailedAt(d)) else r
  }

  function AfterBursts(r: ErrorRegister, done: seq<Done>): ErrorRegister
    requires forall d :: d in done ==> WordSize(d.size)
    decreases |done|
  {
    if done == [] then r
    else
      assert done[0] in done;
      AfterBursts(AfterBurst(r, done[0]), done[1..])
  }

  lemma {:induction false} LatchedStays(r: ErrorRegister, done: seq<Done>)
    requires r.flag && forall d :: d in done ==> WordSize(d.size)
    ensures AfterBursts(r, done) == r
    decreases |done|
  {
    if done != [] {
      assert done[0] in done;
      LatchedStays(r, done[1..]);
    }
  }

  /** Over any bursts from a clear register, it tells whether one failed, and where the first one that did. */
  lemma {:induction false} FirstErrorKept(r: ErrorRegister, done: seq<Done>)
    requires !r.flag && forall d :: d in done ==> WordSize(d.size)
    ensures AfterBursts(r, done).flag <==> exists i :: 0 <= i < |done| && Failed(done[i])
    ensures forall i :: 0 <= i < |done| && Failed(done[i]) && (forall j :: 0 <= j < i ==> !Failed(done[j])) ==>
              WordSize(done[i].size) && AfterBursts(r, done).address == FailedAt(done[i])
    decreases |done|
  {
    if done != [] {
      assert done[0] in done;
      assert forall i :: 0 <= i < |done[1..]| ==> done[1..][i] == done[i + 1];
      if Failed(done[0]) {
        LatchedStays(AfterBurst(r, done[0]), done[1..]);
      } else {
        FirstErrorKept(r, done[1..]);
        forall i | 0 < i < |done| && Failed(done[i]) && (forall j :: 0 <= j < i ==> !Failed(done[j]))
          ensures WordSize(done[i].size) && AfterBursts(r, done).address == FailedAt(done[i])
        {
          assert done[1..][i - 1] == done[i];
        }
        if i :| 0 <= i < |done| && Failed(done[i]) {
          assert done[1..][i - 1] == done[i];
        }
      }
    }
  }

  /** The WISHBONE module: the bus error register, and what becomes of each burst in turn. */
  class WishboneModule {
    const memory: nat -> Word
    /** What happens to burst number `n` with this opcode, address and count. */
    const line: (nat, nat, nat, nat) -> Transfer

    var error: ErrorRegister
    var bursts: nat
    var last: Transfer

    constructor (memory: nat -> Word, line: (nat, nat, nat, nat) -> Transfer, error: ErrorRegister)
      ensures this.memory == memory && this.line == line && bursts == 0 && this.error == error
    {
      this.memory, this.line, this.error := memory, line, error;
      bursts := 0;
    }

    /** Every possible burst behaves. */
    ghost predicate Faithful()
    {
      forall n: nat, size: nat, address: nat, count: nat :: WordSize(size) ==>
        Honest(line(n, Opcode(size), address, count), memory, address, count, size)
    }

    /** Decodes a burst command and performs it. */
    method Command(command: Bits) returns (t: Transfer)
      requires |command| == AdvDebug.COMMAND_LEN
      modifies this
      ensures bursts == old(bursts) + 1 && last == t
      ensures var address, count, opcode := ToNat(command[16..48]), ToNat(command[..16]), ToNat(command[48..52]);
              && t == line(old(bursts), opcode, address, count)
              && error == AfterBurst(old(error), Done(address, count, SizeOf(opcode), t.fault))
    {
      var address, count, opcode := ToNat(command[16..48]), ToNat(command[..16]), ToNat(command[48..52]);
      t := line(bursts, opcode, address, count);
      bursts := bursts + 1;
      last := t;
      if !error.flag && t.fault < count {
        error := ErrorRegister(true, AddressOf(address, t.fault, SizeOf(opcode)) % ADDRESS_SPACE);
      }
    }

    /** The low bits of the error register: the flag, then the address. */
    method ReadErrorRegister(databits: nat) returns (data: seq<Word>)
      requires 0 < databits <= 33
      ensures |data| == 2
      ensures forall k :: 0 <= k < databits ==> data[k / 32][k % 32] == ([error.flag] + NatBits(error.address, 32))[k]
    {
      data := ErrorWords(error.flag, NatBits(error.address, 32));
    }

    method ClearError()
      modifies this`error
      ensures error == old(error).(flag := false)
    {
      error := error.(flag := false);
    }
  }

  // ---------- Reading ----------

  /** The error address comes back in one piece from the two words of the error register. */
  lemma AddressReassembled(data: seq<Word>, flag: bool, address: Bits)
    requires |data| == 2 && |address| == 32
    requires forall k :: 0 <= k < 33 ==> data[k / 32][k % 32] == ([flag] + address)[k]
    ensures Or(Shr(data[0], 1), Shl(data[1], 31)) == address
  {
    var w := Or(Shr(data[0], 1), Shl(data[1], 31));
    forall j | 0 <= j < 32 ensures w[j] == address[j] {
      assert data[(j + 1) / 32][(j + 1) % 32] == ([flag] + address)[j + 1];
    }
  }

  /** The command the bridge sends for a burst is the command the module performs. */
  lemma CommandDecodes(size: nat, address: nat, count: nat)
    requires WordSize(size) && address < ADDRESS_SPACE && count < COUNT_LIMIT
    ensures var bits := StreamBits(AdvDebug.BurstWords(Opcode(size), NatBits(address, 32), NatBits(count, 32)),
                                   AdvDebug.COMMAND_LEN);
            && ToNat(bits[16..48]) == address && ToNat(bits[..16]) == count && ToNat(bits[48..52]) == Opcode(size)
    ensures SizeOf(Opcode(size)) == size
  {
    Pow2Values();
    FewBits(count, 16, 32);
    NumberRoundTrip(count, 16);
    NumberRoundTrip(address, 32);
    AdvDebug.BurstCommandDecodes(Opcode(size), NatBits(address, 32), NatBits(count, 32));
    OpcodeRoundTrip(Opcode(size));
  }

  lemma OpcodeRoundTrip(opcode: nat)
    requires 0x5 <= opcode <= 0x7
    ensures ToNat(Nibble(opcode)) == opcode
  {
    var b := Nibble(opcode);
    assert b[0] == (opcode != 0x6) && b[1] == (opcode != 0x5) && b[2] && !b[3];
    assert ToNat(b[1..][1..][1..]) == 0 by { assert b[1..][1..][1..] == [false]; }
    assert ToNat(b[1..][1..]) == 1 by { assert b[1..][1..][0]; }
    assert ToNat(b[1..]) == 2 + if b[1] then 1 else 0;
  }

  /** Sends a burst command; the module performs the burst that was meant. */
  method SendBurstCommand(m: WishboneModule, size: nat, address: nat, count: nat) returns (t: Transfer)
    requires WordSize(size) && address < ADDRESS_SPACE && count < COUNT_LIMIT
    modifies m
    ensures t == m.line(old(m.bursts), Opcode(size), address, count) == m.last
    ensures m.bursts == old(m.bursts) + 1
    ensures m.error == AfterBurst(old(m.error), Done(address, count, size, t.fault))
  {
    CommandDecodes(size, address, count);
    var words := AdvDebug.BurstWords(Opcode(size), NatBits(address, 32), NatBits(count, 32));
    t := m.Command(StreamBits(words, AdvDebug.COMMAND_LEN));
  }

  /** Looks at the error register: one bit first, and the address only if that bit is set. */
  method CheckBusError(m: WishboneModule) returns (failed: bool, address: nat)
    ensures failed == m.error.flag && (failed ==> address == m.error.address)
  {
    var errData := m.ReadErrorRegister(1);
    assert errData[0 / 32][0 % 32] == m.error.flag;
    failed := errData[0][0];
    address := 0;
    if failed {
      errData := m.ReadErrorRegister(33);
      AddressReassembled(errData, m.error.flag, NatBits(m.error.address, 32));
      Pow2Values();
      NumberRoundTrip(m.error.address, 32);
      address := ToNat(Or(Shr(errData[0], 1), Shl(errData[1], 31)));
    }
  }

  /** Waits for the status bit of one word; gives up when it has seen too many bits. */
  method WaitForStatus(zeros: nat) returns (ready: bool)
    ensures ready <==> zeros < 100
  {
    var status := false;
    var j := 0;
    while !status
      invariant j <= MAX_READ_STATUS_WAIT && j <= zeros + 1
      invariant status <==> j == zeros + 1
      decreases zeros + 1 - j
    {
      status := j >= zeros;
      j := j + 1;
      if j > MAX_READ_STATUS_WAIT {
        return false;
      }
    }
    ready := true;
  }

  /** Receives the words of one burst into the buffer from index `from` on, and adds up their CRC. */
  method ReceiveWords(t: Transfer, size: nat, from: nat, count: nat, data: array<Word>)
    returns (crcCalc: Word, complete: bool)
    requires WordSize(size) && from <= count <= data.Length
    requires |t.waits| == |t.received| == count - from
    modifies data
    ensures forall k :: 0 <= k < data.Length && !(from <= k < count) ==> data[k] == old(data[k])
    ensures complete <==> !TimedOut(t) && t.broken >= count - from
    ensures complete ==> crcCalc == Feed(ALL_ONES, Flat(Payload(t, size)))
    ensures complete ==> forall k :: from <= k < count ==> data[k] == Cut(t.received[k - from], size)
  {
    hide Feed, Flat, Cut, UnitClocks;
    crcCalc := ALL_ONES;
    ghost var payload := Payload(t, size);
    NothingFed(payload);
    for i := from to count
      invariant forall k :: 0 <= k < data.Length && !(from <= k < count) ==> data[k] == old(data[k])
      invariant forall k :: from <= k < i ==> data[k] == Cut(t.received[k - from], size)
      invariant forall j :: 0 <= j < i - from ==> t.waits[j] < MAX_READ_STATUS_WAIT
      invariant i > from ==> i - from <= t.broken
      invariant crcCalc == Feed(ALL_ONES, Flat(payload[..i - from]))
    {
      var ready := WaitForStatus(t.waits[i - from]);
      if !ready {
        return crcCalc, false;  // soft retries are compiled out
      }
      var inData := t.received[i - from];
      if t.broken == i - from {
        return crcCalc, false;
      }
      crcCalc := ComputeCrc(crcCalc, inData, 8 * size);
      FeedMore(payload, i - from);
      data[i] := Cut(inData, size);
    }
    assert payload[..count - from] == payload;
    complete := true;
  }

  lemma NothingFed(payload: seq<Bits>)
    ensures ALL_ONES == Feed(ALL_ONES, Flat(payload[..0]))
  {
    assert payload[..0] == [];
  }

  lemma FeedMore(payload: seq<Bits>, n: nat)
    requires n < |payload|
    ensures Feed(ALL_ONES, Flat(payload[..n + 1])) == Feed(Feed(ALL_ONES, Flat(payload[..n])), payload[n])
  {
    assert payload[..n + 1] == payload[..n] + [payload[n]];
    FlatAppend(payload[..n], [payload[n]]);
    assert Flat([payload[n]]) == payload[n] + Flat([]) == payload[n];
    FeedConcat(ALL_ONES, Flat(payload[..n]), payload[n]);
  }

  /** Words, from one index up to another, that need not be right. */
  type Gap = (nat, nat)

  const NO_GAP: Gap := (0, 0)

  /** From an index on, the words come from addresses that are some bytes too high. */
  type Skew = (nat, nat)

  const NO_SKEW: Skew := (0, 0)

  function WordAddress(start: nat, k: nat, size: nat, skew: Skew): nat
    requires WordSize(size)
  {
    AddressOf(start, k, size) + if skew.0 <= k then skew.1 else 0
  }

  /** The first `n` words of the buffer, outside a gap, are what memory holds at their addresses. */
  ghost predicate Holds(data: array<Word>, n: nat, memory: nat -> Word, start: nat, size: nat, gap: Gap, skew: Skew)
    requires WordSize(size) && n <= data.Length
    reads data
  {
    forall k :: 0 <= k < n && !(gap.0 <= k < gap.1) ==> data[k] == Cut(memory(WordAddress(start, k, size, skew)), size)
  }

  /** Words that follow an address lie `size` apart from it. */
  lemma AddressesNest(start: nat, i: nat, f: nat, size: nat, skew: Skew)
    requires WordSize(size) && (skew.1 == 0 || skew.0 <= i)
    ensures AddressOf(WordAddress(start, i, size, skew), f, size) == WordAddress(start, i + f, size, skew)
  {
  }

  /** The address of a word, even if skewed by part of a word, lies within the read, and leads back to the word. */
  lemma AddressInRange(start: nat, i: nat, n: nat, size: nat, extra: nat)
    requires WordSize(size) && i < n && extra < size && AddressOf(start, n, size) <= ADDRESS_SPACE
    ensures Within(start, n, size, AddressOf(start, i, size) + extra)
    ensures AddressOf(start, i, size) + extra < ADDRESS_SPACE
    ensures Words(AddressOf(start, i, size) + extra - start, size) == i
  {
  }

  /** An address within a read is that of one of its words, or skewed by part of a word. */
  lemma WithinIsSkewed(start: nat, n: nat, size: nat, address: nat)
    requires WordSize(size) && Within(start, n, size, address)
    ensures var i := Words(address - start, size);
            i < n && AddressOf(start, i, size) <= address < AddressOf(start, i, size) + size
  {
  }

  /** After a burst that passed the CRC check, everything before its first bus error is good. */
  lemma GoodPrefix(t: Transfer, memory: nat -> Word, start: nat, from: nat, count: nat, size: nat, data: array<Word>,
                   gap: Gap, skew: Skew)
    requires WordSize(size) && from + count <= data.Length && (skew.1 == 0 || skew.0 <= from)
    requires Honest(t, memory, WordAddress(start, from, size, skew), count, size) && !Corrupted(t, size)
    requires Holds(data, from, memory, start, size, gap, skew)
    requires forall k :: from <= k < from + count ==> data[k] == Cut(t.received[k - from], size)
    ensures Holds(data, from + t.fault, memory, start, size, gap, skew)
  {
    forall k | from <= k < from + t.fault
      ensures data[k] == Cut(memory(WordAddress(start, k, size, skew)), size)
    {
      GoodWord(t, memory, start, from, count, size, k - from, skew);
    }
  }

  lemma GoodWord(t: Transfer, memory: nat -> Word, start: nat, from: nat, count: nat, size: nat, j: nat, skew: Skew)
    requires WordSize(size) && (skew.1 == 0 || skew.0 <= from) && j < t.fault
    requires Honest(t, memory, WordAddress(start, from, size, skew), count, size) && !Corrupted(t, size)
    ensures Cut(t.received[j], size) == Cut(memory(WordAddress(start, from + j, size, skew)), size)
  {
    assert t.sent[j] == Payload(t, size)[j] == t.received[j][..8 * size];
    AddressesNest(start, from, j, size, skew);
  }

  /** Receives one burst and compares its CRC; then everything before its first bus error is in the buffer. */
  method ReceiveBurst(t: Transfer, size: nat, from: nat, wordCount: nat, data: array<Word>,
                      ghost memory: nat -> Word, ghost start: nat, ghost gap: Gap, ghost skew: Skew)
    returns (status: Status)
    requires WordSize(size) && from <= wordCount <= data.Length && (skew.1 == 0 || skew.0 <= from)
    requires Honest(t, memory, WordAddress(start, from, size, skew), wordCount - from, size)
    requires Holds(data, from, memory, start, size, gap, skew)
    modifies data
    ensures forall k :: 0 <= k < data.Length && !(from <= k < wordCount) ==> data[k] == old(data[k])
    ensures status == Success ==> Holds(data, from + t.fault, memory, start, size, gap, skew)
    ensures status == Success ==> forall k :: from <= k < wordCount ==> data[k] == Cut(t.received[k - from], size)
    ensures Explains(status, t, size)
  {
    var crcCalc, complete := ReceiveWords(t, size, from, wordCount, data);
    if !complete {
      return MaxRetry;
    }
    CrcProtects(t, memory, WordAddress(start, from, size, skew), wordCount - from, size);
    if crcCalc != t.receivedCrc {
      return CrcError;
    }
    GoodPrefix(t, memory, start, from, wordCount - from, size, data, gap, skew);
    status := Success;
  }

  /** All words of a burst came, and they and the CRC were not changed. */
  predicate Passes(t: Transfer, size: nat)
    requires WordSize(size)
  {
    !TimedOut(t) && t.broken >= |t.received| && !Corrupted(t, size)
  }

  /** A failed burst is never a false alarm: the line was corrupted, or the words did not come. */
  predicate Explains(status: Status, t: Transfer, size: nat)
    requires WordSize(size)
  {
    match status
    case Success => Passes(t, size)
    case CrcError => Corrupted(t, size)
    case MaxRetry => TimedOut(t) || t.broken < |t.received|
    case MaxBusErrors | Astray => false
  }

  /** Command, data and CRC check of one burst, from word `i` on; `good` words are then right. */
  method TransferBurst(m: WishboneModule, size: nat, wordCount: nat, addr: nat, i: nat, data: array<Word>,
                       ghost start: nat, ghost gap: Gap, ghost skew: Skew)
    returns (status: Status, ghost good: nat)
    requires m.Faithful() && WordSize(size) && i < wordCount <= data.Length && wordCount < COUNT_LIMIT
    requires AddressOf(start, wordCount, size) <= ADDRESS_SPACE && skew.1 < size && (skew.1 == 0 || skew.0 <= i)
    requires addr == WordAddress(start, i, size, skew) && Holds(data, i, m.memory, start, size, gap, skew)
    modifies m, data
    ensures m.bursts == old(m.bursts) + 1 && m.last == BurstFor(m, old(m.bursts), size, addr, wordCount - i)
    ensures forall k :: 0 <= k < data.Length && !(i <= k < wordCount) ==> data[k] == old(data[k])
    ensures i <= good == i + m.last.fault <= wordCount && m.error.flag == (old(m.error.flag) || good < wordCount)
    ensures m.error.address == if !old(m.error.flag) && good < wordCount then WordAddress(start, good, size, skew)
                               else old(m.error.address)
    ensures status == Success ==> Holds(data, good, m.memory, start, size, gap, skew)
    ensures status == Success ==> forall k :: i <= k < wordCount ==> data[k] == Cut(m.last.received[k - i], size)
    ensures Explains(status, m.last, size)
  {
    hide Cut, Corrupted, TimedOut, Payload, Holds, AddressOf, Opcode, Explains, WishboneModule.Faithful, FailedAt;
    hide WordAddress, Honest;
    var count := wordCount - i;
    AddressFits(start, i, wordCount, size, skew);
    var t := SendBurstCommand(m, size, addr, count);
    HonestBurst(m, old(m.bursts), size, addr, count);
    good := i + t.fault;
    FaultAddress(start, i, t.fault, wordCount, size, skew);
    status := ReceiveBurst(t, size, i, wordCount, data, m.memory, start, gap, skew);
  }

  lemma AddressFits(start: nat, i: nat, n: nat, size: nat, skew: Skew)
    requires WordSize(size) && i < n && AddressOf(start, n, size) <= ADDRESS_SPACE && skew.1 < size
    ensures WordAddress(start, i, size, skew) < ADDRESS_SPACE
  {
    AddressInRange(start, i, n, size, skew.1);
  }

  lemma FaultAddress(start: nat, i: nat, fault: nat, n: nat, size: nat, skew: Skew)
    requires WordSize(size) && i + fault <= n && AddressOf(start, n, size) <= ADDRESS_SPACE
    requires skew.1 < size && (skew.1 == 0 || skew.0 <= i)
    ensures (i + fault < n ==> FailedAt(Done(WordAddress(start, i, size, skew), n - i, size, fault))
                               == WordAddress(start, i + fault, size, skew))
  {
    if i + fault < n {
      AddressesNest(start, i, fault, size, skew);
      AddressFits(start, i + fault, n, size, skew);
    }
  }

  lemma HonestBurst(m: WishboneModule, n: nat, size: nat, address: nat, count: nat)
    requires m.Faithful() && WordSize(size)
    ensures Honest(m.line(n, Opcode(size), address, count), m.memory, address, count, size)
    ensures BurstFor(m, n, size, address, count).fault <= count
  {
  }

  /** Burst number `n`, when it is for these words. */
  ghost function BurstFor(m: WishboneModule, n: nat, size: nat, address: nat, count: nat): (t: Transfer)
    requires m.Faithful() && WordSize(size)
    ensures |t.received| == count
  {
    assert Honest(m.line(n, Opcode(size), address, count), m.memory, address, count, size);
    m.line(n, Opcode(size), address, count)
  }

  /** An error left over from before tells of an address of this read. */
  ghost predicate OldWithin(r: ErrorRegister, size: nat, wordCount: nat, start: nat)
    requires WordSize(size)
  {
    r.flag && Within(start, wordCount, size, r.address)
  }

  /**
   The words an error left over from before makes the bridge skip: those between the first bus error of
   its own first burst and the old one.
   */
  ghost function Skipped(first: Transfer, r: ErrorRegister, size: nat, wordCount: nat, start: nat): Gap
    requires WordSize(size)
  {
    if OldWithin(r, size, wordCount, start) then (first.fault, Words(r.address - start, size)) else NO_GAP
  }

  /** The bytes by which it makes the bridge miss the addresses of the words after it. */
  ghost function Skewed(r: ErrorRegister, size: nat, wordCount: nat, start: nat): Skew
    requires WordSize(size)
  {
    if OldWithin(r, size, wordCount, start) then
      WithinIsSkewed(start, wordCount, size, r.address);
      (Words(r.address - start, size), r.address - AddressOf(start, Words(r.address - start, size), size))
    else NO_SKEW
  }

  lemma NothingHeld(data: array<Word>, memory: nat -> Word, start: nat, size: nat, gap: Gap)
    requires WordSize(size)
    ensures Holds(data, 0, memory, start, size, gap, NO_SKEW)
  {
  }

  lemma HeldFor(data: array<Word>, good: nat, n: nat, memory: nat -> Word, start: nat, size: nat, gap: Gap, skew: Skew)
    requires WordSize(size) && good <= data.Length && n <= data.Length
    requires Holds(data, good, memory, start, size, gap, NO_SKEW) && n <= skew.0 && gap == (good, n)
    ensures Holds(data, n, memory, start, size, gap, skew)
  {
  }

  lemma StartsPlain(first: Transfer, r: ErrorRegister, size: nat, wordCount: nat, start: nat)
    requires WordSize(size)
    ensures WordAddress(start, 0, size, NO_SKEW) == start && Skewed(r, size, wordCount, start).1 < size
    ensures (!OldWithin(r, size, wordCount, start)
             ==> Skipped(first, r, size, wordCount, start) == NO_GAP && Skewed(r, size, wordCount, start) == NO_SKEW)
  {
    if OldWithin(r, size, wordCount, start) {
      WithinIsSkewed(start, wordCount, size, r.address);
    }
  }

  /** Where an old error within the read makes it restart. */
  lemma OldRestart(first: Transfer, r: ErrorRegister, size: nat, wordCount: nat, start: nat)
    requires WordSize(size) && r.flag
    ensures (Within(start, wordCount, size, r.address)
             ==> var i := Words(r.address - start, size);
                 && i < wordCount && Skipped(first, r, size, wordCount, start) == (first.fault, i)
                 && Skewed(r, size, wordCount, start).0 == i
                 && WordAddress(start, i, size, Skewed(r, size, wordCount, start)) == r.address)
  {
    if Within(start, wordCount, size, r.address) {
      WithinIsSkewed(start, wordCount, size, r.address);
    }
  }

  /** Every word of the buffer is the word of memory it should be. */
  ghost predicate AllRight(data: array<Word>, n: nat, memory: nat -> Word, start: nat, size: nat)
    requires WordSize(size) && n <= data.Length
    reads data
  {
    Holds(data, n, memory, start, size, NO_GAP, NO_SKEW)
  }

  /** The words of the gap, as the first burst delivered them, and the words after it, although skewed, are right. */
  ghost predicate NoHarm(first: Transfer, n: nat, memory: nat -> Word, start: nat, size: nat, gap: Gap, skew: Skew)
    requires WordSize(size) && gap.1 <= n <= |first.received|
  {
    && (forall k :: gap.0 <= k < gap.1 ==>
          Cut(first.received[k], size) == Cut(memory(AddressOf(start, k, size)), size))
    && forall k :: skew.0 <= k < n ==>
      Cut(memory(AddressOf(start, k, size) + skew.1), size) == Cut(memory(AddressOf(start, k, size)), size)
  }

  lemma HarmDecides(data: array<Word>, first: Transfer, n: nat, memory: nat -> Word, start: nat, size: nat,
                    gap: Gap, skew: Skew)
    requires WordSize(size) && gap.1 <= n <= |first.received| && n <= data.Length && (skew.0 == gap.1 || skew.1 == 0)
    requires Holds(data, n, memory, start, size, gap, skew)
    requires forall k :: gap.0 <= k < gap.1 ==> data[k] == Cut(first.received[k], size)
    ensures AllRight(data, n, memory, start, size) <==> NoHarm(first, n, memory, start, size, gap, skew)
  {
    hide Cut, AddressOf;
    if NoHarm(first, n, memory, start, size, gap, skew) {
      forall k | 0 <= k < n ensures data[k] == Cut(memory(AddressOf(start, k, size)), size) {
        assert WordAddress(start, k, size, skew)
            == if skew.0 <= k then AddressOf(start, k, size) + skew.1 else AddressOf(start, k, size);
      }
    }
    if AllRight(data, n, memory, start, size) {
      forall k | 0 <= k < n ensures data[k] == Cut(memory(AddressOf(start, k, size)), size) {
        assert WordAddress(start, k, size, NO_SKEW) == AddressOf(start, k, size);
      }
    }
  }

  /**
   Reads `wordCount` words. If the error register was clear, success means that every word of the
   buffer equals memory, however often bus errors forced a restart in the middle, although the line may
   have corrupted any burst. If an old error was still there, for an address of this read, the words
   between the first bus error of the first burst and the old one are whatever that burst delivered, and
   all is well exactly if that does no harm; for any other address the read goes astray.
   */
  method Read(m: WishboneModule, size: nat, wordCount: int, start: nat, data: array<Word>, long: nat)
    returns (status: Status, ghost lastBurst: (nat, nat))
    requires m.Faithful() && WordSize(size) && wordCount <= data.Length && wordCount < COUNT_LIMIT && LongModulus(long)
    requires wordCount > 0 ==> AddressOf(start, wordCount, size) <= ADDRESS_SPACE
    modifies m, data
    ensures forall k :: 0 <= k < data.Length && k >= wordCount ==> data[k] == old(data[k])
    ensures m.bursts <= old(m.bursts) + 11
    ensures wordCount <= 0 ==> status == Success && m.bursts == old(m.bursts)
    ensures (wordCount > 0 && status == Success && !old(m.error).flag
             ==> AllRight(data, wordCount, m.memory, start, size))
    ensures (wordCount > 0 && status == Success
             ==> var first := BurstFor(m, old(m.bursts), size, start, wordCount);
                 var gap := Skipped(first, old(m.error), size, wordCount, start);
                 var skew := Skewed(old(m.error), size, wordCount, start);
                 && !m.error.flag && Holds(data, wordCount, m.memory, start, size, gap, skew)
                 && (forall k :: gap.0 <= k < gap.1 ==> data[k] == Cut(first.received[k], size))
                 && (AllRight(data, wordCount, m.memory, start, size)
                     <==> NoHarm(first, wordCount, m.memory, start, size, gap, skew)))
    ensures (wordCount > 0 && old(m.error).flag && !Within(start, wordCount, size, old(m.error).address)
             ==> status != Success && m.bursts == old(m.bursts) + 1
                 && (status == Astray <==> Passes(BurstFor(m, old(m.bursts), size, start, wordCount), size)))
    ensures status == Astray ==> old(m.error).flag && !Within(start, wordCount, size, old(m.error).address)
    ensures (status == MaxBusErrors
             ==> m.bursts == old(m.bursts) + 11 && m.last.fault < |m.last.received|
                 && m.error.flag && Within(start, wordCount, size, m.error.address))
    ensures wordCount > 0 && status != MaxBusErrors && status != Astray ==> Explains(status, m.last, size)
    ensures (wordCount > 0 ==> m.bursts > 0 && lastBurst.1 > 0
                               && m.last == BurstFor(m, m.bursts - 1, size, lastBurst.0, lastBurst.1))
  {
    hide Cut, Corrupted, TimedOut, Payload, Holds, Honest, WishboneModule.Faithful;
    hide AddressOf, Words, Opcode, BurstFor, Within, NoHarm, RestartIndex;
    lastBurst := (0, 0);
    if wordCount <= 0 {
      return Success, lastBurst;
    }
    ghost var was, first := m.error, BurstFor(m, m.bursts, size, start, wordCount);
    ghost var gap, skew := Skipped(first, was, size, wordCount, start), Skewed(was, size, wordCount, start);
    ghost var skewed := NO_SKEW;
    var i, addr := 0, start;
    var busErrorRetries := 0;
    NothingHeld(data, m.memory, start, size, gap);
    StartsPlain(first, was, size, wordCount, start);
    while true
      invariant 0 <= i < wordCount && busErrorRetries <= MAX_BUS_ERRORS && m.bursts == old(m.bursts) + busErrorRetries
      invariant busErrorRetries == 0 ==> i == 0 && m.error == was && skewed == NO_SKEW
      invariant busErrorRetries > 0 ==> !m.error.flag && gap.1 <= i && skewed == skew && (skew.1 == 0 || skew.0 <= i)
      invariant busErrorRetries > 0 && was.flag ==> Within(start, wordCount, size, was.address)
      invariant skew.1 < size && addr == WordAddress(start, i, size, skewed)
      invariant Holds(data, i, m.memory, start, size, gap, skewed)
      invariant busErrorRetries > 0 ==> forall k :: gap.0 <= k < gap.1 ==> data[k] == Cut(first.received[k], size)
      invariant forall k :: wordCount <= k < data.Length ==> data[k] == old(data[k])
      decreases MAX_BUS_ERRORS - busErrorRetries
    {
      lastBurst := (addr, wordCount - i);
      var burstStatus, good := TransferBurst(m, size, wordCount, addr, i, data, start, gap, skewed);
      if burstStatus != Success {
        return burstStatus, lastBurst;
      }
      var failed, errAddr := CheckBusError(m);
      if !failed {
        HarmDecides(data, first, wordCount, m.memory, start, size, gap, skew);
        return Success, lastBurst;
      }
      if busErrorRetries == 0 && was.flag {
        OldRestart(first, was, size, wordCount, start);
        if Within(start, wordCount, size, was.address) {
          HeldFor(data, good, gap.1, m.memory, start, size, gap, skew);
          skewed := skew;
        }
      } else {
        AddressInRange(start, good, wordCount, size, if skewed.0 <= good then skewed.1 else 0);
        skewed := skew;
      }
      addr := errAddr;
      i := RestartIndex(long, start, addr, size);
      RestartsWithin(long, start, wordCount, size, addr);
      busErrorRetries := busErrorRetries + 1;
      if busErrorRetries > MAX_BUS_ERRORS {
        return MaxBusErrors, lastBurst;
      }
      m.ClearError();
      if i < 0 || i >= wordCount {
        return Astray, lastBurst;
      }
    }
  }

  // ---------- What an old error can hide ----------

  function BusWord(memory: nat -> Word, address: nat, size: nat, good: bool): Word
    requires WordSize(size)
  {
    Cut(if good then memory(address) else Not(memory(address)), size)
  }

  /** A burst that nothing disturbs on the line; from word `fault` on, the bus gives inverted words. */
  function CleanTransfer(memory: nat -> Word, address: nat, count: nat, size: nat, fault: nat): (t: Transfer)
    requires WordSize(size) && fault <= count
    ensures |t.sent| == |t.received| == |t.waits| == count == t.broken
    ensures !TimedOut(t) && !Corrupted(t, size) && Honest(t, memory, address, count, size) && t.fault == fault
    ensures forall j :: 0 <= j < count ==>
      t.received[j] == BusWord(memory, AddressOf(address, j, size), size, j < fault)
  {
    var words: seq<Word> := seq(count, j requires 0 <= j < count =>
      BusWord(memory, AddressOf(address, j, size), size, j < fault));
    var sent := seq(count, j requires 0 <= j < count => words[j][..8 * size]);
    var t := Transfer(sent, fault, seq(count, _ => 0), words, UnitCrc(Flat(sent)), count);
    assert Payload(t, size) == t.sent;
    NoDifference(Flat(t.sent) + SentCrc(t));
    t
  }

  lemma NoDifference(bits: Bits)
    ensures BurstAt(XorBits(bits, bits), 0)
  {
  }

  /** A clean line, and a bus error in the very first word of the first burst only. */
  function FirstWordFails(memory: nat -> Word): (nat, nat, nat, nat) -> Transfer {
    (n: nat, opcode: nat, address: nat, count: nat) =>
      CleanTransfer(memory, address, count, SizeOf(opcode), if n == 0 then 0 else count)
  }

  lemma FirstWordFailsIs(memory: nat -> Word, n: nat, size: nat, address: nat, count: nat)
    requires WordSize(size)
    ensures (FirstWordFails(memory)(n, Opcode(size), address, count)
             == CleanTransfer(memory, address, count, size, if n == 0 then 0 else count))
  {
    assert SizeOf(Opcode(size)) == size;
  }

  /** A module on such a line, with an old error in its register. */
  method ModuleWithOldError(memory: nat -> Word, address: Address) returns (m: WishboneModule)
    ensures fresh(m) && m.Faithful() && m.memory == memory && m.line == FirstWordFails(memory)
    ensures m.error == ErrorRegister(true, address) && m.bursts == 0
  {
    m := new WishboneModule(memory, FirstWordFails(memory), ErrorRegister(true, address));
    hide CleanTransfer;
    forall n: nat, size: nat, address: nat, count: nat | WordSize(size)
      ensures Honest(m.line(n, Opcode(size), address, count), memory, address, count, size)
    {
      FirstWordFailsIs(memory, n, size, address, count);
    }
  }

  /** What reading on from an old error in the first word finds. */
  ghost predicate SameSkewed(memory: nat -> Word, n: nat, start: nat, size: nat, extra: nat)
    requires WordSize(size)
  {
    forall k :: 0 <= k < n ==>
      Cut(memory(AddressOf(start, k, size) + extra), size) == Cut(memory(AddressOf(start, k, size)), size)
  }

  /**
   An old error within the read is harmless, whatever the first burst delivers, exactly when it is in the
   first word and reading on from it, aligned or not, finds the same words.
   */
  lemma HarmlessIff(r: ErrorRegister, memory: nat -> Word, n: nat, start: nat, size: nat)
    requires WordSize(size) && OldWithin(r, size, n, start)
    ensures ((forall first: Transfer :: Honest(first, memory, start, n, size) && Passes(first, size)
                ==> HarmlessFor(first, r, memory, n, start, size))
             <==> Words(r.address - start, size) == 0 && SameSkewed(memory, n, start, size, r.address - start))
  {
    hide NoHarm, Skipped, Skewed;
    forall first: Transfer | Honest(first, memory, start, n, size)
      ensures Words(r.address - start, size) == 0 ==>
                (HarmlessFor(first, r, memory, n, start, size)
                 <==> SameSkewed(memory, n, start, size, r.address - start))
    {
      if Words(r.address - start, size) == 0 {
        FirstWordHarm(first, r, memory, n, start, size);
      }
    }
    var worst := CleanTransfer(memory, start, n, size, 0);
    assert Honest(worst, memory, start, n, size) && Passes(worst, size);
    if Words(r.address - start, size) >= 1 {
      Misled(worst, r, memory, size, n, start);
    }
  }

  lemma FirstAddress(start: nat, size: nat)
    requires WordSize(size)
    ensures AddressOf(start, 0, size) == start
  {
  }

  /** What an old error does to the words, once the first burst has delivered `first`. */
  ghost predicate HarmlessFor(first: Transfer, r: ErrorRegister, memory: nat -> Word, n: nat, start: nat, size: nat)
    requires WordSize(size) && OldWithin(r, size, n, start) && |first.received| == n
  {
    WithinIsSkewed(start, n, size, r.address);
    NoHarm(first, n, memory, start, size, Skipped(first, r, size, n, start), Skewed(r, size, n, start))
  }

  lemma FirstWordHarm(first: Transfer, r: ErrorRegister, memory: nat -> Word, n: nat, start: nat, size: nat)
    requires WordSize(size) && OldWithin(r, size, n, start) && |first.received| == n
    requires Words(r.address - start, size) == 0
    ensures (HarmlessFor(first, r, memory, n, start, size)
             <==> SameSkewed(memory, n, start, size, r.address - start))
  {
    hide Cut, AddressOf, Words, Within;
    WithinIsSkewed(start, n, size, r.address);
    FirstAddress(start, size);
    var gap, skew := Skipped(first, r, size, n, start), Skewed(r, size, n, start);
    assert gap.1 == 0 && skew == (0, r.address - start);
  }

  /** An old error of the very address at which the read starts is always harmless. */
  lemma HarmlessAtStart(first: Transfer, r: ErrorRegister, memory: nat -> Word, n: nat, start: nat, size: nat)
    requires WordSize(size) && OldWithin(r, size, n, start) && |first.received| == n && r.address == start
    ensures HarmlessFor(first, r, memory, n, start, size)
  {
    FirstWordHarm(first, r, memory, n, start, size);
  }

  lemma WorstWordDiffers(w: Word, size: nat)
    requires WordSize(size)
    ensures Cut(Cut(Not(w), size), size) != Cut(w, size)
  {
    assert Cut(Cut(Not(w), size), size)[0] != Cut(w, size)[0];
  }

  /** With an old error for any word but the first, some line makes a read that succeeds deliver a wrong word. */
  method OldErrorMisleads(memory: nat -> Word, size: nat, count: nat, start: nat, address: Address,
                          data: array<Word>, long: nat)
    returns (status: Status)
    requires WordSize(size) && 0 < count <= data.Length && count < COUNT_LIMIT && LongModulus(long)
    requires AddressOf(start, count, size) <= ADDRESS_SPACE
    requires Within(start, count, size, address) && Words(address - start, size) >= 1
    modifies data
    ensures status == Success && !AllRight(data, count, memory, start, size)
  {
    hide CleanTransfer, Cut, Not, AllRight, NoHarm, Holds, AddressOf;
    var m := ModuleWithOldError(memory, address);
    FirstWordFailsIs(memory, 0, size, start, count);
    ghost var first, lastBurst := BurstFor(m, 0, size, start, count), (0, 0);
    status, lastBurst := Read(m, size, count, start, data, long);
    FirstWordFailsIs(memory, m.bursts - 1, size, lastBurst.0, lastBurst.1);
    Misled(first, ErrorRegister(true, address), memory, size, count, start);
  }

  /** The words of the gap are wrong when the bus failed on all of them. */
  lemma Misled(first: Transfer, r: ErrorRegister, memory: nat -> Word, size: nat, n: nat, start: nat)
    requires WordSize(size) && OldWithin(r, size, n, start) && first == CleanTransfer(memory, start, n, size, 0)
    requires Words(r.address - start, size) >= 1
    ensures !HarmlessFor(first, r, memory, n, start, size)
  {
    hide Cut, AddressOf, CleanTransfer;
    WithinIsSkewed(start, n, size, r.address);
    WorstWordDiffers(memory(AddressOf(start, 0, size)), size);
    assert first.received[0] == BusWord(memory, AddressOf(start, 0, size), size, false);
  }

  /** With an old error from elsewhere, the same read goes astray: its index, 0x400, is outside the buffer. */
  method OldErrorElsewhere(memory: nat -> Word, data: array<Word>, long: nat) returns (status: Status)
    requires data.Length == 2 && LongModulus(long)
    modifies data
    ensures status == Astray && RestartIndex(long, 0, 0x1000, 4) == 0x400
  {
    hide CleanTransfer;
    var m := ModuleWithOldError(memory, 0x1000);
    FirstWordFailsIs(memory, 0, 4, 0, 2);
    ghost var lastBurst;
    status, lastBurst := Read(m, 4, 2, 0, data, long);
    Remainder(long, 0x1000);
  }
}
