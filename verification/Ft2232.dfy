/**
 The FT2232 cable: bit streams cut into the byte, bit and TMS commands of the chip's serial engine,
 buffered on their way out, and the replies put together again.
 */
module Ft2232 {
  import opened BitWords
  import opened ScanChain
  import opened ChainCommands
  import opened Sequences

  type Octet = b: Bits | |b| == 8 witness seq(8, _ => false)

  const FTDX_MAXSEND := 4096
  const FTDI_MAXRECV := 4 * 64
  const MAX_CHUNK := 65536

  /** The flags of an opcode, by bit: what the driver combines. */
  const MPSSE_WRITE_NEG := 0
  const MPSSE_BITMODE := 1
  const MPSSE_LSB := 3
  const MPSSE_DO_WRITE := 4
  const MPSSE_DO_READ := 5
  const MPSSE_WRITE_TMS := 6

  function Flags(bits: set<int>): Octet {
    seq(8, i requires 0 <= i < 8 => i in bits)
  }

  const WRITE_BYTES: Octet := Flags({MPSSE_DO_WRITE, MPSSE_LSB, MPSSE_WRITE_NEG})
  const WRITE_BITS: Octet := Flags({MPSSE_DO_WRITE, MPSSE_LSB, MPSSE_WRITE_NEG, MPSSE_BITMODE})
  const WRITE_TMS: Octet := Flags({MPSSE_WRITE_TMS, MPSSE_LSB, MPSSE_BITMODE, MPSSE_WRITE_NEG})

  /**
   The commands that the chip takes, 0x19, 0x1b and 0x4b, without the bit for reading: bytes or bits, least
   significant first, changing on the falling edge; and bits on TMS.
   */
  const CHIP_BYTES: Octet := [true, false, false, true, true, false, false, false]
  const CHIP_BITS: Octet := [true, true, false, true, true, false, false, false]
  const CHIP_TMS: Octet := [true, true, false, true, false, false, true, false]

  /** The driver's opcodes are these. */
  lemma OpcodesUnderstood(read: bool)
    ensures Opcode(WRITE_BYTES, read)[5 := false] == CHIP_BYTES && Opcode(WRITE_BYTES, read)[5] == read
    ensures Opcode(WRITE_BITS, read)[5 := false] == CHIP_BITS && Opcode(WRITE_BITS, read)[5] == read
    ensures Opcode(WRITE_TMS, read)[5 := false] == CHIP_TMS && Opcode(WRITE_TMS, read)[5] == read
  {
  }

  function Opcode(op: Octet, read: bool): Octet {
    op[MPSSE_DO_READ := read]
  }

  // ---------- What the chip does with a command stream ----------

  /** The bits of octets, least significant first. */
  function OctetBits(octets: seq<Octet>, n: nat): (b: Bits)
    requires n <= 8 * |octets|
    ensures |b| == n
  {
    seq(n, i requires 0 <= i < n => octets[i / 8][i % 8])
  }

  /** Samples enter a reply octet from the top. */
  function TopAligned(bits: Bits): (o: Octet)
    requires |bits| <= 8
  {
    Zeros(8 - |bits|) + bits
  }

  /** Samples returned `size` to an octet. */
  function Chunked(bits: Bits, size: nat): seq<Octet>
    requires 1 <= size <= 8
    decreases |bits|
  {
    if bits == [] then []
    else if |bits| <= size then [TopAligned(bits)]
    else [TopAligned(bits[..size])] + Chunked(bits[size..], size)
  }

  function ChunkLength(low: Bits, high: Bits): nat {
    ToNat(low + high) + 1
  }

  /** The first command of a stream: how many octets it takes, what it clocks, and what it returns. */
  datatype Command = Stuck | Command(size: nat, pins: seq<Pins>, read: bool)

  function FirstCommand(s: seq<Octet>): (c: Command)
    ensures c.Command? ==> 0 < c.size <= |s|
  {
    if |s| < 3 then Stuck
    else
      var op, read := s[0][5 := false], s[0][5];
      if op == CHIP_BYTES then
        var n := ChunkLength(s[1], s[2]);
        if |s| < 3 + n then Stuck else Command(3 + n, DataPins(OctetBits(s[3..3 + n], 8 * n), false), read)
      else if op == CHIP_BITS && ToNat(s[1]) < 8 then
        Command(3, DataPins(s[2][..ToNat(s[1]) + 1], false), read)
      else if op == CHIP_TMS && ToNat(s[1]) < 7 then
        var n := ToNat(s[1]) + 1;
        Command(3, seq(n, i requires 0 <= i < n => Pins(s[2][i], s[2][7])), read)
      else Stuck
  }

  /** The commands of a stream, up to the first octets that are none. */
  function Parse(s: seq<Octet>): seq<Command>
    decreases |s|
  {
    if s == [] then []
    else
      var cmd := FirstCommand(s);
      if cmd == Stuck then [Stuck] else [cmd] + Parse(s[cmd.size..])
  }

  predicate WellFormed(s: seq<Octet>) {
    Stuck !in Parse(s)
  }

  lemma FirstCommandStays(a: seq<Octet>, b: seq<Octet>)
    requires FirstCommand(a).Command?
    ensures FirstCommand(a + b) == FirstCommand(a)
  {
    var n := FirstCommand(a).size;
    assert (a + b)[3..n] == a[3..n];
    assert forall i :: 0 <= i < |a| ==> (a + b)[i] == a[i];
  }

  lemma ParseStep(a: seq<Octet>, b: seq<Octet>) returns (n: nat, cmd: Command)
    requires WellFormed(a) && a != []
    ensures 0 < n <= |a| && cmd != Stuck && WellFormed(a[n..])
    ensures Parse(a) == [cmd] + Parse(a[n..]) && Parse(a + b) == [cmd] + Parse(a[n..] + b)
  {
    cmd := FirstCommand(a);
    assert Parse(a)[0] == cmd;
    n := cmd.size;
    assert forall c :: c in Parse(a[n..]) ==> c in Parse(a);
    FirstCommandStays(a, b);
    assert (a + b)[n..] == a[n..] + b;
  }

  /** Streams of whole commands are understood one after the other. */
  lemma {:induction false} ParseAppend(a: seq<Octet>, b: seq<Octet>)
    requires WellFormed(a)
    ensures Parse(a + b) == Parse(a) + Parse(b)
    decreases |a|
  {
    if a == [] {
      assert a + b == b;
    } else {
      var n, cmd := ParseStep(a, b);
      ParseAppend(a[n..], b);
      ConsAppend(cmd, Parse(a[n..]), Parse(b));
    }
  }

  /** The chain once the chip has run commands, and the octets it returns. */
  function Perform(c: Chain, cmds: seq<Command>): (r: (Chain, seq<Octet>))
    requires c.Valid() && Stuck !in cmds
    ensures r.0.Valid()
    decreases |cmds|
  {
    if cmds == [] then (c, [])
    else
      assert cmds[0] in cmds;
      var (last, replies) := Perform(Run(c, cmds[0].pins), cmds[1..]);
      (last, Reply(c, cmds[0]) + replies)
  }

  function Reply(c: Chain, cmd: Command): seq<Octet>
    requires c.Valid() && cmd.Command?
  {
    if cmd.read then Chunked(TdoRun(c, cmd.pins), 8) else []
  }

  lemma {:induction false} PerformSnoc(c: Chain, cmds: seq<Command>, cmd: Command)
    requires c.Valid() && Stuck !in cmds && cmd.Command?
    ensures var (mid, replies) := Perform(c, cmds);
            Perform(c, cmds + [cmd]) == (Run(mid, cmd.pins), replies + Reply(mid, cmd))
    decreases |cmds|
  {
    if cmds == [] {
      assert (cmds + [cmd])[1..] == [];
      assert Reply(c, cmd) + [] == [] + Reply(c, cmd);
    } else {
      assert cmds[0] in cmds;
      assert (cmds + [cmd])[1..] == cmds[1..] + [cmd];
      PerformSnoc(Run(c, cmds[0].pins), cmds[1..], cmd);
      var (mid, replies) := Perform(Run(c, cmds[0].pins), cmds[1..]);
      AppendAssociates(Reply(c, cmds[0]), replies, Reply(mid, cmd));
    }
  }

  // ---------- Commands ----------

  /** Data bits, each with the same level on TMS. */
  function BitPins(bits: Bits, tms: bool): (pins: seq<Pins>)
    ensures |pins| == |bits|
  {
    seq(|bits|, i requires 0 <= i < |bits| => Pins(tms, bits[i]))
  }

  lemma LengthFields(n: nat)
    requires 1 <= n <= MAX_CHUNK
    ensures ChunkLength(NatBits(n - 1, 16)[..8], NatBits(n - 1, 16)[8..]) == n
  {
    Pow2Values();
    NumberRoundTrip(n - 1, 16);
    assert NatBits(n - 1, 16)[..8] + NatBits(n - 1, 16)[8..] == NatBits(n - 1, 16);
  }

  function BytesCommand(data: seq<Octet>, read: bool): seq<Octet>
    requires 1 <= |data| <= MAX_CHUNK
  {
    var length := NatBits(|data| - 1, 16);
    var low: Octet, high: Octet := length[..8], length[8..];
    [Opcode(WRITE_BYTES, read), low, high] + data
  }

  /** A stream that is one command. */
  lemma ParseOne(s: seq<Octet>, cmd: Command)
    requires FirstCommand(s) == cmd && cmd.Command? && cmd.size == |s|
    ensures Parse(s) == [cmd]
  {
    hide FirstCommand;
    assert s[|s|..] == [];
  }

  lemma BytesUnderstood(data: seq<Octet>, read: bool)
    requires 1 <= |data| <= MAX_CHUNK
    ensures (Parse(BytesCommand(data, read))
             == [Command(3 + |data|, BitPins(OctetBits(data, 8 * |data|), false), read)])
  {
    hide Parse, Flags, Opcode, NatBits, ToNat, OctetBits, ChunkLength;
    var s := BytesCommand(data, read);
    var pins := BitPins(OctetBits(data, 8 * |data|), false);
    LengthFields(|data|);
    OpcodesUnderstood(read);
    assert s[3..3 + |data|] == data;
    assert DataPins(OctetBits(data, 8 * |data|), false) == pins;
    assert FirstCommand(s) == Command(3 + |data|, pins, read);
    ParseOne(s, Command(3 + |data|, pins, read));
  }

  function BitsCommand(octet: Octet, n: nat, read: bool): seq<Octet>
    requires 1 <= n <= 8
  {
    [Opcode(WRITE_BITS, read), NatBits(n - 1, 8), octet]
  }

  lemma BitsUnderstood(octet: Octet, n: nat, read: bool)
    requires 1 <= n <= 8
    ensures Parse(BitsCommand(octet, n, read)) == [Command(3, BitPins(octet[..n], false), read)]
  {
    var s := BitsCommand(octet, n, read);
    assert Pow2(3) == 8;
    Pow2Add(3, 5);
    NumberRoundTrip(n - 1, 8);
    OpcodesUnderstood(read);
    assert DataPins(octet[..n], false) == BitPins(octet[..n], false);
    assert s[3..] == [];
  }

  /** One clock with TMS high, in bit 0, and the data bit in bit 7. */
  function TmsCommand(bit: bool, read: bool): seq<Octet> {
    var data: Octet := [true, false, false, false, false, false, false, bit];
    [Opcode(WRITE_TMS, read), NatBits(0, 8), data]
  }

  lemma TmsUnderstood(bit: bool, read: bool)
    ensures Parse(TmsCommand(bit, read)) == [Command(3, BitPins([bit], true), read)]
  {
    hide Parse, Flags, Opcode, NatBits;
    var s := TmsCommand(bit, read);
    OpcodesUnderstood(read);
    NumberRoundTrip(0, 8);
    assert FirstCommand(s).pins == BitPins([bit], true);
    ParseOne(s, Command(3, BitPins([bit], true), read));
  }

  // ---------- Replies ----------

  lemma {:induction false} ChunkCount(bits: Bits)
    ensures |Chunked(bits, 8)| == (|bits| + 7) / 8
    decreases |bits|
  {
    if |bits| > 8 {
      ChunkCount(bits[8..]);
    }
  }

  /** Whole octets first: the chunks of a concatenation. */
  lemma {:induction false} ChunkedAppend(a: Bits, b: Bits, size: nat)
    requires 1 <= size <= 8 && |a| % size == 0
    ensures Chunked(a + b, size) == Chunked(a, size) + Chunked(b, size)
    decreases |a|
  {
    if a == [] {
      assert a + b == b;
    } else {
      assert |a| >= size && (|a| - size) % size == 0;
      assert (a + b)[..size] == a[..size] && (a + b)[size..] == a[size..] + b;
      ChunkedAppend(a[size..], b, size);
      ChunkedSplit(a, size);
      ChunkedSplit(a + b, size);
      ConsAppend(TopAligned(a[..size]), Chunked(a[size..], size), Chunked(b, size));
    }
  }

  lemma ChunkedSplit(a: Bits, size: nat)
    requires 1 <= size <= 8 && |a| >= size
    ensures Chunked(a, size) == [TopAligned(a[..size])] + Chunked(a[size..], size)
  {
    if |a| == size {
      assert a[..size] == a && a[size..] == [];
    }
  }

  lemma ChunkedOne(a: Bits, size: nat)
    requires 1 <= |a| <= size <= 8
    ensures Chunked(a, size) == Chunked(a, 8) == [TopAligned(a)]
  {
  }

  lemma CommandAppended(c: Chain, s: seq<Octet>, buf: seq<Octet>, cmd: Command)
    requires c.Valid() && WellFormed(s) && Parse(buf) == [cmd] && cmd.Command?
    ensures WellFormed(s + buf)
    ensures var (mid, replies) := Perform(c, Parse(s));
            Perform(c, Parse(s + buf)) == (Run(mid, cmd.pins), replies + Reply(mid, cmd))
  {
    ParseAppend(s, buf);
    PerformSnoc(c, Parse(s), cmd);
  }

  // ---------- The cable ----------

  /** The chain when everything buffered has been run, and the octets that will then be there to read. */
  type Future = (Chain, seq<Octet>)

  ghost function Advanced(f: Future, pins: seq<Pins>, read: bool, size: nat): Future
    requires f.0.Valid() && 1 <= size <= 8
  {
    (Run(f.0, pins), f.1 + if read then Chunked(TdoRun(f.0, pins), size) else [])
  }

  lemma AdvancedTwice(f: Future, a: seq<Pins>, b: seq<Pins>, read: bool, size: nat)
    requires f.0.Valid() && 1 <= size <= 8 && |a| % size == 0
    ensures Advanced(Advanced(f, a, read, size), b, read, size) == Advanced(f, a + b, read, size)
  {
    RunAppend(f.0, a, b);
    TdoRunAppend(f.0, a, b);
    var tdo, more := TdoRun(f.0, a), TdoRun(Run(f.0, a), b);
    ChunkedAppend(tdo, more, size);
    if read {
      AppendAssociates(f.1, Chunked(tdo, size), Chunked(more, size));
    } else {
      AppendAssociates(f.1, [], []);
    }
  }

  /** The effect of a bit stream: TMS rises with the last bit on request, and that bit is sampled by itself. */
  ghost function Streamed(f: Future, bits: Bits, read: bool, tms: bool): Future
    requires f.0.Valid()
  {
    var pins := DataPins(bits, tms);
    (Run(f.0, pins), f.1 + if read then Replies(TdoRun(f.0, pins), tms) else [])
  }

  /** The octets in which the samples of a bit stream come back. */
  function Replies(tdo: Bits, tms: bool): seq<Octet> {
    if tms && tdo != [] then Chunked(tdo[..|tdo| - 1], 8) + [TopAligned(tdo[|tdo| - 1..])] else Chunked(tdo, 8)
  }

  class Cable {
    var chain: Chain
    var sendBuf: seq<Octet>
    var toRecv: nat
    var recvBuf: seq<Octet>

    /** As many octets are scheduled to be read as the chip will return. */
    ghost predicate Valid()
      reads this
    {
      chain.Valid() && WellFormed(sendBuf) && toRecv == |Perform(chain, Parse(sendBuf)).1|
    }

    ghost function Coming(): (f: Future)
      requires Valid()
      reads this
      ensures f.0.Valid()
    {
      var (last, replies) := Perform(chain, Parse(sendBuf));
      (last, recvBuf + replies)
    }

    constructor (chain: Chain)
      requires chain.Valid()
      ensures Valid() && Coming() == (chain, [])
    {
      this.chain, sendBuf, toRecv, recvBuf := chain, [], 0, [];
      new;
      NothingSent();
    }

    /** Sends what is buffered and reads what is scheduled. */
    method Flush()
      requires Valid()
      modifies this
      ensures Valid() && Coming() == old(Coming()) == (chain, recvBuf) && sendBuf == [] && toRecv == 0
    {
      if sendBuf == [] {
        NothingSent();
        return;
      }
      var (last, replies) := Perform(chain, Parse(sendBuf));
      chain, sendBuf := last, [];
      recvBuf, toRecv := recvBuf + replies[..toRecv], 0;
      assert replies[..|replies|] == replies;
      NothingSent();
    }

    lemma NothingSent()
      requires chain.Valid() && sendBuf == [] && toRecv == 0
      ensures Valid() && Coming() == (chain, recvBuf)
    {
      assert Parse(sendBuf) == [];
      assert recvBuf + [] == recvBuf;
    }

    /**
     Buffers one command, with the number of octets it will return. No more than 256 octets are scheduled unless
     it takes more by itself, and writes alone are sent when there are more than 4096 octets of them.
     */
    method Write(buf: seq<Octet>, recv: nat, ghost cmd: Command)
      requires Valid() && Parse(buf) == [cmd] && cmd.Command?
      requires recv == if cmd.read then (|cmd.pins| + 7) / 8 else 0
      modifies this
      ensures Valid() && Coming() == Advanced(old(Coming()), cmd.pins, cmd.read, 8)
      ensures toRecv <= 256 || (toRecv == recv && sendBuf == buf)
      ensures old(toRecv) == 0 && |old(sendBuf)| > 4096 ==> sendBuf == buf
    {
      if toRecv + recv > FTDI_MAXRECV || (|sendBuf| > FTDX_MAXSEND && toRecv == 0) {
        Flush();
      }
      ghost var (mid, replies) := Perform(chain, Parse(sendBuf));
      CommandAppended(chain, sendBuf, buf, cmd);
      ChunkCount(TdoRun(mid, cmd.pins));
      AppendAssociates(recvBuf, replies, Reply(mid, cmd));
      sendBuf, toRecv := sendBuf + buf, toRecv + recv;
    }

    method WriteChunk(data: seq<Octet>, postread: bool)
      requires Valid() && 1 <= |data| <= MAX_CHUNK
      modifies this
      ensures Valid()
      ensures Coming() == Advanced(old(Coming()), BitPins(OctetBits(data, 8 * |data|), false), postread, 8)
    {
      BytesUnderstood(data, postread);
      ghost var pins := BitPins(OctetBits(data, 8 * |data|), false);
      Write(BytesCommand(data, postread), if postread then |data| else 0, Command(3 + |data|, pins, postread));
    }

    method WriteBytes(buf: seq<Octet>, len: nat, postread: bool)
      requires Valid() && len <= |buf|
      modifies this
      ensures Valid()
      ensures Coming() == Advanced(old(Coming()), BitPins(OctetBits(buf, 8 * len), false), postread, 8)
    {
      hide Run, Perform, Parse, FirstCommand;
      ghost var start, done: nat := Coming(), 0;
      var left: nat, rest := len, buf;
      NothingAdvanced(start, postread, 8);
      assert BitPins(OctetBits(buf, 0), false) == [];
      while left > 0
        invariant done + left == len && rest == buf[done..]
        invariant Valid() && Coming() == Advanced(start, BitPins(OctetBits(buf, 8 * done), false), postread, 8)
      {
        var chunk := if left < MAX_CHUNK then left else MAX_CHUNK;
        left := left - chunk;
        WriteChunk(rest[..chunk], postread);
        assert rest[..chunk] == buf[done..done + chunk];
        BytesInSeries(start, buf, done, chunk, postread);
        done := done + chunk;
        rest := rest[chunk..];
      }
    }

    /** Up to eight bits of one octet, or one with TMS high. */
    method WriteFew(octet: Octet, from: nat, n: nat, postread: bool, withTms: bool)
      requires Valid() && 1 <= n && from + n <= 8 && (if withTms then n == 1 else from == 0)
      modifies this
      ensures Valid()
      ensures var pins, size := BitPins(octet[from..from + n], withTms), if withTms then 1 else 8;
              Coming() == Advanced(old(Coming()), pins, postread, size)
    {
      ghost var bits := octet[from..from + n];
      ghost var cmd := Command(3, BitPins(bits, withTms), postread);
      ChunkedOne(TdoRun(Coming().0, cmd.pins), if withTms then 1 else 8);
      if !withTms {
        BitsUnderstood(octet, n, postread);
        Write(BitsCommand(octet, n, postread), if postread then 1 else 0, cmd);
      } else {
        assert bits == [octet[from]];
        TmsUnderstood(octet[from], postread);
        Write(TmsCommand(octet[from], postread), if postread then 1 else 0, cmd);
      }
    }

    method WriteNext(buf: seq<Octet>, i: nat, n: nat, postread: bool, withTms: bool, ghost start: Future)
      requires Valid() && start.0.Valid() && i + n <= 8 * |buf| && Wrote(start, Coming(), buf, i, postread, withTms)
      requires 1 <= n <= 8 && (if withTms then n == 1 else i % 8 == 0)
      modifies this
      ensures Valid() && Wrote(start, Coming(), buf, i + n, postread, withTms)
    {
      hide Run, Perform, Parse, FirstCommand;
      FewInSeries(start, buf, i, n, postread, withTms);
      WriteFew(buf[i / 8], i % 8, n, postread, withTms);
    }

    method WriteBits(buf: seq<Octet>, len: nat, postread: bool, withTms: bool)
      requires Valid() && len <= 8 * |buf|
      modifies this
      ensures Valid() && Wrote(old(Coming()), Coming(), buf, len, postread, withTms)
    {
      hide *;
      ghost var start, done: nat := Coming(), 0;
      var left: nat, i: nat := len, 0;
      NothingWritten(start, buf, postread, withTms);
      while left > 0
        invariant done + left == len && (left > 0 ==> i == done) && (withTms || i % 8 == 0)
        invariant Valid() && Wrote(start, Coming(), buf, done, postread, withTms)
      {
        var chunk := if withTms then 1 else if left < 8 then left else 8;
        WriteNext(buf, i, chunk, postread, withTms, start);
        left, done := left - chunk, done + chunk;
        i := i + if withTms then 1 else 8;
      }
    }

    /** Whole octets, then the bits left over, then on request the last bit with TMS high. */
    method WriteStream(buf: seq<Octet>, len: nat, postread: bool, withTms: bool)
      requires Valid() && len <= 8 * |buf| && (withTms ==> len >= 1)
      modifies this
      ensures Valid() && Coming() == Streamed(old(Coming()), OctetBits(buf, len), postread, withTms)
    {
      hide Run, Perform, Parse, FirstCommand, Advanced, Streamed, Cable.Valid, Cable.Coming;
      var lenTmsBits := if withTms then 1 else 0;
      var lenBytes, lenBits := (len - lenTmsBits) / 8, (len - lenTmsBits) % 8;
      ghost var start := Coming();
      NothingAdvanced(start, postread, 8);
      assert BitPins(OctetBits(buf, 0), false) == [];
      if lenBytes > 0 {
        WriteBytes(buf, lenBytes, postread);
      }
      assert Coming() == Advanced(start, BitPins(OctetBits(buf, 8 * lenBytes), false), postread, 8);
      if lenBits > 0 {
        WriteBits(buf[lenBytes..], lenBits, postread, false);
        BitsAfterBytes(start, buf, lenBytes, lenBits, postread);
      }
      assert Coming() == Advanced(start, BitPins(OctetBits(buf, 8 * lenBytes + lenBits), false), postread, 8);
      if lenTmsBits > 0 {
        var mybuf := ShrOctet(buf[lenBytes], lenBits);
        WriteBits([mybuf], 1, postread, true);
        LastBit(start, buf, len, postread);
        assert OctetBits([mybuf], 1) == [OctetBits(buf, len)[len - 1]];
      } else {
        NoLastBit(start, buf, len, postread);
      }
    }

    /**
     Takes octets that have come back, after sending whatever is still buffered. When fewer have come than
     are asked for, the driver polls the chip for the others, which never come: it is left waiting.
     */
    method Read(len: nat) returns (data: seq<Octet>, waiting: bool)
      requires Valid()
      modifies this
      ensures Valid() && (waiting <==> len > |old(Coming()).1|)
      ensures data == if waiting then old(Coming()).1 else old(Coming()).1[..len]
      ensures Coming() == (old(Coming()).0, old(Coming()).1[|data|..])
    {
      hide Perform, Parse;
      Flush();
      var n := if len < |recvBuf| then len else |recvBuf|;
      waiting := n < len;
      data := recvBuf[..n];
      assert n == |recvBuf| ==> data == recvBuf;
      recvBuf := recvBuf[n..];
      NothingSent();
    }

    /** Reads octets that carry `bits` samples each, and puts the samples at bit `offset` of the buffer. */
    method ReadPackedBits(buf: array<Octet>, packetLen: nat, bits: nat, offset: nat) returns (outcome: Outcome)
      requires Valid()
      requires if bits == 8 then offset / 8 + packetLen <= buf.Length
               else bits < 8 ==> offset + packetLen * bits <= 8 * buf.Length
      modifies this, buf
      ensures Valid() && outcome == Outcomes(packetLen, bits, |old(Coming()).1|)
      ensures outcome == Done && packetLen > 0 && bits > 0 ==>
                && Coming() == (old(Coming()).0, old(Coming()).1[packetLen..])
                && Filled(old(buf[..]), buf[..], old(Coming()).1[..packetLen], bits, Landing(bits, offset))
      ensures outcome == Refused ==> Coming() == (old(Coming()).0, old(Coming()).1[packetLen..])
      ensures outcome == Waiting ==> Coming() == (old(Coming()).0, [])
      ensures outcome != Done || packetLen == 0 || bits == 0 ==> buf[..] == old(buf[..])
      ensures packetLen == 0 || bits == 0 ==> Coming() == old(Coming())
    {
      hide Perform, Parse, Filled;
      if packetLen == 0 || bits == 0 {
        return Done;
      }
      var mybuf, waiting := Read(packetLen);
      if waiting {
        assert old(Coming()).1[|mybuf|..] == [];
        return Waiting;
      }
      if bits < 8 {
        PutBits(buf, mybuf, bits, offset);
      } else if bits == 8 {
        CopyOctets(buf, mybuf, offset / 8);
      } else {
        return Refused;
      }
      outcome := Done;
    }

    /** Reads whole octets to the start of the buffer. */
    method ReadOctets(buf: array<Octet>, q: nat, ghost tdo: Bits, ghost octets: seq<Octet>, ghost rest: seq<Octet>)
      requires Valid() && 8 * q <= |tdo| && q <= buf.Length && |octets| == q && Coming().1 == octets + rest
      requires forall j :: 0 <= j < q ==> octets[j] == tdo[8 * j..8 * j + 8]
      modifies this, buf
      ensures Valid() && Coming() == (old(Coming()).0, rest)
      ensures RestoredUpTo(old(buf[..]), buf[..], tdo, 8 * q)
    {
      hide Perform, Parse, Filled, RestoredUpTo;
      if q > 0 {
        var _ := ReadPackedBits(buf, q, 8, 0);
        OctetsRestore(old(buf[..]), buf[..], tdo, octets);
      } else {
        NothingRestored(buf[..], tdo);
        assert octets + rest == rest;
      }
    }

    /** Reads one octet of less than eight samples. */
    method ReadFew(buf: array<Octet>, n: nat, bits: nat,
                   ghost start: seq<Octet>, ghost tdo: Bits, ghost rest: seq<Octet>)
      requires Valid() && 1 <= bits < 8 && n % 8 + bits <= 8 && n + bits <= |tdo| <= 8 * buf.Length
      requires Coming().1 == [TopAligned(tdo[n..n + bits])] + rest
      requires |start| == buf.Length && RestoredUpTo(start, buf[..], tdo, n)
      modifies this, buf
      ensures Valid() && Coming() == (old(Coming()).0, rest)
      ensures RestoredUpTo(start, buf[..], tdo, n + bits)
    {
      hide Perform, Parse, Filled, RestoredUpTo, TopAligned;
      var _ := ReadPackedBits(buf, 1, bits, n);
      FewRestore(start, old(buf[..]), buf[..], tdo, n, bits);
    }

    /** Puts the samples of a bit stream together again. */
    method ReadStream(buf: array<Octet>, len: nat, withTms: bool, ghost tdo: Bits, ghost rest: seq<Octet>)
      requires Valid() && |tdo| == len <= 8 * buf.Length && (withTms ==> len >= 1)
      requires Coming().1 == Replies(tdo, withTms) + rest
      modifies this, buf
      ensures Valid() && Coming() == (old(Coming()).0, rest)
      ensures RestoredUpTo(old(buf[..]), buf[..], tdo, len)
    {
      hide Replies, RestoredUpTo, TopAligned, Cable.Valid, Cable.Coming;
      var lenTmsBits := if withTms then 1 else 0;
      var lenBytes, lenBits := (len - lenTmsBits) / 8, (len - lenTmsBits) % 8;
      ghost var octets, few, last := ReplyParts(tdo, withTms);
      AppendAssociates(octets, few + last, rest);
      ReadOctets(buf, lenBytes, tdo, octets, (few + last) + rest);
      AppendAssociates(few, last, rest);
      if lenBits > 0 {
        ReadFew(buf, lenBytes * 8, lenBits, old(buf[..]), tdo, last + rest);
      } else {
        assert few + (last + rest) == last + rest;
      }
      if lenTmsBits > 0 {
        ReadFew(buf, lenBits + lenBytes * 8, 1, old(buf[..]), tdo, rest);
      } else {
        assert last + rest == rest;
      }
    }

    // ---------- The driver's interface ----------

    ghost predicate Idle()
      reads this
    {
      Valid() && sendBuf == [] && recvBuf == [] && toRecv == 0
    }

    /** Clocks out the first `len` bits of an array of words, least significant first. */
    method CableWriteStream(stream: seq<Word>, len: nat, setLastBit: bool)
      requires Idle() && 0 < len <= 32 * |stream|
      modifies this
      ensures Idle() && chain == Run(old(chain), DataPins(StreamBits(stream, len), setLastBit))
    {
      hide Run, Perform, Parse;
      NothingSent();
      OctetsOfWords(stream, len);
      WriteStream(Octets(stream), len, false, setLastBit);
      Flush();
    }

    /** The same, and the bits sampled meanwhile replace the first `len` bits of the input buffer, and no others. */
    method CableReadWriteStream(stream: seq<Word>, buf: array<Octet>, len: nat, setLastBit: bool)
      requires Idle() && 0 < len <= 32 * |stream| && len <= 8 * buf.Length
      modifies this, buf
      ensures Idle() && chain == Run(old(chain), DataPins(StreamBits(stream, len), setLastBit))
      ensures var tdo := TdoRun(old(chain), DataPins(StreamBits(stream, len), setLastBit));
              RestoredUpTo(old(buf[..]), buf[..], tdo, len)
    {
      hide Run, Perform, Parse, TdoRun, Replies, RestoredUpTo;
      NothingSent();
      OctetsOfWords(stream, len);
      ghost var tdo := TdoRun(chain, DataPins(StreamBits(stream, len), setLastBit));
      WriteStream(Octets(stream), len, true, setLastBit);
      assert [] + Replies(tdo, setLastBit) == Replies(tdo, setLastBit) + [];
      ReadStream(buf, len, setLastBit, tdo, []);
      Flush();
    }

    /** One clock: a stream of one bit. */
    method WriteBit(pins: Pins)
      requires Idle()
      modifies this
      ensures Idle() && chain == Clock(old(chain), pins)
    {
      hide Perform, Parse;
      NothingSent();
      var buf: Octet := [pins.tdi] + Zeros(7);
      WriteStream([buf], 1, false, pins.tms);
      Flush();
      OneBitStream(old(chain), pins, buf);
    }
  }

  /** The words of the host, in memory order. */
  function Octets(words: seq<Word>): (o: seq<Octet>)
    ensures |o| == 4 * |words|
  {
    seq(4 * |words|, i requires 0 <= i < 4 * |words| => words[i / 4][8 * (i % 4)..8 * (i % 4) + 8])
  }

  lemma OctetsOfWords(words: seq<Word>, n: nat)
    requires n <= 32 * |words|
    ensures OctetBits(Octets(words), n) == StreamBits(words, n)
  {
    forall k | 0 <= k < n ensures OctetBits(Octets(words), n)[k] == StreamBits(words, n)[k] {
      var i := k / 8;
      assert i / 4 == k / 32 && 8 * (i % 4) + k % 8 == k % 32;
      assert Octets(words)[i] == words[i / 4][8 * (i % 4)..8 * (i % 4) + 8];
    }
  }

  lemma OneBitStream(c: Chain, pins: Pins, buf: Octet)
    requires c.Valid() && buf[0] == pins.tdi
    ensures Run(c, DataPins(OctetBits([buf], 1), pins.tms)) == Clock(c, pins)
  {
    var one := DataPins(OctetBits([buf], 1), pins.tms);
    assert one == [pins] && one[1..] == [];
  }

  /** The first `n` samples are in place, and every bit after them is as it was. */
  ghost predicate RestoredUpTo(before: seq<Octet>, after: seq<Octet>, tdo: Bits, n: nat)
    requires n <= |tdo| && |after| == |before|
  {
    forall k :: 0 <= k < 8 * |before| ==> after[k / 8][k % 8] == if k < n then tdo[k] else before[k / 8][k % 8]
  }

  lemma NothingRestored(buf: seq<Octet>, tdo: Bits)
    ensures RestoredUpTo(buf, buf, tdo, 0)
  {
  }

  lemma OctetsRestore(before: seq<Octet>, after: seq<Octet>, tdo: Bits, packets: seq<Octet>)
    requires Filled(before, after, packets, 8, 0) && 8 * |packets| <= |tdo|
    requires forall j :: 0 <= j < |packets| ==> packets[j] == tdo[8 * j..8 * j + 8]
    ensures RestoredUpTo(before, after, tdo, 8 * |packets|)
  {
    forall k | 0 <= k < 8 * |before|
      ensures after[k / 8][k % 8] == if k < 8 * |packets| then tdo[k] else before[k / 8][k % 8]
    {
      assert after[k / 8][k % 8] == SampleOr(before, packets, 8, 0, |packets| * 8, k);
      assert Arrives(8, 0, k);
      if k < 8 * |packets| {
        assert packets[k / 8][k % 8] == tdo[8 * (k / 8)..8 * (k / 8) + 8][k % 8];
      }
    }
  }

  lemma InFirstRow(i: nat, bits: nat)
    requires i < bits
    ensures i / bits == 0 && i % bits == i
  {
  }

  lemma FewRestore(before: seq<Octet>, mid: seq<Octet>, after: seq<Octet>, tdo: Bits, n: nat, bits: nat)
    requires |mid| == |before| && 1 <= bits <= 8 && n + bits <= |tdo| && RestoredUpTo(before, mid, tdo, n)
    requires Filled(mid, after, [TopAligned(tdo[n..n + bits])], bits, n) && n % 8 + bits <= 8
    ensures RestoredUpTo(before, after, tdo, n + bits)
  {
    OnePacketArrives(bits, n);
    var packets := [TopAligned(tdo[n..n + bits])];
    assert |packets| * bits == bits;
    forall k | 0 <= k < 8 * |before|
      ensures after[k / 8][k % 8] == if k < n + bits then tdo[k] else before[k / 8][k % 8]
    {
      assert after[k / 8][k % 8] == SampleOr(mid, packets, bits, n, n + bits, k);
      if n <= k < n + bits {
        InFirstRow(k - n, bits);
        assert Arrives(bits, n, k - n);
        assert packets[0][8 - bits + (k - n)] == tdo[n..n + bits][k - n];
      } else {
        assert mid[k / 8][k % 8] == if k < n then tdo[k] else before[k / 8][k % 8];
      }
    }
  }

  lemma {:induction false} ChunkedAt(bits: Bits, j: nat)
    requires j < |bits| / 8
    ensures j < |Chunked(bits, 8)| && Chunked(bits, 8)[j] == bits[8 * j..8 * j + 8]
    decreases j
  {
    ChunkedSplit(bits, 8);
    if j > 0 {
      ChunkedAt(bits[8..], j - 1);
      assert bits[8..][8 * (j - 1)..8 * (j - 1) + 8] == bits[8 * j..8 * j + 8];
    }
  }

  /** Samples eight to an octet: whole octets, then what is left over. */
  lemma ChunkParts(tdo: Bits, n: nat) returns (octets: seq<Octet>, few: seq<Octet>)
    requires n <= |tdo|
    ensures Chunked(tdo[..n], 8) == octets + few
    ensures var q, r := n / 8, n % 8;
            && |octets| == q && (forall j :: 0 <= j < q ==> octets[j] == tdo[8 * j..8 * j + 8])
            && few == (if r > 0 then [TopAligned(tdo[8 * q..8 * q + r])] else [])
  {
    var q := n / 8;
    var whole, rest := tdo[..8 * q], tdo[8 * q..n];
    octets, few := Chunked(whole, 8), Chunked(rest, 8);
    assert tdo[..n] == whole + rest;
    ChunkedAppend(whole, rest, 8);
    ChunkCount(whole);
    forall j | 0 <= j < q ensures octets[j] == tdo[8 * j..8 * j + 8] {
      ChunkedAt(whole, j);
      assert whole[8 * j..8 * j + 8] == tdo[8 * j..8 * j + 8];
    }
  }

  /** The replies to a stream: those, then the last sample if it came with TMS high. */
  lemma ReplyParts(tdo: Bits, tms: bool) returns (octets: seq<Octet>, few: seq<Octet>, last: seq<Octet>)
    requires tms ==> tdo != []
    ensures Replies(tdo, tms) == octets + (few + last)
    ensures var n := |tdo| - if tms then 1 else 0;
            var q, r := n / 8, n % 8;
            && |octets| == q && (forall j :: 0 <= j < q ==> octets[j] == tdo[8 * j..8 * j + 8])
            && few == (if r > 0 then [TopAligned(tdo[8 * q..8 * q + r])] else [])
            && last == if tms then [TopAligned(tdo[n..n + 1])] else []
  {
    hide Chunked, TopAligned;
    var n := |tdo| - if tms then 1 else 0;
    octets, few := ChunkParts(tdo, n);
    if tms {
      last := [TopAligned(tdo[n..n + 1])];
      assert tdo[n..] == tdo[n..n + 1];
    } else {
      last := [];
      assert tdo[..n] == tdo;
    }
    AppendAssociates(octets, few, last);
  }

  /** How reading packets ends: the driver refuses packets of more than eight samples, after reading them. */
  datatype Outcome = Done | Refused | Waiting

  function Outcomes(packetLen: nat, bits: nat, coming: nat): Outcome {
    if packetLen == 0 || bits == 0 then Done
    else if packetLen > coming then Waiting
    else if bits > 8 then Refused
    else Done
  }

  /** Whole octets are copied to the octet that `offset` is in. */
  function Landing(bits: nat, offset: nat): nat {
    if bits == 8 then offset / 8 * 8 else offset
  }

  /**
   Sample `i` does not move to a lower column than it comes from. If it does, the code shifts it right by
   a negative count, which is taken modulo 32, and the sample is lost.
   */
  predicate Arrives(bits: nat, offset: nat, i: nat)
    requires bits > 0
  {
    (offset + i) % 8 >= i % bits
  }

  /** Sample number `i` of a series of packets. */
  function Sample(packets: seq<Octet>, bits: nat, i: nat): bool
    requires 1 <= bits <= 8 && i < |packets| * bits
  {
    RowInRange(i, |packets|, bits);
    packets[i / bits][8 - bits + i % bits]
  }

  /** The samples of `packets` that arrive are the bits of the buffer from `offset` on; its other bits are as before. */
  ghost predicate Filled(before: seq<Octet>, after: seq<Octet>, packets: seq<Octet>, bits: nat, offset: nat)
    requires 1 <= bits <= 8
  {
    |after| == |before| && FilledUpTo(before, after, packets, bits, offset, offset + |packets| * bits)
  }

  ghost predicate FilledUpTo(before: seq<Octet>, after: seq<Octet>, packets: seq<Octet>, bits: nat, offset: nat,
                             end: nat)
    requires 1 <= bits <= 8 && |after| == |before| && end <= offset + |packets| * bits
  {
    forall k :: 0 <= k < 8 * |before| ==> after[k / 8][k % 8] == SampleOr(before, packets, bits, offset, end, k)
  }

  function SampleOr(before: seq<Octet>, packets: seq<Octet>, bits: nat, offset: nat, end: nat, k: nat): bool
    requires 1 <= bits <= 8 && k < 8 * |before| && end <= offset + |packets| * bits
  {
    if offset <= k < end then Arrives(bits, offset, k - offset) && Sample(packets, bits, k - offset)
    else before[k / 8][k % 8]
  }

  /** The buffer holds every sample exactly when none that is set is lost. */
  lemma SamplesInPlace(before: seq<Octet>, after: seq<Octet>, packets: seq<Octet>, bits: nat, offset: nat)
    requires 1 <= bits <= 8 && offset + |packets| * bits <= 8 * |before|
    requires Filled(before, after, packets, bits, offset)
    ensures ((forall i :: 0 <= i < |packets| * bits ==>
                after[(offset + i) / 8][(offset + i) % 8] == Sample(packets, bits, i))
             <==> forall i :: 0 <= i < |packets| * bits ==> Arrives(bits, offset, i) || !Sample(packets, bits, i))
  {
    forall i | 0 <= i < |packets| * bits
      ensures (after[(offset + i) / 8][(offset + i) % 8] == Sample(packets, bits, i)
               <==> Arrives(bits, offset, i) || !Sample(packets, bits, i))
    {
      var k := offset + i;
      assert after[k / 8][k % 8] == SampleOr(before, packets, bits, offset, offset + |packets| * bits, k);
    }
  }

  lemma RowInRange(i: nat, rows: nat, bits: nat)
    requires i < rows * bits && bits > 0
    ensures 0 <= i / bits < rows
  {
    if i / bits >= rows {
      assert i / bits * bits >= rows * bits by {
        MulMonotone(rows, i / bits, bits);
      }
      assert false;
    }
  }

  lemma MulMonotone(a: nat, b: nat, c: nat)
    requires a <= b
    ensures a * c <= b * c
  {
  }

  /** Every sample of one packet arrives exactly when they stay within one octet of the buffer. */
  lemma OnePacketArrives(bits: nat, offset: nat)
    requires 1 <= bits <= 8
    ensures (forall i :: 0 <= i < bits ==> Arrives(bits, offset, i)) <==> offset % 8 + bits <= 8
  {
    hide Arrives;
    if offset % 8 + bits <= 8 {
      forall i | 0 <= i < bits ensures Arrives(bits, offset, i) {
        ArrivesInOctet(bits, offset, i);
      }
    } else {
      LostInNextOctet(bits, offset);
    }
  }

  lemma ArrivesInOctet(bits: nat, offset: nat, i: nat)
    requires i < bits && offset % 8 + i < 8
    ensures Arrives(bits, offset, i)
  {
    SameOctet(offset, i);
    InFirstRow(i, bits);
  }

  lemma LostInNextOctet(bits: nat, offset: nat)
    requires bits <= 8 < offset % 8 + bits
    ensures !Arrives(bits, offset, 8 - offset % 8)
  {
    InFirstRow(8 - offset % 8, bits);
    NextOctet(offset);
  }

  lemma NextOctet(offset: nat)
    ensures (offset + (8 - offset % 8)) % 8 == 0
  {
  }

  /** One bit of `dst` replaced, with masks and a shift. */
  function Placed(dst: Octet, dstCol: nat, src: Octet, srcCol: nat): Octet {
    var bit: Octet := seq(8, j requires 0 <= j < 8 => src[j] && j == srcCol);
    var moved := if dstCol >= srcCol then ShlOctet(bit, dstCol - srcCol) else ShrOctet(bit, (dstCol - srcCol) % 32);
    seq(8, j requires 0 <= j < 8 => (dst[j] && j != dstCol) || moved[j])
  }

  function ShlOctet(o: Octet, n: nat): Octet {
    seq(8, i requires 0 <= i < 8 => i >= n && o[i - n])
  }

  lemma PlacedBit(dst: Octet, dstCol: nat, src: Octet, srcCol: nat, j: nat)
    requires srcCol < 8 && dstCol < 8 && j < 8
    ensures Placed(dst, dstCol, src, srcCol)[j] == if j == dstCol then dstCol >= srcCol && src[srcCol] else dst[j]
  {
  }

  method PutBits(buf: array<Octet>, packets: seq<Octet>, bits: nat, offset: nat)
    requires 1 <= bits < 8 && offset + |packets| * bits <= 8 * buf.Length
    modifies buf
    ensures Filled(old(buf[..]), buf[..], packets, bits, offset)
  {
    hide Placed, Arrives, Sample, ShrOctet;
    for i := offset to offset + |packets| * bits
      invariant FilledUpTo(old(buf[..]), buf[..], packets, bits, offset, i)
    {
      var dstRow, dstCol := i / 8, i % 8;
      RowInRange(i - offset, |packets|, bits);
      var srcRow, srcCol := (i - offset) / bits, (i - offset) % bits;
      var src := ShrOctet(packets[srcRow], 8 - bits);
      PlacedFills(old(buf[..]), buf[..], packets, bits, offset, i);
      buf[dstRow] := Placed(buf[dstRow], dstCol, src, srcCol);
    }
  }

  lemma PlacedFills(before: seq<Octet>, now: seq<Octet>, packets: seq<Octet>, bits: nat, offset: nat, i: nat)
    requires 1 <= bits < 8 && |now| == |before| && offset <= i < offset + |packets| * bits <= 8 * |before|
    requires FilledUpTo(before, now, packets, bits, offset, i) && (i - offset) / bits < |packets|
    ensures var src := ShrOctet(packets[(i - offset) / bits], 8 - bits);
            var after := now[i / 8 := Placed(now[i / 8], i % 8, src, (i - offset) % bits)];
            FilledUpTo(before, after, packets, bits, offset, i + 1)
  {
    hide Placed;
    var src := ShrOctet(packets[(i - offset) / bits], 8 - bits);
    var after := now[i / 8 := Placed(now[i / 8], i % 8, src, (i - offset) % bits)];
    forall k | 0 <= k < 8 * |before|
      ensures after[k / 8][k % 8] == SampleOr(before, packets, bits, offset, i + 1, k)
    {
      assert now[k / 8][k % 8] == SampleOr(before, packets, bits, offset, i, k);
      PlacedBit(now[i / 8], i % 8, src, (i - offset) % bits, k % 8);
    }
  }

  method CopyOctets(buf: array<Octet>, packets: seq<Octet>, row: nat)
    requires row + |packets| <= buf.Length
    modifies buf
    ensures Filled(old(buf[..]), buf[..], packets, 8, 8 * row)
  {
    forall j | 0 <= j < |packets| {
      buf[row + j] := packets[j];
    }
    forall k | 0 <= k < 8 * buf.Length
      ensures buf[..][k / 8][k % 8] == SampleOr(old(buf[..]), packets, 8, 8 * row, 8 * row + |packets| * 8, k)
    {
    }
  }

  function ShrOctet(o: Octet, n: nat): Octet {
    seq(8, i requires 0 <= i < 8 => i + n < 8 && o[i + n])
  }

  lemma BitsAfterBytes(f: Future, buf: seq<Octet>, bytes: nat, bits: nat, read: bool)
    requires f.0.Valid() && 8 * bytes + bits <= 8 * |buf| && bytes <= |buf|
    ensures var before := Advanced(f, BitPins(OctetBits(buf, 8 * bytes), false), read, 8);
            && bits <= 8 * |buf[bytes..]|
            && (Advanced(before, BitPins(OctetBits(buf[bytes..], bits), false), read, 8)
                == Advanced(f, BitPins(OctetBits(buf, 8 * bytes + bits), false), read, 8))
  {
    var a, b := BitPins(OctetBits(buf, 8 * bytes), false), BitPins(OctetBits(buf[bytes..], bits), false);
    var all := BitPins(OctetBits(buf, 8 * bytes + bits), false);
    forall k | 0 <= k < |all| ensures (a + b)[k] == all[k] {
      if k >= 8 * bytes {
        assert (k - 8 * bytes) / 8 + bytes == k / 8;
      }
    }
    assert a + b == all;
    AdvancedTwice(f, a, b, read, 8);
  }

  lemma NoLastBit(f: Future, buf: seq<Octet>, len: nat, read: bool)
    requires f.0.Valid() && len <= 8 * |buf|
    ensures Advanced(f, BitPins(OctetBits(buf, len), false), read, 8) == Streamed(f, OctetBits(buf, len), read, false)
  {
    assert BitPins(OctetBits(buf, len), false) == DataPins(OctetBits(buf, len), false);
  }

  /** The stream without its last bit, and then that bit with TMS high. */
  lemma LastBit(f: Future, buf: seq<Octet>, len: nat, read: bool)
    requires f.0.Valid() && 1 <= len <= 8 * |buf|
    ensures var before := Advanced(f, BitPins(OctetBits(buf, len - 1), false), read, 8);
            (Advanced(before, BitPins([OctetBits(buf, len)[len - 1]], true), read, 1)
             == Streamed(f, OctetBits(buf, len), read, true))
  {
    var bits := OctetBits(buf, len);
    var a, b := BitPins(OctetBits(buf, len - 1), false), BitPins([bits[len - 1]], true);
    assert a + b == DataPins(bits, true);
    RunAppend(f.0, a, b);
    TdoRunAppend(f.0, a, b);
    var tdo, last := TdoRun(f.0, a), TdoRun(Run(f.0, a), b);
    assert (tdo + last)[..len - 1] == tdo && (tdo + last)[len - 1..] == last;
    ChunkedOne(last, 1);
    if read {
      AppendAssociates(f.1, Chunked(tdo, 8), [TopAligned(last)]);
    } else {
      AppendAssociates(f.1, [], []);
    }
  }

  /** The first `n` bits of a buffer have been written, in bit commands. */
  ghost predicate Wrote(start: Future, f: Future, buf: seq<Octet>, n: nat, read: bool, tms: bool)
    requires start.0.Valid() && n <= 8 * |buf|
  {
    f == Advanced(start, BitPins(OctetBits(buf, n), tms), read, if tms then 1 else 8)
  }

  lemma NothingWritten(f: Future, buf: seq<Octet>, read: bool, tms: bool)
    requires f.0.Valid()
    ensures Wrote(f, f, buf, 0, read, tms)
  {
    assert BitPins(OctetBits(buf, 0), tms) == [];
    NothingAdvanced(f, read, if tms then 1 else 8);
  }

  lemma BytesInSeries(f: Future, buf: seq<Octet>, done: nat, n: nat, read: bool)
    requires f.0.Valid() && done + n <= |buf|
    ensures var before := Advanced(f, BitPins(OctetBits(buf, 8 * done), false), read, 8);
            (Advanced(before, BitPins(OctetBits(buf[done..done + n], 8 * n), false), read, 8)
             == Advanced(f, BitPins(OctetBits(buf, 8 * (done + n)), false), read, 8))
  {
    var a, b := BitPins(OctetBits(buf, 8 * done), false), BitPins(OctetBits(buf[done..done + n], 8 * n), false);
    var all := BitPins(OctetBits(buf, 8 * (done + n)), false);
    forall k | 0 <= k < |all| ensures (a + b)[k] == all[k] {
      if k >= 8 * done {
        assert (k - 8 * done) / 8 + done == k / 8;
      }
    }
    assert a + b == all;
    AdvancedTwice(f, a, b, read, 8);
  }

  lemma FewInSeries(f: Future, buf: seq<Octet>, i: nat, n: nat, read: bool, tms: bool)
    requires f.0.Valid() && i + n <= 8 * |buf| && 1 <= n <= 8 && (if tms then n == 1 else i % 8 == 0)
    ensures var size := if tms then 1 else 8;
            var before := Advanced(f, BitPins(OctetBits(buf, i), tms), read, size);
            (Advanced(before, BitPins(buf[i / 8][i % 8..i % 8 + n], tms), read, size)
             == Advanced(f, BitPins(OctetBits(buf, i + n), tms), read, size))
  {
    var size := if tms then 1 else 8;
    hide Advanced;
    var a, b := BitPins(OctetBits(buf, i), tms), BitPins(buf[i / 8][i % 8..i % 8 + n], tms);
    var all := BitPins(OctetBits(buf, i + n), tms);
    forall k | 0 <= k < |all| ensures (a + b)[k] == all[k] {
      if k >= i {
        SameOctet(i, k - i);
      }
    }
    assert a + b == all;
    AdvancedTwice(f, a, b, read, size);
  }

  lemma SameOctet(i: nat, k: nat)
    requires i % 8 + k < 8
    ensures (i + k) / 8 == i / 8 && (i + k) % 8 == i % 8 + k
  {
  }

  lemma NothingAdvanced(f: Future, read: bool, size: nat)
    requires f.0.Valid() && 1 <= size <= 8
    ensures Advanced(f, [], read, size) == f
  {
    assert f.1 + [] == f.1;
  }
}
