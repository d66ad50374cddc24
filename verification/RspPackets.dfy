/** Packet framing of the GDB Remote Serial Protocol server: escaping, checksums and acknowledgement. */
module RspPackets {
  import opened Sequences

  type Byte = b: nat | b < 256

  const DOLLAR: Byte := 0x24
  const HASH: Byte := 0x23
  const STAR: Byte := 0x2a
  const BRACE: Byte := 0x7d
  const PLUS: Byte := 0x2b
  const MINUS: Byte := 0x2d
  const BREAK: Byte := 0x03

  const GDB_BUF_MAX := 16 * 1024

  datatype Option<+T> = None | Some(value: T)

  // ---------- Escaping ----------

  /** c ^ 0x20 */
  function Flip20(c: Byte): (r: Byte)
    ensures r == c + 0x20 || c == r + 0x20
  {
    if c / 0x20 % 2 == 1 then c - 0x20 else c + 0x20
  }

  lemma Flip20Twice(c: Byte)
    ensures Flip20(Flip20(c)) == c
  {
  }

  predicate NeedsEscape(c: Byte) {
    c == DOLLAR || c == HASH || c == STAR || c == BRACE
  }

  function EscapeOne(c: Byte): seq<Byte> {
    if NeedsEscape(c) then [BRACE, Flip20(c)] else [c]
  }

  function Escape(data: seq<Byte>): seq<Byte> {
    if data == [] then [] else EscapeOne(data[0]) + Escape(data[1..])
  }

  /** Undoes escaping; a brace at the very end takes the byte after the data, `after`, for the escaped one. */
  function Unescape(data: seq<Byte>, after: Byte): (r: seq<Byte>)
    ensures |r| <= |data|
    decreases |data|
  {
    if data == [] then []
    else if data[0] == BRACE then
      if |data| == 1 then [Flip20(after)] else [Flip20(data[1])] + Unescape(data[2..], after)
    else [data[0]] + Unescape(data[1..], after)
  }

  lemma {:induction false} EscapeAppend(a: seq<Byte>, b: seq<Byte>)
    ensures Escape(a + b) == Escape(a) + Escape(b)
  {
    if a == [] {
      assert a + b == b;
    } else {
      assert (a + b)[1..] == a[1..] + b;
      EscapeAppend(a[1..], b);
    }
  }

  lemma {:induction false} UnescapeEscape(data: seq<Byte>, after: Byte)
    ensures Unescape(Escape(data), after) == data
  {
    if data != [] {
      UnescapeEscape(data[1..], after);
      Flip20Twice(data[0]);
      var e := Escape(data);
      if NeedsEscape(data[0]) {
        assert e[2..] == Escape(data[1..]);
      } else {
        assert e[1..] == Escape(data[1..]);
      }
    }
  }

  lemma {:induction false} EscapedIsClean(data: seq<Byte>)
    ensures DOLLAR !in Escape(data) && HASH !in Escape(data)
  {
    if data != [] {
      EscapedIsClean(data[1..]);
    }
  }

  /** What is sent holds no delimiter and no run-length mark, and every brace in it starts an escape. */
  predicate WireClean(sent: seq<Byte>) {
    if sent == [] then true
    else if sent[0] == 0x7d then |sent| >= 2 && sent[1] in {0x04, 0x03, 0x0a, 0x5d} && WireClean(sent[2..])
    else sent[0] !in {0x24, 0x23, 0x2a} && WireClean(sent[1..])
  }

  /** Reverses escaping in place and returns the number of bytes left. */
  method RspUnescape(data: array<Byte>, len: nat) returns (toOff: nat)
    requires len < data.Length
    modifies data
    ensures toOff <= len && data[..toOff] == Unescape(old(data[..len]), old(data[len]))
    ensures forall k :: len <= k < data.Length ==> data[k] == old(data[k])
  {
    hide Unescape, Remaining;
    ghost var whole, after := data[..len], data[len];
    ghost var done: seq<Byte> := [];
    AllRemaining(whole, after);
    var fromOff := 0;
    toOff := 0;
    while fromOff < len
      invariant toOff <= fromOff && toOff <= len && fromOff <= len + 1
      invariant forall k :: fromOff <= k < data.Length || len <= k < data.Length ==> data[k] == old(data[k])
      invariant |done| == toOff && forall k :: 0 <= k < toOff ==> data[k] == done[k]
      invariant Unescape(whole, after) == done + Remaining(whole, after, fromOff)
    {
      ghost var next := NextByte(whole, after, fromOff);
      Progress(Unescape(whole, after), done, whole, after, fromOff);
      if data[fromOff] == BRACE {
        fromOff := fromOff + 1;
        data[toOff] := Flip20(data[fromOff]);
      } else {
        data[toOff] := data[fromOff];
      }
      done := done + [next];
      fromOff := fromOff + 1;
      toOff := toOff + 1;
    }
    NothingRemaining(whole, after, fromOff);
  }

  lemma AllRemaining(data: seq<Byte>, after: Byte)
    ensures Unescape(data, after) == [] + Remaining(data, after, 0)
  {
    assert data[0..] == data;
  }

  lemma NothingRemaining(data: seq<Byte>, after: Byte, from: nat)
    requires from >= |data|
    ensures Remaining(data, after, from) == []
  {
  }

  /** The byte that unescaping produces next, and where it goes on. */
  function NextByte(data: seq<Byte>, after: Byte, from: nat): Byte
    requires from < |data|
  {
    if data[from] != BRACE then data[from] else Flip20(if from + 1 < |data| then data[from + 1] else after)
  }

  function NextOffset(data: seq<Byte>, from: nat): nat
    requires from < |data|
  {
    if data[from] == BRACE then from + 2 else from + 1
  }

  /** What is still to be unescaped from offset `from` on; an escape may have taken the byte past the end. */
  function Remaining(data: seq<Byte>, after: Byte, from: nat): seq<Byte> {
    if from <= |data| then Unescape(data[from..], after) else []
  }

  lemma Progress(all: seq<Byte>, done: seq<Byte>, data: seq<Byte>, after: Byte, from: nat)
    requires from < |data| && all == done + Remaining(data, after, from)
    ensures all == done + [NextByte(data, after, from)] + Remaining(data, after, NextOffset(data, from))
  {
    assert data[from..][1..] == data[from + 1..];
    if from + 1 < |data| {
      assert data[from..][2..] == data[from + 2..];
    }
    var rest := Remaining(data, after, NextOffset(data, from));
    assert Remaining(data, after, from) == [NextByte(data, after, from)] + rest;
  }

  // ---------- Checksums ----------

  function Checksum(data: seq<Byte>): Byte {
    if data == [] then 0 else (Checksum(data[..|data| - 1]) + data[|data| - 1]) % 256
  }

  function HexChar(digit: Byte): Byte
    requires digit < 16
  {
    if digit < 10 then 0x30 + digit else 0x61 + (digit - 10)
  }

  /** The value of a hexadecimal digit, or -1. */
  function Hex(c: Byte): int {
    if 0x61 <= c <= 0x66 then c - 0x61 + 10
    else if 0x30 <= c <= 0x39 then c - 0x30
    else if 0x41 <= c <= 0x46 then c - 0x41 + 10
    else -1
  }

  /** Digits are read in either case, and nothing else is. */
  lemma HexReads(c: Byte, d: nat)
    requires d < 16
    ensures Hex(c) == d <==> if d < 10 then c == 0x30 + d else c == 0x61 + d - 10 || c == 0x41 + d - 10
    ensures Hex(c) == -1 || 0 <= Hex(c) < 16
  {
  }

  /** Two digits, added up in an unsigned char. */
  function FromHex(high: Byte, low: Byte): Byte {
    (Hex(high) * 16 + Hex(low)) % 256
  }

  lemma HexRoundTrip(b: Byte)
    ensures FromHex(HexChar(b / 16), HexChar(b % 16)) == b
  {
    assert Hex(HexChar(b / 16)) == b / 16 && Hex(HexChar(b % 16)) == b % 16;
  }

  /** What is sent for a payload. */
  function Packet(payload: seq<Byte>): seq<Byte> {
    var body := Escape(payload);
    var sum := Checksum(body);
    [DOLLAR] + body + [HASH, HexChar(sum / 16), HexChar(sum % 16)]
  }

  // ---------- Sending ----------

  datatype BodyEnd = Failed | Closed | Overrun

  /** The client connection: what is still to be read from it, and what has been written to it. */
  class Connection {
    var input: seq<Byte>
    var output: seq<Byte>

    /** The next character, or none when the connection has failed. */
    method GetRspChar() returns (ch: Option<Byte>)
      modifies this`input
      ensures old(input) == [] ==> ch == None && input == []
      ensures old(input) != [] ==> ch == Some(old(input)[0]) && input == old(input)[1..]
    {
      if input == [] {
        return None;
      }
      ch := Some(input[0]);
      input := input[1..];
    }

    method PutRspChar(c: Byte)
      modifies this`output
      ensures output == old(output) + [c]
    {
      output := output + [c];
    }

    /** Sends a packet, again and again until the client acknowledges it or the connection fails. */
    method PutPacket(data: seq<Byte>)
      modifies this
      ensures output == old(output) + Copies(Packet(data), Attempts(old(input)))
      ensures input == if Attempts(old(input)) <= |old(input)| then old(input)[Attempts(old(input))..] else []
    {
      ghost var out, replies := output, input;
      var again := true;
      ghost var n := 0;
      while again
        invariant n <= |replies| + 1
        invariant again ==> n <= |replies| && input == replies[n..]
        invariant again ==> Attempts(replies) == n + Attempts(input)
        invariant !again ==> n == Attempts(replies) && input == if n <= |replies| then replies[n..] else []
        invariant output == out + Copies(Packet(data), n)
        decreases again, |input|
      {
        PutOnce(data);
        AppendAssociates(out, Copies(Packet(data), n), Packet(data));
        var ch := GetRspChar();
        n := n + 1;
        again := ch != None && ch != Some(PLUS);
      }
    }

    /** Waits for the start of a packet, or an out-of-band break. */
    method SkipToStart() returns (ch: Option<Byte>)
      modifies this`input
      ensures ch == None || ch == Some(DOLLAR) || ch == Some(BREAK)
      ensures ch != None ==> |input| < |old(input)|
      ensures AwaitStart(old(input))
           == if ch == None then Received(None, [], [])
              else if ch == Some(BREAK) then Received(Some([BREAK]), input, []) else ReadBody(input, [])
      ensures ch == None ==> input == []
    {
      ghost var whole := input;
      ch := GetRspChar();
      while ch != Some(DOLLAR)
        invariant ch == None ==> input == [] && AwaitStart(whole) == AwaitStart([])
        invariant ch != None ==> |input| < |whole| && AwaitStart(whole) == AwaitStart([ch.value] + input)
        decreases |input|, ch != None
      {
        if ch == None || ch == Some(BREAK) {
          return;
        }
        assert ([ch.value] + input)[1..] == input;
        ghost var before := input;
        ch := GetRspChar();
        assert ch != None ==> [ch.value] + input == before;
      }
      assert ([DOLLAR] + input)[1..] == input;
    }

    /** Reads up to the end of a packet, as far as the buffer reaches. */
    method GetBody() returns (body: seq<Byte>, end: BodyEnd)
      modifies this`input
      ensures |input| <= |old(input)|
      ensures end == Failed ==> input == [] && ReadBody(old(input), []) == Received(None, [], [])
      ensures end == Closed ==> ReadBody(old(input), []) == CheckEnd(input, body)
      ensures end == Overrun ==> ReadBody(old(input), []) == AwaitStart(input)
    {
      ghost var whole := input;
      body := [];
      while |body| < GDB_BUF_MAX - 1
        invariant |input| <= |whole| && ReadBody(whole, []) == ReadBody(input, body)
        decreases |input|
      {
        var ch := GetRspChar();
        if ch == None {
          return body, Failed;
        }
        if ch == Some(DOLLAR) {
          body := [];
          continue;
        }
        if ch == Some(HASH) {
          return body, Closed;
        }
        body := body + [ch.value];
      }
      end := Overrun;
    }

    /** Reads until a packet with a valid checksum has arrived, acknowledging each packet seen. */
    method GetPacket() returns (packet: Option<seq<Byte>>)
      modifies this
      ensures Received(packet, input, output) == AwaitStart(old(input)).After(old(output))
    {
      ghost var whole, out := input, output;
      while true
        invariant AwaitStart(whole).After(out) == AwaitStart(input).After(output)
        decreases |input|
      {
        var ch := SkipToStart();
        if ch == None {
          return None;
        }
        if ch == Some(BREAK) {
          return Some([BREAK]);
        }
        var body, end := GetBody();
        if end == Failed {
          return None;
        }
        if end == Closed {
          ghost var tail := input;
          var high := GetRspChar();
          if high == None {
            return None;
          }
          var low := GetRspChar();
          if low == None {
            return None;
          }
          assert tail == [high.value, low.value] + input && tail[2..] == input;
          if Checksum(body) != FromHex(high.value, low.value) {
            ghost var now := AwaitStart(input);
            assert CheckEnd(tail, body) == now.After([MINUS]);
            AppendAssociates(output, [MINUS], now.replies);
            PutRspChar(MINUS);
          } else {
            PutRspChar(PLUS);
            return Some(body);
          }
        }
      }
    }

    method PutOnce(data: seq<Byte>)
      modifies this`output
      ensures output == old(output) + Packet(data)
    {
      var checksum: Byte := 0;
      PutRspChar(DOLLAR);
      ghost var start := output;
      for count := 0 to |data|
        invariant output == start + Escape(data[..count])
        invariant checksum == Checksum(Escape(data[..count]))
      {
        EscapeMore(data, count);
        ghost var sent := Escape(data[..count]);
        checksum := PutEscaped(data[count], checksum, sent);
        AppendAssociates(start, sent, EscapeOne(data[count]));
      }
      assert data[..|data|] == data;
      PutRspChar(HASH);
      PutRspChar(HexChar(checksum / 16));
      PutRspChar(HexChar(checksum % 16));
    }

    /** Sends one character of the body, escaped if need be, and adds it to the checksum. */
    method PutEscaped(c: Byte, checksum: Byte, ghost sent: seq<Byte>) returns (sum: Byte)
      requires checksum == Checksum(sent)
      modifies this`output
      ensures output == old(output) + EscapeOne(c) && sum == Checksum(sent + EscapeOne(c))
    {
      var ch := c;
      sum := checksum;
      ghost var before := sent;
      if NeedsEscape(ch) {
        ch := Flip20(ch);
        sum := (sum + BRACE) % 256;
        PutRspChar(BRACE);
        ChecksumAppend(sent, BRACE);
        before := sent + [BRACE];
      }
      sum := (sum + ch) % 256;
      PutRspChar(ch);
      ChecksumAppend(before, ch);
      assert before + [ch] == sent + EscapeOne(c);
    }
  }

  lemma EscapeMore(data: seq<Byte>, n: nat)
    requires n < |data|
    ensures Escape(data[..n + 1]) == Escape(data[..n]) + EscapeOne(data[n])
  {
    assert data[..n + 1] == data[..n] + [data[n]];
    EscapeAppend(data[..n], [data[n]]);
    assert Escape([data[n]]) == EscapeOne(data[n]) + Escape([]);
  }

  lemma ChecksumOfOne(c: Byte)
    ensures Checksum([]) == 0 && Checksum([c]) == c
  {
    assert [c][..0] == [];
  }

  /** The checksum adds up the bytes modulo 256, in any grouping. */
  lemma {:induction false} ChecksumAdds(a: seq<Byte>, b: seq<Byte>)
    ensures Checksum(a + b) == (Checksum(a) + Checksum(b)) % 256
    decreases |b|
  {
    hide Checksum;
    if b == [] {
      ChecksumOfOne(0);
      assert a + b == a;
    } else {
      var front, last := b[..|b| - 1], b[|b| - 1];
      assert a + b == (a + front) + [last] && b == front + [last];
      ChecksumAppend(a + front, last);
      ChecksumAppend(front, last);
      ChecksumAdds(a, front);
      AddBytes(Checksum(a), Checksum(front), last);
    }
  }

  lemma AddBytes(x: Byte, y: Byte, z: Byte)
    ensures ((x + y) % 256 + z) % 256 == (x + (y + z) % 256) % 256
  {
  }

  lemma {:induction false} EscapedIsWireClean(data: seq<Byte>)
    ensures WireClean(Escape(data))
  {
    if data != [] {
      var one, rest := EscapeOne(data[0]), Escape(data[1..]);
      EscapedIsWireClean(data[1..]);
      assert (one + rest)[|one|..] == rest;
    }
  }

  lemma EscapeStep(first: Byte, rest: seq<Byte>, escaped: seq<Byte>)
    requires Escape(rest) == escaped
    ensures Escape([first] + rest) == EscapeOne(first) + escaped
  {
    assert ([first] + rest)[1..] == rest;
  }

  lemma ChecksumStep(data: seq<Byte>, c: Byte, sum: nat)
    requires Checksum(data) == sum
    ensures Checksum(data + [c]) == (sum + c) % 256
  {
    ChecksumAppend(data, c);
  }

  /** The reply "OK" as it appears on the wire: "$OK#9a". */
  lemma OkOnTheWire()
    ensures Packet([0x4f, 0x4b]) == [0x24, 0x4f, 0x4b, 0x23, 0x39, 0x61]
    ensures Escape([0x4f, 0x4b]) == [0x4f, 0x4b] && Checksum([0x4f, 0x4b]) == 0x9a
  {
    hide Checksum, Escape;
    EscapeNothing();
    assert [0x4b] + [] == [0x4b];
    EscapeStep(0x4b, [], []);
    EscapeStep(0x4f, [0x4b], [0x4b]);
    ChecksumOfOne(0x4f);
    ChecksumStep([0x4f], 0x4b, 0x4f);
    assert [0x4f] + [0x4b] == [0x4f, 0x4b];
  }

  lemma EscapeNothing()
    ensures Escape([]) == []
  {
  }

  /** The four bytes that need it are sent as a brace and themselves with bit 5 flipped. */
  lemma SpecialsOnTheWire()
    ensures Escape([0x24]) == [0x7d, 0x04] && Escape([0x23]) == [0x7d, 0x03]
    ensures Escape([0x2a]) == [0x7d, 0x0a] && Escape([0x7d]) == [0x7d, 0x5d]
    ensures forall c: Byte :: c != 0x24 && c != 0x23 && c != 0x2a && c != 0x7d ==> EscapeOne(c) == [c]
  {
    EscapeNothing();
    EscapeStep(0x24, [], []);
    EscapeStep(0x23, [], []);
    EscapeStep(0x2a, [], []);
    EscapeStep(0x7d, [], []);
  }

  lemma ChecksumAppend(data: seq<Byte>, c: Byte)
    ensures Checksum(data + [c]) == (Checksum(data) + c) % 256
  {
    assert (data + [c])[..|data|] == data;
  }

  /** How often a packet is sent: once more than the replies before the first '+'. */
  function Attempts(replies: seq<Byte>): (n: nat)
    ensures 1 <= n <= |replies| + 1
  {
    if replies == [] || replies[0] == PLUS then 1 else 1 + Attempts(replies[1..])
  }

  function Copies(packet: seq<Byte>, n: nat): seq<Byte> {
    if n == 0 then [] else Copies(packet, n - 1) + packet
  }

  // ---------- Receiving ----------

  /** What a receiver makes of its input: the packet, the input left over, and its replies. */
  datatype Received = Received(packet: Option<seq<Byte>>, rest: seq<Byte>, replies: seq<Byte>) {
    function After(earlier: seq<Byte>): Received {
      this.(replies := earlier + replies)
    }
  }

  function AwaitStart(input: seq<Byte>): Received
    decreases |input|, 0
  {
    if input == [] then Received(None, [], [])
    else if input[0] == DOLLAR then ReadBody(input[1..], [])
    else if input[0] == BREAK then Received(Some([BREAK]), input[1..], [])
    else AwaitStart(input[1..])
  }

  function ReadBody(input: seq<Byte>, body: seq<Byte>): Received
    decreases |input|, 1
  {
    if |body| >= GDB_BUF_MAX - 1 then AwaitStart(input)
    else if input == [] then Received(None, [], [])
    else if input[0] == DOLLAR then ReadBody(input[1..], [])
    else if input[0] == HASH then CheckEnd(input[1..], body)
    else ReadBody(input[1..], body + [input[0]])
  }

  function CheckEnd(input: seq<Byte>, body: seq<Byte>): Received
    decreases |input|, 1
  {
    if |input| < 2 then Received(None, [], [])
    else if FromHex(input[0], input[1]) == Checksum(body) then Received(Some(body), input[2..], [PLUS])
    else AwaitStart(input[2..]).After([MINUS])
  }

  /** Bytes before a packet that the receiver skips. */
  predicate Noise(noise: seq<Byte>) {
    DOLLAR !in noise && BREAK !in noise
  }

  lemma {:induction false} NoiseSkipped(noise: seq<Byte>, input: seq<Byte>)
    requires Noise(noise)
    ensures AwaitStart(noise + [DOLLAR] + input) == ReadBody(input, [])
  {
    var all := noise + [DOLLAR] + input;
    if noise == [] {
      assert all[1..] == input;
    } else {
      assert all[1..] == noise[1..] + [DOLLAR] + input;
      assert noise[0] in noise;
      NoiseSkipped(noise[1..], input);
    }
  }

  /** A body without packet delimiters is collected, as far as the buffer reaches. */
  lemma {:induction false} BodyCollected(body: seq<Byte>, data: seq<Byte>, input: seq<Byte>)
    requires DOLLAR !in data && HASH !in data && |body| + |data| <= GDB_BUF_MAX - 1
    ensures ReadBody(data + input, body) == ReadBody(input, body + data)
    decreases |data|
  {
    if data == [] {
      assert data + input == input && body + data == body;
    } else {
      assert data[0] in data;
      assert (data + input)[1..] == data[1..] + input;
      BodyCollected(body + [data[0]], data[1..], input);
      assert body + [data[0]] + data[1..] == body + data;
    }
  }

  function Frame(body: seq<Byte>, high: Byte, low: Byte): seq<Byte> {
    [DOLLAR] + body + [HASH, high, low]
  }

  /** What becomes of a frame that fits the buffer depends only on its checksum. */
  lemma FrameReceived(noise: seq<Byte>, body: seq<Byte>, high: Byte, low: Byte, rest: seq<Byte>)
    requires Noise(noise) && DOLLAR !in body && HASH !in body && |body| < GDB_BUF_MAX - 1
    ensures AwaitStart(noise + Frame(body, high, low) + rest)
         == if FromHex(high, low) == Checksum(body) then Received(Some(body), rest, [PLUS])
            else AwaitStart(rest).After([MINUS])
  {
    var end := [HASH, high, low] + rest;
    assert noise + Frame(body, high, low) + rest == noise + [DOLLAR] + (body + end);
    NoiseSkipped(noise, body + end);
    BodyCollected([], body, end);
    assert [] + body == body;
    assert end[1..] == [high, low] + rest;
    assert end[1..][2..] == rest;
  }

  /** Receiving what was sent yields the escaped payload, and unescaping that yields the payload. */
  lemma RoundTrip(noise: seq<Byte>, payload: seq<Byte>, rest: seq<Byte>, after: Byte)
    requires Noise(noise) && |Escape(payload)| < 16383
    ensures AwaitStart(noise + Packet(payload) + rest) == Received(Some(Escape(payload)), rest, [PLUS])
    ensures Unescape(Escape(payload), after) == payload
  {
    var body := Escape(payload);
    var sum := Checksum(body);
    EscapedIsClean(payload);
    HexRoundTrip(sum);
    FrameReceived(noise, body, HexChar(sum / 16), HexChar(sum % 16), rest);
    UnescapeEscape(payload, after);
  }

  /** A damaged frame is refused, and its retransmission accepted. */
  lemma Retransmission(damaged: seq<Byte>, high: Byte, low: Byte, payload: seq<Byte>, rest: seq<Byte>)
    requires DOLLAR !in damaged && HASH !in damaged && |damaged| < GDB_BUF_MAX - 1
    requires FromHex(high, low) != Checksum(damaged)
    requires |Escape(payload)| < GDB_BUF_MAX - 1
    ensures AwaitStart(Frame(damaged, high, low) + (Packet(payload) + rest))
         == Received(Some(Escape(payload)), rest, [MINUS, PLUS])
  {
    FrameReceived([], damaged, high, low, Packet(payload) + rest);
    assert [] + Frame(damaged, high, low) == Frame(damaged, high, low);
    RoundTrip([], payload, rest, 0);
    assert [] + Packet(payload) == Packet(payload);
  }

  /** A packet that fills the buffer is dropped without a reply: the length limit is exact. */
  lemma OverlongDropped(noise: seq<Byte>, payload: seq<Byte>, rest: seq<Byte>)
    requires Noise(noise) && |Escape(payload)| >= 16383
    ensures AwaitStart(noise + Packet(payload) + rest)
         == AwaitStart(Packet(payload)[16384..] + rest)
  {
    var body, packet := Escape(payload), Packet(payload);
    EscapedIsClean(payload);
    var first := body[..GDB_BUF_MAX - 1];
    assert packet[1..GDB_BUF_MAX] == first;
    assert noise + packet + rest == noise + [DOLLAR] + (first + (packet[GDB_BUF_MAX..] + rest));
    NoiseSkipped(noise, first + (packet[GDB_BUF_MAX..] + rest));
    BodyCollected([], first, packet[GDB_BUF_MAX..] + rest);
    assert [] + first == first;
  }

  /** "$OK#9b" is answered with a minus and "$OK#9a" with a plus; a sender takes the first for another try. */
  lemma OkReceived()
    ensures (AwaitStart([0x24, 0x4f, 0x4b, 0x23, 0x39, 0x62] + ([0x24, 0x4f, 0x4b, 0x23, 0x39, 0x61] + []))
             == Received(Some([0x4f, 0x4b]), [], [0x2d, 0x2b]))
    ensures Attempts([0x2b]) == 1 && Attempts([0x2d, 0x2b]) == 2
    ensures AwaitStart([0x03]) == Received(Some([0x03]), [], [])
  {
    assert [0x03][1..] == [];
    OkOnTheWire();
    var body: seq<Byte> := [0x4f, 0x4b];
    assert Frame(body, 0x39, 0x62) == [0x24, 0x4f, 0x4b, 0x23, 0x39, 0x62];
    assert FromHex(0x39, 0x62) == 0x9b;
    assert [0x2d, 0x2b][1..] == [0x2b];
    hide AwaitStart, Checksum, Escape, Packet, Frame;
    Retransmission(body, 0x39, 0x62, body, []);
  }

  // ---------- Soundness: nothing but a well-formed frame is accepted ----------

  /** `input`, up to `rest`, ends with a frame for `body` that has the right checksum. */
  ghost predicate EndsWithFrame(input: seq<Byte>, body: seq<Byte>, rest: seq<Byte>) {
    exists before: seq<Byte>, high: Byte, low: Byte ::
      input == before + Frame(body, high, low) + rest && FromHex(high, low) == Checksum(body)
  }

  ghost predicate Justified(input: seq<Byte>, r: Received) {
    match r.packet
    case None => true
    case Some(body) =>
      || (body == [BREAK] && exists before: seq<Byte> :: input == before + [BREAK] + r.rest)
      || (EndsWithFrame(input, body, r.rest) && r.replies != [] && r.replies[|r.replies| - 1] == PLUS
          && DOLLAR !in body && HASH !in body && |body| < 16383)
  }

  lemma FrameLater(prefix: seq<Byte>, input: seq<Byte>, body: seq<Byte>, rest: seq<Byte>)
    requires EndsWithFrame(input, body, rest)
    ensures EndsWithFrame(prefix + input, body, rest)
  {
    hide Frame, FromHex, Checksum;
    var before: seq<Byte>, high: Byte, low: Byte :|
      input == before + Frame(body, high, low) + rest && FromHex(high, low) == Checksum(body);
    assert prefix + input == (prefix + before) + Frame(body, high, low) + rest;
  }

  lemma JustifiedLater(prefix: seq<Byte>, input: seq<Byte>, r: Received, earlier: seq<Byte>)
    requires Justified(input, r)
    ensures Justified(prefix + input, r.After(earlier))
  {
    hide EndsWithFrame;
    if r.packet.Some? {
      var body := r.packet.value;
      if body == [BREAK] && exists before: seq<Byte> :: input == before + [BREAK] + r.rest {
        var before: seq<Byte> :| input == before + [BREAK] + r.rest;
        assert prefix + input == (prefix + before) + [BREAK] + r.rest;
      } else {
        FrameLater(prefix, input, body, r.rest);
      }
    }
  }

  lemma {:induction false} OnlyFramesAccepted(input: seq<Byte>)
    ensures Justified(input, AwaitStart(input))
    decreases |input|, 0
  {
    if input != [] {
      var r := AwaitStart(input);
      if input[0] == DOLLAR {
        BodyJustified(input[1..], []);
        assert [DOLLAR] + [] + input[1..] == input;
      } else if input[0] == BREAK {
        assert input == [] + [BREAK] + r.rest;
      } else {
        OnlyFramesAccepted(input[1..]);
        JustifiedLater([input[0]], input[1..], AwaitStart(input[1..]), []);
        assert [input[0]] + input[1..] == input && r.After([]) == r;
      }
    }
  }

  lemma {:induction false} BodyJustified(input: seq<Byte>, body: seq<Byte>)
    requires DOLLAR !in body && HASH !in body
    ensures Justified([DOLLAR] + body + input, ReadBody(input, body))
    decreases |input|, 1
  {
    var all, r := [DOLLAR] + body + input, ReadBody(input, body);
    if |body| >= GDB_BUF_MAX - 1 {
      OnlyFramesAccepted(input);
      JustifiedLater([DOLLAR] + body, input, r, []);
      assert r.After([]) == r;
    } else if input != [] {
      if input[0] == DOLLAR {
        BodyJustified(input[1..], []);
        JustifiedLater([DOLLAR] + body, [DOLLAR] + [] + input[1..], r, []);
        assert [DOLLAR] + body + ([DOLLAR] + [] + input[1..]) == all && r.After([]) == r;
      } else if input[0] == HASH {
        if |input| >= 3 {
          var high, low, rest := input[1], input[2], input[3..];
          assert input[1..][2..] == rest;
          assert all == [] + Frame(body, high, low) + rest;
          if FromHex(high, low) != Checksum(body) {
            OnlyFramesAccepted(rest);
            JustifiedLater(Frame(body, high, low), rest, AwaitStart(rest), [MINUS]);
            assert all == Frame(body, high, low) + rest;
          }
        }
      } else {
        BodyJustified(input[1..], body + [input[0]]);
        assert [DOLLAR] + (body + [input[0]]) + input[1..] == all;
      }
    }
  }
}
