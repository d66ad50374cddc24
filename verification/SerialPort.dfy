/**
 The JTAG serial port server: two ring buffers between a network client and the target,
 filled and drained in at most two linear pieces.
 */
module SerialPort {
  import opened Sequences

  const JSP_BUFFER_SIZE := 256

  type Byte = b: nat | b < 256

  /** A place in a ring. */
  type Place = p: nat | p < JSP_BUFFER_SIZE

  /** How many bytes a ring holds that never overflows. */
  type Filling = n: nat | n <= JSP_BUFFER_SIZE

  /** The `count` bytes of a circular buffer from `rd` on. */
  function Window(buf: seq<Byte>, rd: nat, count: nat): (w: seq<Byte>)
    requires |buf| == JSP_BUFFER_SIZE
    ensures |w| == count
  {
    seq(count, i requires 0 <= i < count => buf[(rd + i) % JSP_BUFFER_SIZE])
  }

  /** `data` written from `at` on, without wrapping. */
  function Overwritten(buf: seq<Byte>, at: nat, data: seq<Byte>): (r: seq<Byte>)
    requires at + |data| <= |buf|
    ensures |r| == |buf|
    ensures forall i :: 0 <= i < |r| ==> r[i] == if at <= i < at + |data| then data[i - at] else buf[i]
  {
    buf[..at] + data + buf[at + |data|..]
  }

  /** The queued bytes are not among the free ones that follow them. */
  lemma NotFree(rd: nat, i: nat, count: nat, room: nat)
    requires i < count && count + room <= JSP_BUFFER_SIZE
    ensures var wr, p := (rd + count) % JSP_BUFFER_SIZE, (rd + i) % JSP_BUFFER_SIZE;
            wr + room <= JSP_BUFFER_SIZE ==> p < wr || wr + room <= p
  {
  }

  /** A linear piece written where the window ends extends it, if there is room. */
  lemma Extended(buf: seq<Byte>, rd: nat, count: nat, data: seq<Byte>)
    requires |buf| == JSP_BUFFER_SIZE && count + |data| <= JSP_BUFFER_SIZE
    requires (rd + count) % JSP_BUFFER_SIZE + |data| <= JSP_BUFFER_SIZE
    ensures (Window(Overwritten(buf, (rd + count) % JSP_BUFFER_SIZE, data), rd, count + |data|)
             == Window(buf, rd, count) + data)
  {
    var wr := (rd + count) % JSP_BUFFER_SIZE;
    var after := Overwritten(buf, wr, data);
    forall i | 0 <= i < count + |data|
      ensures after[(rd + i) % JSP_BUFFER_SIZE] == (Window(buf, rd, count) + data)[i]
    {
      var p := (rd + i) % JSP_BUFFER_SIZE;
      if i < count {
        NotFree(rd, i, count, |data|);
      } else {
        Shifted(rd + count, i - count);
      }
    }
  }

  /** Bytes number `p` and `q` of a stream share a place in the ring. */
  predicate SameCell(p: nat, q: nat) {
    p % JSP_BUFFER_SIZE == q % JSP_BUFFER_SIZE
  }

  lemma Apart(p: nat, q: nat)
    ensures SameCell(p, q) <==> (p - q) % JSP_BUFFER_SIZE == 0
  {
  }

  lemma SameCellFrom(rd: nat, p: nat, q: nat)
    ensures SameCell(rd + p, rd + q) <==> SameCell(p, q)
  {
    hide SameCell;
    Apart(p, q);
    Apart(rd + p, rd + q);
    assert (rd + p) - (rd + q) == p - q;
  }

  /** One byte more: at the end of the window, and, when the ring is full, over an older one. */
  lemma OneMore(buf: seq<Byte>, rd: nat, count: nat, b: Byte)
    requires |buf| == JSP_BUFFER_SIZE
    ensures var more := Window(buf[(rd + count) % JSP_BUFFER_SIZE := b], rd, count + 1);
            forall i :: 0 <= i <= count ==>
              more[i] == if SameCell(i, count) then b else Window(buf, rd, count)[i]
  {
    forall i | 0 <= i <= count ensures SameCell(rd + i, rd + count) <==> SameCell(i, count) {
      SameCellFrom(rd, i, count);
    }
  }

  /** The last of the first `total` bytes of a stream that was put where byte `p` was. */
  function Latest(p: nat, total: nat): (q: nat)
    requires p < total
    ensures p <= q < total && SameCell(p, q) && total - q <= JSP_BUFFER_SIZE
  {
    p + (total - 1 - p) / JSP_BUFFER_SIZE * JSP_BUFFER_SIZE
  }

  lemma LatestMore(p: nat, total: nat)
    requires p < total
    ensures Latest(p, total + 1) == if SameCell(p, total) then total else Latest(p, total)
  {
  }

  lemma LatestIsItself(p: nat, total: nat)
    requires p < total <= p + JSP_BUFFER_SIZE
    ensures Latest(p, total) == p
  {
  }

  /** The place `n` bytes after another. */
  function Onward(at: Place, n: nat): Place {
    (at + n) % JSP_BUFFER_SIZE
  }

  lemma OnwardTwice(at: Place, n: nat, m: nat)
    ensures Onward(Onward(at, n), m) == Onward(at, n + m) && Onward(at, 0) == at
  {
    Wraps(at + n, m);
  }

  lemma Wraps(a: nat, k: nat)
    ensures (a % JSP_BUFFER_SIZE + k) % JSP_BUFFER_SIZE == (a + k) % JSP_BUFFER_SIZE
  {
  }

  /** A step that stays inside the buffer does not wrap. */
  lemma Shifted(a: nat, k: nat)
    requires a % JSP_BUFFER_SIZE + k < JSP_BUFFER_SIZE
    ensures (a + k) % JSP_BUFFER_SIZE == a % JSP_BUFFER_SIZE + k
  {
  }

  lemma Shortened(buf: seq<Byte>, rd: nat, count: nat, n: nat)
    requires |buf| == JSP_BUFFER_SIZE && n <= count
    ensures Window(buf, rd, count) == Window(buf, rd, n) + Window(buf, (rd + n) % JSP_BUFFER_SIZE, count - n)
  {
    var rest := Window(buf, (rd + n) % JSP_BUFFER_SIZE, count - n);
    forall i | n <= i < count ensures Window(buf, rd, count)[i] == rest[i - n] {
      assert (rd + i) % JSP_BUFFER_SIZE == ((rd + n) % JSP_BUFFER_SIZE + (i - n)) % JSP_BUFFER_SIZE;
    }
  }

  class Ring {
    const buf: array<Byte>
    var rdIdx: nat
    var wrIdx: nat
    var count: nat

    ghost predicate Indices()
      reads this
    {
      && buf.Length == JSP_BUFFER_SIZE && rdIdx < JSP_BUFFER_SIZE
      && wrIdx == (rdIdx + count) % JSP_BUFFER_SIZE
    }

    ghost predicate Valid()
      reads this
    {
      Indices() && count <= JSP_BUFFER_SIZE
    }

    /** The bytes queued, oldest first. */
    ghost function Contents(): (queued: seq<Byte>)
      requires buf.Length == JSP_BUFFER_SIZE
      reads this, buf
      ensures |queued| == count
    {
      Window(buf[..], rdIdx, count)
    }

    constructor ()
      ensures Valid() && Contents() == [] && fresh(buf)
    {
      buf := new Byte[JSP_BUFFER_SIZE];
      rdIdx, wrIdx, count := 0, 0, 0;
    }

    method Clear()
      requires buf.Length == JSP_BUFFER_SIZE
      modifies this
      ensures Valid() && Contents() == [] && rdIdx == wrIdx == count == 0
    {
      rdIdx, wrIdx, count := 0, 0, 0;
    }

    /** Puts data into the linear part that is free. */
    method Store(data: seq<Byte>)
      requires Valid() && count + |data| <= JSP_BUFFER_SIZE && wrIdx + |data| <= JSP_BUFFER_SIZE
      modifies this`wrIdx, this`count, buf
      ensures Valid() && Contents() == old(Contents()) + data && count == old(count) + |data|
      ensures wrIdx == (old(wrIdx) + |data|) % JSP_BUFFER_SIZE
    {
      hide Window, Overwritten;
      Extended(buf[..], rdIdx, count, data);
      Write(data);
      wrIdx := (wrIdx + |data|) % JSP_BUFFER_SIZE;
      count := count + |data|;
    }

    method Write(data: seq<Byte>)
      requires Valid() && wrIdx + |data| <= JSP_BUFFER_SIZE
      modifies buf
      ensures buf[..] == Overwritten(old(buf[..]), wrIdx, data)
    {
      forall k | 0 <= k < |data| {
        buf[wrIdx + k] := data[k];
      }
    }

    /** One `recv` into the linear part that is free; returns a negative number if it failed. */
    method ReceivePart(incoming: seq<Byte>, choice: int) returns (n: int)
      requires Valid()
      modifies this`wrIdx, this`count, buf
      ensures Valid() && n <= |incoming|
      ensures Contents() == old(Contents()) + incoming[..if n < 0 then 0 else n]
      ensures n < 0 <==> choice < 0
      ensures (if n < 0 then 0 else n) == Receivable(old(wrIdx), old(count), |incoming|, choice)
      ensures count == old(count) + if n < 0 then 0 else n
      ensures wrIdx == Onward(old(wrIdx), if n < 0 then 0 else n)
    {
      var space := JSP_BUFFER_SIZE - wrIdx;
      if space > JSP_BUFFER_SIZE - count {
        space := JSP_BUFFER_SIZE - count;
      }
      n := Delivered(incoming, space, choice);
      if n > 0 {
        Store(incoming[..n]);
      }
    }

    /** Fills the ring up to its end, and then from its start. */
    method ReceiveAll(incoming: seq<Byte>, choice1: int, choice2: int) returns (taken: nat)
      requires Valid()
      modifies this`wrIdx, this`count, buf
      ensures Valid() && taken <= |incoming|
      ensures Contents() == old(Contents()) + incoming[..taken]
      ensures choice1 < 0 ==> taken == 0
      ensures (choice1 >= JSP_BUFFER_SIZE && choice2 >= JSP_BUFFER_SIZE
               ==> taken == Smaller(|incoming|, JSP_BUFFER_SIZE - old(count)))
      ensures choice1 >= 1 && incoming != [] && old(count) < JSP_BUFFER_SIZE ==> taken >= 1
      ensures taken == Taken(old(wrIdx), old(count), |incoming|, choice1, choice2)
      ensures wrIdx == Onward(old(wrIdx), taken) && count == old(count) + taken
    {
      ghost var wr, all := wrIdx, Taken(wrIdx, count, |incoming|, choice1, choice2);
      OnwardTwice(wrIdx, 0, 0);
      hide Receivable, Window, Smaller, Onward, Delivered, Ring.Indices, Ring.Valid, Ring.Contents;
      var n := ReceivePart(incoming, choice1);
      if n < 0 {
        taken := 0;
      } else {
        var m := ReceivePart(incoming[n..], choice2);
        taken := n + if m < 0 then 0 else m;
        OnwardTwice(wr, n, taken - n);
        TwoPrefixes(incoming, n, taken);
      }
    }

    /** Removes the oldest bytes. */
    method Discard(n: nat)
      requires Indices() && n <= count
      modifies this`rdIdx, this`count
      ensures Indices() && Contents() == old(Contents())[n..] && count == old(count) - n
      ensures rdIdx == (old(rdIdx) + n) % JSP_BUFFER_SIZE
    {
      Shortened(buf[..], rdIdx, count, n);
      count := count - n;
      rdIdx := (rdIdx + n) % JSP_BUFFER_SIZE;
    }

    /** Takes data from the linear part that is filled. */
    method Take(n: nat) returns (data: seq<Byte>)
      requires Indices() && n <= count && rdIdx + n <= JSP_BUFFER_SIZE
      modifies this`rdIdx, this`count
      ensures Indices() && old(Contents()) == data + Contents() && count == old(count) - n
      ensures rdIdx == (old(rdIdx) + n) % JSP_BUFFER_SIZE
    {
      data := buf[rdIdx..rdIdx + n];
      assert data == Contents()[..n];
      Discard(n);
    }

    /** One `send` from the linear part that is filled; even of a ring that holds more than there is room for. */
    method SendPart(choice: int) returns (sent: seq<Byte>)
      requires Indices()
      modifies this`rdIdx, this`count
      ensures Indices() && old(Contents()) == sent + Contents() && |sent| == Sendable(old(rdIdx), old(count), choice)
      ensures rdIdx == (old(rdIdx) + |sent|) % JSP_BUFFER_SIZE && count == old(count) - |sent|
    {
      sent := [];
      if count > 0 {
        var available := count;
        if available > JSP_BUFFER_SIZE - rdIdx {
          available := JSP_BUFFER_SIZE - rdIdx;
        }
        var n := if choice < available then choice else available;
        if n >= 0 {
          sent := Take(n);
        }
      }
    }

    /** Drains the ring up to its end, and then from its start. */
    method SendAll(choice1: int, choice2: int) returns (sent: seq<Byte>)
      requires Indices()
      modifies this`rdIdx, this`count
      ensures Indices() && old(Contents()) == sent + Contents()
      ensures (rdIdx, count) == AfterSend(AfterSend((old(rdIdx), old(count)), choice1), choice2)
      ensures old(Valid()) && choice1 >= JSP_BUFFER_SIZE && choice2 >= JSP_BUFFER_SIZE ==> Contents() == []
    {
      var first := SendPart(choice1);
      var second := SendPart(choice2);
      sent := first + second;
      AppendAssociates(first, second, Contents());
    }

    /** The first `n` bytes queued, without removing them. */
    method Peek(n: nat) returns (data: seq<Byte>)
      requires Valid() && n <= count
      ensures data == Contents()[..n]
    {
      data := [];
      var j := rdIdx;
      for i := 0 to n
        invariant j == (rdIdx + i) % JSP_BUFFER_SIZE && data == Contents()[..i]
      {
        data := data + [buf[j]];
        j := (j + 1) % JSP_BUFFER_SIZE;
      }
    }

    /** Queues one byte; nothing checks that there is room, and in a full ring it replaces an older one. */
    method Queue(b: Byte)
      requires Indices()
      modifies this`wrIdx, this`count, buf
      ensures Indices() && count == old(count) + 1
      ensures forall i :: 0 <= i <= old(count) ==>
        Contents()[i] == if SameCell(i, old(count)) then b else old(Contents())[i]
      ensures old(count) < JSP_BUFFER_SIZE ==> Contents() == old(Contents()) + [b]
    {
      hide Window;
      OneMore(buf[..], rdIdx, count, b);
      buf[wrIdx] := b;
      Wraps(rdIdx + count, 1);
      wrIdx := (wrIdx + 1) % JSP_BUFFER_SIZE;
      count := count + 1;
    }
  }

  /** How many bytes a `send` from the linear part takes; it fails when `choice` is negative. */
  function Sendable(rd: Place, count: nat, choice: int): (n: nat)
    ensures n <= count && rd + n <= JSP_BUFFER_SIZE
  {
    var available := Smaller(count, JSP_BUFFER_SIZE - rd);
    if choice < 0 then 0 else Smaller(choice, available)
  }

  /** The read index and the count after a `send`. */
  function AfterSend(at: (Place, nat), choice: int): (Place, nat) {
    var n := Sendable(at.0, at.1, choice);
    ((at.0 + n) % JSP_BUFFER_SIZE, at.1 - n)
  }

  lemma TwoPrefixes(s: seq<Byte>, n: nat, m: nat)
    requires n <= m <= |s|
    ensures s[..n] + s[n..][..m - n] == s[..m]
    ensures forall before: seq<Byte> :: (before + s[..n]) + s[n..][..m - n] == before + s[..m]
  {
    forall before: seq<Byte> ensures (before + s[..n]) + s[n..][..m - n] == before + s[..m] {
      AppendAssociates(before, s[..n], s[n..][..m - n]);
    }
  }

  /** How many bytes a `recv` into the linear part takes, of those that have arrived. */
  function Receivable(wr: Place, count: Filling, arrived: nat, choice: int): (n: nat)
    ensures n <= arrived && wr + n <= JSP_BUFFER_SIZE && count + n <= JSP_BUFFER_SIZE
  {
    var space := Smaller(JSP_BUFFER_SIZE - wr, JSP_BUFFER_SIZE - count);
    if choice < 0 then 0 else Smaller(choice, Smaller(space, arrived))
  }

  /**
   How many bytes the two calls take; the second is not made after the first has failed. Calls that deliver
   all they can fill the ring, or take all that has arrived; and a first call that delivers anything is enough
   for one byte.
   */
  function Taken(wr: Place, count: Filling, arrived: nat, choice1: int, choice2: int): (n: nat)
    ensures n <= arrived && count + n <= JSP_BUFFER_SIZE
    ensures (choice1 >= JSP_BUFFER_SIZE && choice2 >= JSP_BUFFER_SIZE
             ==> n == Smaller(arrived, JSP_BUFFER_SIZE - count))
    ensures choice1 >= 1 && arrived > 0 && count < JSP_BUFFER_SIZE ==> n >= 1
  {
    var n := Receivable(wr, count, arrived, choice1);
    if choice1 < 0 then 0
    else n + Receivable(Onward(wr, n), count + n, arrived - n, choice2)
  }

  /** How much of what has arrived a `recv` delivers; it fails when `choice` is negative. */
  function Delivered(incoming: seq<Byte>, space: nat, choice: int): (n: int)
    ensures n <= space && n <= |incoming| && (n < 0 <==> choice < 0)
    ensures choice >= 0 ==> n == Smaller(choice, Smaller(space, |incoming|))
  {
    if choice < 0 then -1
    else if choice <= space && choice <= |incoming| then choice
    else if space <= |incoming| then space
    else |incoming|
  }

  /** One more byte of the stream takes the place of the queued one that shares it. */
  lemma LatestAfter(sent: nat, i: nat, count: nat)
    requires i <= count
    ensures var p, total := sent + i, sent + count;
            && (SameCell(i, count) <==> SameCell(p, total))
            && Latest(p, total + 1) == if SameCell(i, count) then total else if i < count then Latest(p, total) else p
  {
    hide Latest, SameCell;
    SameCellFrom(sent, i, count);
    if i < count {
      LatestMore(sent + i, sent + count);
    }
  }

  /** Each byte queued is the last one of the stream that was put in its place. */
  ghost predicate InPlace(queued: seq<Byte>, sent: nat, stream: seq<Byte>) {
    && |stream| == sent + |queued|
    && forall i :: 0 <= i < |queued| ==> queued[i] == stream[Latest(sent + i, |stream|)]
  }

  /** What is sent on, and what is still queued, are in place. */
  lemma SentInPlace(first: seq<Byte>, rest: seq<Byte>, sent: nat, stream: seq<Byte>)
    requires InPlace(first + rest, sent, stream)
    ensures forall i :: 0 <= i < |first| ==> first[i] == stream[Latest(sent + i, |stream|)]
    ensures InPlace(rest, sent + |first|, stream)
  {
    hide Latest;
    var queued := first + rest;
    forall i | 0 <= i < |rest| ensures rest[i] == stream[Latest(sent + |first| + i, |stream|)] {
      assert queued[|first| + i] == stream[Latest(sent + (|first| + i), |stream|)];
    }
    forall i | 0 <= i < |first| ensures first[i] == stream[Latest(sent + i, |stream|)] {
      assert queued[i] == stream[Latest(sent + i, |stream|)];
    }
  }

  // ---------- The port ----------

  const MAX_TRANSFER := 8

  /** Both directions, with everything that has gone in and out of them since the start. */
  class Port {
    const toHw: Ring
    const fromHw: Ring
    ghost var fromClient: seq<Byte>
    ghost var toHardware: seq<Byte>
    ghost var fromHardware: seq<Byte>
    ghost var toClient: seq<Byte>

    ghost predicate Separate()
      reads this
    {
      toHw != fromHw && toHw.buf != fromHw.buf
    }

    /** What the hardware accepted, then what is queued, is what the client sent. */
    ghost predicate Outbound()
      reads this, toHw, toHw.buf
    {
      toHw.Valid() && fromClient == toHardware + toHw.Contents()
    }

    /** What the client was sent, then what is queued, is what the hardware sent. */
    ghost predicate Inbound()
      reads this, fromHw, fromHw.buf
    {
      fromHw.Valid() && fromHardware == toClient + fromHw.Contents()
    }

    /**
     What holds even after the inbound ring has overflowed: as many bytes are sent or queued as the hardware
     sent, and in the place of each queued one is the last that was put there.
     */
    ghost predicate Queued()
      reads this, fromHw, fromHw.buf
    {
      fromHw.Indices() && InPlace(fromHw.Contents(), |toClient|, fromHardware)
    }

    constructor ()
      ensures Separate() && Outbound() && Inbound() && Queued() && fromClient == fromHardware == []
    {
      toHw := new Ring();
      fromHw := new Ring();
      fromClient, toHardware, fromHardware, toClient := [], [], [], [];
    }

    /** The inbound direction is intact exactly when the ring has room and the client was sent no wrong byte. */
    lemma IntactIff()
      requires Queued()
      ensures Inbound() <==> fromHw.count <= JSP_BUFFER_SIZE && toClient <= fromHardware
    {
      if fromHw.count <= JSP_BUFFER_SIZE {
        Healed();
      }
    }

    /** As soon as the ring does not overflow any more, every byte queued is right again. */
    lemma Healed()
      requires Queued() && fromHw.count <= JSP_BUFFER_SIZE
      ensures fromHw.Contents() == fromHardware[|toClient|..]
    {
      forall i | 0 <= i < fromHw.count ensures fromHw.Contents()[i] == fromHardware[|toClient| + i] {
        LatestIsItself(|toClient| + i, |fromHardware|);
      }
    }

    /** A new client finds both rings empty; what was queued for the last one is dropped. */
    method Accept()
      requires Separate() && Outbound() && Queued()
      modifies this, toHw, fromHw
      ensures Outbound() && Inbound() && Queued() && fromHw.rdIdx == fromHw.count == toHw.wrIdx == toHw.count == 0
      ensures fromClient == toHardware == fromHardware == toClient == []
    {
      toHw.Clear();
      fromHw.Clear();
      fromClient, toHardware, fromHardware, toClient := [], [], [], [];
    }

    /** Takes from the client what it has sent, as far as there is room and the calls deliver it. */
    method QueueDataFromClient(incoming: seq<Byte>, choice1: int, choice2: int) returns (taken: nat)
      requires Separate() && Outbound() && Queued()
      modifies this`fromClient, toHw`wrIdx, toHw`count, toHw.buf
      ensures Outbound() && Queued() && taken <= |incoming|
      ensures fromClient == old(fromClient) + incoming[..taken]
      ensures choice1 >= 256 && choice2 >= 256 ==> taken == Smaller(|incoming|, 256 - old(toHw.count))
      ensures choice1 >= 1 && incoming != [] && old(toHw.count) < 256 ==> taken >= 1
      ensures taken == Taken(old(toHw.wrIdx), old(toHw.count), |incoming|, choice1, choice2)
      ensures toHw.wrIdx == Onward(old(toHw.wrIdx), taken) && toHw.count == old(toHw.count) + taken
    {
      taken := toHw.ReceiveAll(incoming, choice1, choice2);
      fromClient := fromClient + incoming[..taken];
    }

    /** Sends what is queued, in order; when the ring has overflowed, what has been put in its place. */
    method SendDataToClient(choice1: int, choice2: int)
      requires Separate() && Outbound() && Queued()
      modifies this`toClient, fromHw`rdIdx, fromHw`count
      ensures Outbound() && Queued() && old(toClient) <= toClient
      ensures forall p :: |old(toClient)| <= p < |toClient| ==> toClient[p] == fromHardware[Latest(p, |fromHardware|)]
      ensures (fromHw.rdIdx, fromHw.count)
           == AfterSend(AfterSend((old(fromHw.rdIdx), old(fromHw.count)), choice1), choice2)
      ensures old(Inbound()) ==> Inbound()
      ensures (old(Inbound()) && choice1 >= JSP_BUFFER_SIZE && choice2 >= JSP_BUFFER_SIZE
               ==> toClient == fromHardware)
    {
      hide Latest, AfterSend, Ring.Contents, InPlace;
      ghost var passed := |toClient|;
      var sent := fromHw.SendAll(choice1, choice2);
      AppendAssociates(toClient, sent, fromHw.Contents());
      SentInPlace(sent, fromHw.Contents(), passed, fromHardware);
      toClient := toClient + sent;
      assert forall p :: passed <= p < |toClient| ==> toClient[p] == sent[p - passed];
    }

    /** Offers up to eight bytes; the hardware takes as many as it has room for. */
    method Offer(ok: bool, free: nat) returns (offered: seq<Byte>)
      requires Separate() && Outbound()
      modifies this`toHardware, toHw`rdIdx, toHw`count
      ensures Outbound() && offered == old(toHw.Contents())[..Smaller(old(toHw.count), 8)]
      ensures toHardware == old(toHardware) + if ok then offered[..Smaller(free, |offered|)] else []
      ensures toHw.count == old(toHw.count) - if ok then Smaller(free, |offered|) else 0
    {
      var bytesToSend := Smaller(toHw.count, MAX_TRANSFER);
      offered := toHw.Peek(bytesToSend);
      if ok {
        ghost var queued := toHw.Contents();
        var accepted := Smaller(free, bytesToSend);
        toHw.Discard(accepted);
        toHardware := toHardware + offered[..accepted];
        assert queued == offered[..accepted] + toHw.Contents();
      }
    }

    /** Queues what the hardware sent. */
    method QueueReceived(received: seq<Byte>)
      requires Separate() && Queued()
      modifies this`fromHardware, fromHw`wrIdx, fromHw`count, fromHw.buf
      ensures Queued() && fromHardware == old(fromHardware) + received
      ensures fromHw.count == old(fromHw.count) + |received|
    {
      for i := 0 to |received|
        invariant Queued() && fromHw.count == old(fromHw.count) + i
        invariant fromHardware == old(fromHardware) + received[..i]
      {
        QueueOne(received[i]);
      }
      assert received[..|received|] == received;
    }

    method QueueOne(b: Byte)
      requires Separate() && Queued()
      modifies this`fromHardware, fromHw`wrIdx, fromHw`count, fromHw.buf
      ensures Queued() && fromHardware == old(fromHardware) + [b] && fromHw.count == old(fromHw.count) + 1
    {
      hide Latest, SameCell, Ring.Contents;
      ghost var total, n, sent := |fromHardware|, fromHw.count, |toClient|;
      fromHw.Queue(b);
      fromHardware := fromHardware + [b];
      forall i | 0 <= i <= n ensures fromHw.Contents()[i] == fromHardware[Latest(sent + i, total + 1)] {
        LatestAfter(sent, i, n);
      }
    }

    /**
     One exchange with the hardware. It always keeps the outbound direction in order, and an inbound
     direction that is intact exactly when what arrives fits.
     */
    method HardwareTransact(ok: bool, free: nat, received: seq<Byte>) returns (offered: seq<Byte>)
      requires Separate() && Outbound() && Queued() && |received| <= MAX_TRANSFER
      modifies this`toHardware, this`fromHardware, toHw`rdIdx, toHw`count, fromHw`wrIdx, fromHw`count, fromHw.buf
      ensures Outbound() && offered == old(toHw.Contents())[..Smaller(old(toHw.count), 8)]
      ensures toHardware == old(toHardware) + if ok then offered[..Smaller(free, |offered|)] else []
      ensures toHw.count == old(toHw.count) - if ok then Smaller(free, |offered|) else 0
      ensures Queued() && fromHardware == old(fromHardware) + if ok then received else []
      ensures fromHw.count == old(fromHw.count) + if ok then |received| else 0
      ensures old(Inbound()) ==> (Inbound() <==> !ok || old(fromHw.count) + |received| <= 256)
    {
      offered := Offer(ok, free);
      if ok {
        ghost var before := fromHardware;
        QueueReceived(received);
        assert before <= fromHardware;
        IntactIff();
      }
    }

    // ---------- Runs ----------

    /** The rings are where `v` says, what was taken in is what it says, and the inbound one is intact if it says so. */
    ghost predicate Matches(v: View)
      reads this, toHw, fromHw, fromHw.buf
    {
      && v.rd == fromHw.rdIdx && v.count == fromHw.count && (v.intact ==> Inbound())
      && v.wr == toHw.wrIdx && v.waiting == toHw.count
      && v.fromClient == fromClient && v.fromHardware == fromHardware
    }

    /** One event of a run. */
    method Handle(event: Event, ghost v: View)
      requires Separate() && Outbound() && Queued() && Matches(v) && event.Possible()
      modifies this, toHw, toHw.buf, fromHw, fromHw.buf
      ensures Outbound() && Queued() && Matches(After(v, event))
      ensures v.intact ==> (Inbound() <==> After(v, event).intact)
    {
      match event
      case NewClient => Accept();
      case Receive(incoming, choice1, choice2) => var _ := QueueDataFromClient(incoming, choice1, choice2);
      case Send(choice1, choice2) => SendDataToClient(choice1, choice2);
      case Transact(ok, free, received) => var _ := HardwareTransact(ok, free, received);
    }

    /**
     Any sequence of events, in any order, failing or not: the outbound direction is always in order, exactly the
     bytes that `AfterAll` says are taken from the client and from the hardware and not yet passed on; the inbound
     ring holds what `Queued` says, and the inbound direction stays intact until, exactly, the first exchange that
     does not fit; a new client makes it intact again.
     */
    method Serve(events: seq<Event>)
      requires Separate() && Outbound() && Queued() && forall e :: e in events ==> e.Possible()
      modifies this, toHw, toHw.buf, fromHw, fromHw.buf
      ensures Outbound() && Queued() && Matches(AfterAll(old(Now()), events))
      ensures (events != [] && AfterAll(old(Now()), events[..|events| - 1]).intact
               ==> (Inbound() <==> AfterAll(old(Now()), events).intact))
    {
      hide Port.Outbound, Port.Queued, Port.Inbound, Port.Matches, After, Event.Possible;
      ghost var v := Now();
      for i := 0 to |events|
        invariant Outbound() && Queued() && Matches(AfterAll(v, events[..i]))
        invariant (i > 0 && AfterAll(v, events[..i - 1]).intact
                   ==> (Inbound() <==> AfterAll(v, events[..i]).intact))
      {
        assert events[..i + 1] == events[..i] + [events[i]];
        Handle(events[i], AfterAll(v, events[..i]));
      }
      assert events[..|events|] == events;
    }

    ghost function Now(): (v: View)
      requires Outbound() && Queued()
      reads this, toHw, toHw.buf, fromHw, fromHw.buf
      ensures Matches(v)
    {
      View(fromHw.rdIdx, fromHw.count, Inbound(), toHw.wrIdx, toHw.count, fromClient, fromHardware)
    }
  }

  /** What the server thread does; what the system calls give is part of the event. */
  datatype Event =
    | NewClient
    | Receive(incoming: seq<Byte>, choice1: int, choice2: int)
    | Send(choice1: int, choice2: int)
    | Transact(ok: bool, free: nat, received: seq<Byte>)
  {
    predicate Possible() {
      Transact? ==> |received| <= MAX_TRANSFER
    }
  }

  /**
   Where the inbound ring is read and how many bytes it holds, and whether no exchange since the last new
   client went beyond it; where the outbound ring is written and how many bytes wait in it; and what has
   been taken from either side since then.
   */
  datatype View = View(rd: Place, count: nat, intact: bool, wr: Place, waiting: Filling,
                       fromClient: seq<Byte>, fromHardware: seq<Byte>)

  function After(v: View, event: Event): View {
    match event
    case NewClient => View(0, 0, true, 0, 0, [], [])
    case Receive(incoming, choice1, choice2) =>
      var n := Taken(v.wr, v.waiting, |incoming|, choice1, choice2);
      v.(wr := Onward(v.wr, n), waiting := v.waiting + n, fromClient := v.fromClient + incoming[..n])
    case Send(choice1, choice2) =>
      var (rd, count) := AfterSend(AfterSend((v.rd, v.count), choice1), choice2);
      v.(rd := rd, count := count)
    case Transact(ok, free, received) =>
      if !ok then v
      else
        var count := v.count + |received|;
        v.(count := count, intact := v.intact && count <= 256,
           waiting := v.waiting - Smaller(free, Smaller(v.waiting, 8)),
           fromHardware := v.fromHardware + received)
  }

  function AfterAll(v: View, events: seq<Event>): View {
    if events == [] then v else After(AfterAll(v, events[..|events| - 1]), events[|events| - 1])
  }

  function Smaller(a: nat, b: nat): nat {
    if a < b then a else b
  }
}
