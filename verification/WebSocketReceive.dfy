/** The receive loop of the client: bytes arrive in any pieces, frames are taken off the front of
    the buffer, and their payloads are joined into messages. */
module WebSocketReceive {
  import opened Bytes
  import opened JsonText
  import opened WebSocketFrame
  import opened WebSocketPacket

  const WEBSOCKET_HEADER_MIN_SIZE := 5

  // ---- what the loop takes from the bytes received so far

  /** Every header that the loop meets is one it can read. */
  predicate AllReadable(b: seq<Byte>)
    decreases |b|
  {
    |b| > WEBSOCKET_HEADER_MIN_SIZE ==>
      Readable(b) && (FrameSize(b) <= |b| ==> AllReadable(b[FrameSize(b)..]))
  }

  /** Is there enough to look at, and a whole frame in it? */
  predicate Ready(b: seq<Byte>) {
    |b| > WEBSOCKET_HEADER_MIN_SIZE && FrameSize(b) <= |b|
  }

  function Frames(b: seq<Byte>): seq<Frame>
    decreases |b|
  {
    if Ready(b) then [FrameAt(b)] + Frames(b[FrameSize(b)..]) else []
  }

  function Rest(b: seq<Byte>): seq<Byte>
    decreases |b|
  {
    if Ready(b) then Rest(b[FrameSize(b)..]) else b
  }

  // ---- what it makes of them

  datatype Message = Message(opcode: Byte, body: seq<Byte>)

  /** Delivered messages, the fragments of the next one, and the pongs sent. */
  datatype Inbox = Inbox(messages: seq<Message>, partial: seq<Byte>, pongs: seq<seq<Byte>>)

  predicate Fin(f: Frame) { f.first >= 128 }

  function Opcode(f: Frame): Byte { f.first % 128 }

  const PING: Byte := 9
  const PONG: Byte := 10

  /** The answer to a ping: its payload under the pong opcode, masked as the ping was. */
  function Pong(ping: Frame): (pong: Frame)
    ensures ValidFrame(pong)
  {
    Frame(128 + PONG, WidthOf(|ping.payload|), ping.key, ping.payload)
  }

  function Deliver(inbox: Inbox, f: Frame): Inbox {
    var body := inbox.partial + f.payload;
    if Fin(f) then
      Inbox(inbox.messages + [Message(Opcode(f), body)], [],
            if Opcode(f) == PING then inbox.pongs + [Encode(Pong(f))] else inbox.pongs)
    else inbox.(partial := body)
  }

  function DeliverAll(inbox: Inbox, fs: seq<Frame>): Inbox
    decreases |fs|
  {
    if fs == [] then inbox else DeliverAll(Deliver(inbox, fs[0]), fs[1..])
  }

  /** A final frame that begins with 0x89 is a ping, and nothing else is.  The answer begins with
      0x8A and carries the ping's payload, under its key if it has one. */
  lemma PingIsAnswered(inbox: Inbox, f: Frame)
    requires ValidFrame(f)
    ensures Deliver(inbox, f).pongs ==
            inbox.pongs + if f.first == 0x89 then [Encode(Frame(0x8A, WidthOf(|f.payload|), f.key, f.payload))] else []
    ensures Encode(Frame(0x8A, WidthOf(|f.payload|), f.key, f.payload))[0] == 0x8A
    ensures f.key == None && |f.payload| <= 125 ==>
              Encode(Frame(0x8A, WidthOf(|f.payload|), f.key, f.payload)) == [0x8A, |f.payload|] + f.payload
  {
  }

  // ---- how the bytes are cut up does not matter

  lemma {:induction false} TakeMore(a: seq<Byte>, b: seq<Byte>)
    requires AllReadable(a + b)
    ensures AllReadable(a) && AllReadable(Rest(a) + b)
    ensures Frames(a + b) == Frames(a) + Frames(Rest(a) + b)
    ensures Rest(a + b) == Rest(Rest(a) + b)
    decreases |a|
  {
    if Ready(a) {
      var n := FrameSize(a);
      TakeFirst(a, b);
      TakeMore(a[n..], b);
      hide *;
      TakeOne(a);
      ConcatAssociative([FrameAt(a)], Frames(a[n..]), Frames(Rest(a[n..]) + b));
    } else {
      NothingTaken(a, b);
    }
  }

  /** A frame that is there is there too when more bytes follow. */
  lemma TakeFirst(a: seq<Byte>, b: seq<Byte>)
    requires Ready(a)
    ensures var n := FrameSize(a);
            && n > 0 && Ready(a + b) && (a + b)[n..] == a[n..] + b
            && (AllReadable(a + b) <==> Readable(a) && AllReadable(a[n..] + b))
            && Frames(a + b) == [FrameAt(a)] + Frames(a[n..] + b) && Rest(a + b) == Rest(a[n..] + b)
  {
    SameHeader(a, b);
    SameFrame(a, b);
    hide FrameAt, Readable, PayloadLength, HeaderSize;
    assert (a + b)[FrameSize(a)..] == a[FrameSize(a)..] + b;
  }

  lemma TakeOne(a: seq<Byte>)
    requires Ready(a)
    ensures var n := FrameSize(a);
            && Frames(a) == [FrameAt(a)] + Frames(a[n..]) && Rest(a) == Rest(a[n..])
            && (AllReadable(a) <==> Readable(a) && AllReadable(a[n..]))
  {
    hide FrameAt, Readable, PayloadLength, HeaderSize;
  }

  lemma NothingTaken(a: seq<Byte>, b: seq<Byte>)
    requires !Ready(a) && AllReadable(a + b)
    ensures AllReadable(a) && Rest(a) == a && Frames(a) + Frames(a + b) == Frames(a + b)
  {
    if |a| > WEBSOCKET_HEADER_MIN_SIZE { SameHeader(a, b); }
    hide FrameAt, Readable, PayloadLength, HeaderSize;
    assert Frames(a) == [];
  }

  lemma SameHeader(a: seq<Byte>, b: seq<Byte>)
    requires |a| >= 6
    ensures FrameSize(a + b) == FrameSize(a) && Readable(a + b) == Readable(a)
  {
    assert (a + b)[1] == a[1] && (a + b)[2] == a[2] && (a + b)[3] == a[3];
  }

  lemma SameFrame(a: seq<Byte>, b: seq<Byte>)
    requires |a| >= 6 && FrameSize(a) <= |a|
    ensures FrameSize(a + b) == FrameSize(a) && FrameAt(a + b) == FrameAt(a)
  {
    hide Masked;
    assert (a + b)[..|a|] == a;
    assert forall i :: 0 <= i < |a| ==> (a + b)[i] == a[i];
    assert (a + b)[HeaderSize(a)..FrameSize(a)] == a[HeaderSize(a)..FrameSize(a)];
    if IsMasked(a) { assert (a + b)[HeaderSize(a) - 4..HeaderSize(a)] == a[HeaderSize(a) - 4..HeaderSize(a)]; }
  }

  lemma {:induction false} DeliverMore(inbox: Inbox, fs: seq<Frame>, gs: seq<Frame>)
    ensures DeliverAll(inbox, fs + gs) == DeliverAll(DeliverAll(inbox, fs), gs)
    decreases |fs|
  {
    if fs == [] {
      assert fs + gs == gs;
    } else {
      assert (fs + gs)[1..] == fs[1..] + gs;
      DeliverMore(Deliver(inbox, fs[0]), fs[1..], gs);
    }
  }

  predicate AllSupported(fs: seq<Frame>) {
    forall i :: 0 <= i < |fs| ==> Supported(fs[i])
  }

  function EncodeAll(fs: seq<Frame>): seq<Byte>
    requires AllSupported(fs)
  {
    if fs == [] then [] else Encode(fs[0]) + EncodeAll(fs[1..])
  }

  /** No byte is lost and none is read twice: what has been received is the frames taken, written
      out again, and then the rest. */
  lemma {:induction false} NothingLost(b: seq<Byte>)
    requires AllReadable(b)
    ensures AllSupported(Frames(b)) && EncodeAll(Frames(b)) + Rest(b) == b
    decreases |b|
  {
    hide Encode, FrameAt, PayloadLength, Readable, Supported;
    if Ready(b) {
      var n := FrameSize(b);
      WriteRead(b);
      NothingLost(b[n..]);
      assert Frames(b)[1..] == Frames(b[n..]);
      assert b == b[..n] + b[n..];
      ConcatAssociative(b[..n], EncodeAll(Frames(b[n..])), Rest(b[n..]));
    }
  }

  /** From any prefix of a stream of frames, the loop takes exactly the first frames, and what is
      left is too short to look at or begins the next frame without completing it. */
  lemma {:induction false} TakesThePrefix(fs: seq<Frame>, p: seq<Byte>)
    requires AllSupported(fs) && p <= EncodeAll(fs)
    ensures AllReadable(p)
    ensures |Frames(p)| <= |fs| && Frames(p) == fs[..|Frames(p)|]
    ensures |Rest(p)| < 6 || (|Frames(p)| < |fs| && |Rest(p)| < |Encode(fs[|Frames(p)|])|)
    decreases |fs|
  {
    hide Begins, Encode, FrameAt, HeaderSize, PayloadLength, Readable;
    if |p| > WEBSOCKET_HEADER_MIN_SIZE {
      var f := fs[0];
      StreamBegins(fs, p);
      ReadWritten(f, p);
      HeaderSeen(f, p);
      if Ready(p) {
        var n := FrameSize(p);
        DropPrefix(p, Encode(f), EncodeAll(fs[1..]));
        TakesThePrefix(fs[1..], p[n..]);
        assert Frames(p) == [f] + Frames(p[n..]);
      }
    }
  }

  lemma DropPrefix<T>(p: seq<T>, a: seq<T>, b: seq<T>)
    requires p <= a + b && |a| <= |p|
    ensures p[|a|..] <= b
  {
    assert (a + b)[|a|..] == b;
  }

  lemma StreamBegins(fs: seq<Frame>, p: seq<Byte>)
    requires AllSupported(fs) && p <= EncodeAll(fs) && p != []
    ensures fs != [] && Begins(p, fs[0])
  {
    var f := fs[0];
    assert EncodeAll(fs)[..|Encode(f)|] == Encode(f);
    if |p| <= |Encode(f)| {
      assert p == EncodeAll(fs)[..|p|] == Encode(f)[..|p|];
    } else {
      assert p[..|Encode(f)|] == EncodeAll(fs)[..|p|][..|Encode(f)|];
    }
  }

  /** A stream of whole frames is taken to its end exactly when its last frame has at least six
      bytes; a shorter last frame waits in the buffer for more. */
  lemma {:induction false} ShortTailWaits(fs: seq<Frame>)
    requires AllSupported(fs)
    ensures Rest(EncodeAll(fs)) == [] <==> fs == [] || |Encode(fs[|fs| - 1])| >= 6
    ensures Rest(EncodeAll(fs)) == [] ==> Frames(EncodeAll(fs)) == fs
  {
    hide Encode, FrameAt, FrameSize, Supported;
    var p := EncodeAll(fs);
    if fs != [] {
      LastIsInside(fs);
      if |p| > WEBSOCKET_HEADER_MIN_SIZE {
        FirstIsTaken(fs);
        ShortTailWaits(fs[1..]);
        assert [fs[0]] + fs[1..] == fs;
      }
    }
  }

  /** A text frame that says "Hi" waits. */
  lemma HiWaits()
    ensures var f := Frame(129, Narrow, None, [72, 105]);
            Supported(f) && Encode(f) == [129, 2, 72, 105]
            && Frames(Encode(f)) == [] && Rest(Encode(f)) == Encode(f)
  {
    var f := Frame(129, Narrow, None, [72, 105]);
    assert Encode(f) == [129, 2] + [] + [] + [72, 105];
  }

  lemma FirstIsTaken(fs: seq<Frame>)
    requires AllSupported(fs) && fs != [] && |EncodeAll(fs)| > WEBSOCKET_HEADER_MIN_SIZE
    ensures var p := EncodeAll(fs);
            Ready(p) && FrameAt(p) == fs[0] && p[FrameSize(p)..] == EncodeAll(fs[1..])
  {
    hide Begins, Encode, FrameAt, HeaderSize, PayloadLength, Readable;
    var p := EncodeAll(fs);
    StreamBegins(fs, p);
    ReadWritten(fs[0], p);
    HeaderSeen(fs[0], p);
    assert p[|Encode(fs[0])|..] == EncodeAll(fs[1..]);
  }

  lemma {:induction false} LastIsInside(fs: seq<Frame>)
    requires AllSupported(fs) && fs != []
    ensures 2 <= |Encode(fs[|fs| - 1])| <= |EncodeAll(fs)|
  {
    if |fs| > 1 { LastIsInside(fs[1..]); }
  }

  // ---- messages

  function Payloads(fs: seq<Frame>): seq<Byte> {
    if fs == [] then [] else fs[0].payload + Payloads(fs[1..])
  }

  /** One message: its fragments in order, FIN on the last. */
  predicate IsMessage(fs: seq<Frame>) {
    fs != [] && forall i :: 0 <= i < |fs| ==> (Fin(fs[i]) <==> i == |fs| - 1)
  }

  function Flatten(groups: seq<seq<Frame>>): seq<Frame> {
    if groups == [] then [] else groups[0] + Flatten(groups[1..])
  }

  function JoinedMessage(fs: seq<Frame>): Message
    requires IsMessage(fs)
  {
    Message(Opcode(fs[|fs| - 1]), Payloads(fs))
  }

  lemma {:induction false} FragmentsJoin(inbox: Inbox, fs: seq<Frame>)
    requires IsMessage(fs)
    ensures DeliverAll(inbox, fs).messages
            == inbox.messages + [Message(Opcode(fs[|fs| - 1]), inbox.partial + Payloads(fs))]
    ensures DeliverAll(inbox, fs).partial == []
    decreases |fs|
  {
    var next := Deliver(inbox, fs[0]);
    assert inbox.partial + Payloads(fs) == (inbox.partial + fs[0].payload) + Payloads(fs[1..]);
    if |fs| == 1 {
      assert DeliverAll(inbox, fs) == next && Payloads(fs) == fs[0].payload + [] == fs[0].payload;
    } else {
      FragmentsJoin(next, fs[1..]);
    }
  }

  /** RFC 6455 gives the opcode in the first fragment and zero in the others (section 5.4).  What is
      delivered with the message is the first one's opcode only when there is one fragment. */
  lemma OpcodeOfFirst(fs: seq<Frame>)
    requires IsMessage(fs) && Opcode(fs[0]) != 0 && forall i :: 0 < i < |fs| ==> Opcode(fs[i]) == 0
    ensures JoinedMessage(fs).opcode == Opcode(fs[0]) <==> |fs| == 1
    ensures |fs| > 1 ==> JoinedMessage(fs).opcode == 0
  {
  }

  /** "Hi" in two text fragments. */
  lemma TwoFragments()
    ensures var fs := [Frame(1, Narrow, None, [72]), Frame(128, Narrow, None, [105])];
            IsMessage(fs) && DeliverAll(Inbox([], [], []), fs).messages == [Message(0, [72, 105])]
  {
    var fs := [Frame(1, Narrow, None, [72]), Frame(128, Narrow, None, [105])];
    FragmentsJoin(Inbox([], [], []), fs);
    assert fs[1..] == [fs[1]] && fs[1..][1..] == [];
    assert Payloads(fs[1..]) == [105] + Payloads([]);
    assert [] + Payloads(fs) == [72] + Payloads(fs[1..]) == [72, 105];
  }

  /** The messages delivered are the fragments joined, one message per FIN, and nothing is left. */
  lemma {:induction false} MessagesJoin(inbox: Inbox, groups: seq<seq<Frame>>)
    requires inbox.partial == [] && forall i :: 0 <= i < |groups| ==> IsMessage(groups[i])
    ensures var r := DeliverAll(inbox, Flatten(groups));
            && r.partial == []
            && r.messages == inbox.messages + seq(|groups|, i requires 0 <= i < |groups| => JoinedMessage(groups[i]))
    decreases |groups|
  {
    if groups != [] {
      var next := DeliverAll(inbox, groups[0]);
      FragmentsJoin(inbox, groups[0]);
      assert inbox.partial + Payloads(groups[0]) == Payloads(groups[0]);
      DeliverMore(inbox, groups[0], Flatten(groups[1..]));
      MessagesJoin(next, groups[1..]);
    }
  }

  /** A stream of whole messages, each in any number of fragments, is delivered as those messages,
      unless its last frame is too short to be looked at. */
  lemma StreamDelivered(groups: seq<seq<Frame>>)
    requires (forall i :: 0 <= i < |groups| ==> IsMessage(groups[i])) && AllSupported(Flatten(groups))
    requires var fs := Flatten(groups); fs == [] || |Encode(fs[|fs| - 1])| >= 6
    ensures var r := DeliverAll(Inbox([], [], []), Frames(EncodeAll(Flatten(groups))));
            && r.messages == seq(|groups|, i requires 0 <= i < |groups| => JoinedMessage(groups[i]))
            && r.partial == []
  {
    ShortTailWaits(Flatten(groups));
    MessagesJoin(Inbox([], [], []), groups);
  }

  // ---- the loop

  /** What one turn of the loop reads: the chunks that SSL_read returns while more is pending, and
      whether it then had to be tried again. */
  datatype Turn = Turn(chunks: seq<seq<Byte>>, retry: bool)

  function Concat(chunks: seq<seq<Byte>>): seq<Byte> {
    if chunks == [] then [] else Concat(chunks[..|chunks| - 1]) + chunks[|chunks| - 1]
  }

  function Received(turns: seq<Turn>): seq<Byte> {
    if turns == [] then [] else Received(turns[..|turns| - 1]) + Concat(turns[|turns| - 1].chunks)
  }

  predicate Reads(turns: seq<Turn>) {
    forall i :: 0 <= i < |turns| ==>
      && (turns[i].retry || turns[i].chunks != [])
      && forall j :: 0 <= j < |turns[i].chunks| ==> turns[i].chunks[j] != []
  }

  /** What has been delivered, and what is to be delivered from the bytes in the buffer. */
  ghost predicate Owes(inbox: Inbox, left: seq<Byte>, all: seq<Byte>) {
    && AllReadable(left)
    && DeliverAll(inbox, Frames(left)) == DeliverAll(Inbox([], [], []), Frames(all))
    && Rest(left) == Rest(all)
  }

  lemma OwesMore(inbox: Inbox, left: seq<Byte>, all: seq<Byte>, more: seq<Byte>)
    requires Owes(inbox, left, all) && AllReadable(all + more)
    ensures Owes(inbox, left + more, all + more)
  {
    TakeMore(all, more);
    ReadableMore(left, more, all);
    TakeMore(left, more);
    var empty := Inbox([], [], []);
    DeliverMore(empty, Frames(all), Frames(Rest(all) + more));
    DeliverMore(inbox, Frames(left), Frames(Rest(left) + more));
  }

  lemma {:induction false} ReadableMore(left: seq<Byte>, more: seq<Byte>, all: seq<Byte>)
    requires AllReadable(left) && AllReadable(Rest(left) + more)
    ensures AllReadable(left + more)
    decreases |left|
  {
    if Ready(left) {
      SameHeader(left, more);
      assert (left + more)[FrameSize(left)..] == left[FrameSize(left)..] + more;
      ReadableMore(left[FrameSize(left)..], more, all);
    }
  }

  /** The part of process_one_message that answers a ping with the packet that held it. */
  method ProcessOneMessage(packet: WebSocketPacket, msg_buf: ByteBuffer, inbox: Inbox) returns (r: Inbox)
    requires packet.Valid() && packet.mask_ <= 1
    modifies packet, packet.payload_`oft
    ensures var key := if old(packet.mask_) == 1 then Some(old(packet.masking_key_)) else None;
            var pong := Encode(Pong(Frame(0, Narrow, key, packet.payload_.data)));
            r == Inbox(inbox.messages + [Message(old(packet.opcode_), msg_buf.data)], inbox.partial,
                       if old(packet.opcode_) == PING then inbox.pongs + [pong] else inbox.pongs)
  {
    r := inbox.(messages := inbox.messages + [Message(packet.opcode_, msg_buf.data)]);
    if packet.opcode_ == PING {
      packet.fin_ := 1;
      packet.opcode_ := PONG;
      var pong_buf := new ByteBuffer();
      packet.PackDataframe(pong_buf);
      assert pong_buf.data == Encode(packet.Packed());
      r := r.(pongs := r.pongs + [pong_buf.data]);
    }
  }

  /** One turn of the inner loop: the next frame, if it is all there, is taken and delivered. */
  method ProcessFrame(ws_packet: WebSocketPacket, recv_buf: ByteBuffer, msg_buf: ByteBuffer, inbox: Inbox)
    returns (taken: bool, r: Inbox)
    requires recv_buf != msg_buf && ws_packet.payload_ !in {recv_buf, msg_buf}
    requires recv_buf.oft <= |recv_buf.data|
    requires |recv_buf.Ahead()| > WEBSOCKET_HEADER_MIN_SIZE && Readable(recv_buf.Ahead())
    requires ws_packet.payload_.data == [] && ws_packet.payload_.oft == 0 && inbox.partial == msg_buf.data
    modifies ws_packet, ws_packet.payload_, recv_buf`oft, msg_buf
    ensures taken == old(Ready(recv_buf.Ahead())) && r.partial == msg_buf.data
    ensures taken ==>
              && r == Deliver(inbox, old(FrameAt(recv_buf.Ahead())))
              && recv_buf.oft == old(recv_buf.oft + FrameSize(recv_buf.Ahead()))
    ensures !taken ==> r == inbox && recv_buf.oft == old(recv_buf.oft)
  {
    hide Readable, Premature, FrameSize, KeyAt, Encode, WidthOf, Masked, FrameAt, Pong;
    ghost var b := recv_buf.Ahead();
    r := inbox;
    ReadableIsWhole(b);
    var offset := ws_packet.RecvDataframe(recv_buf);
    if offset == 0 { return false, r; }
    ghost var f := FrameAt(b);
    FrameFields(b);
    assert ws_packet.payload_.data == f.payload;
    msg_buf.Append(ws_packet.payload_.data);
    r := r.(partial := msg_buf.data);
    if ws_packet.fin_ == 1 {
      r := ProcessOneMessage(ws_packet, msg_buf, r);
      msg_buf.Clear();
      r := r.(partial := []);
    }
    assert r == Deliver(inbox, f);
    return true, r;
  }

  lemma FrameFields(b: seq<Byte>)
    requires |b| >= 6 && FrameSize(b) <= |b|
    ensures var f := FrameAt(b);
            && (Fin(f) <==> b[0] / 128 == 1) && Opcode(f) == b[0] % 128
            && f.key == (if b[1] / 128 == 1 then Some(KeyAt(b)) else None) && (IsMasked(b) <==> b[1] / 128 == 1)
            && Pong(f) == Pong(Frame(0, Narrow, f.key, f.payload))
  {
  }

  /** The inner loop: every frame that is ready is taken off the front. */
  method ProcessBuffer(recv_buf: ByteBuffer, msg_buf: ByteBuffer, inbox: Inbox) returns (r: Inbox)
    requires recv_buf != msg_buf && recv_buf.oft == 0 && |recv_buf.data| > WEBSOCKET_HEADER_MIN_SIZE
    requires AllReadable(recv_buf.data) && inbox.partial == msg_buf.data
    modifies recv_buf, msg_buf
    ensures recv_buf.oft == 0 && recv_buf.data == Rest(old(recv_buf.data))
    ensures r == DeliverAll(inbox, Frames(old(recv_buf.data))) && r.partial == msg_buf.data
  {
    hide FrameAt, Readable, PayloadLength, HeaderSize, Deliver;
    r := inbox;
    var ws_packet := new WebSocketPacket();
    ghost var all := recv_buf.data;
    ghost var target := DeliverAll(inbox, Frames(all));
    assert recv_buf.Ahead() == all;
    while true
      invariant recv_buf.data == all && recv_buf.oft <= |all| && |recv_buf.Ahead()| > WEBSOCKET_HEADER_MIN_SIZE
      invariant AllReadable(recv_buf.Ahead()) && Rest(recv_buf.Ahead()) == Rest(all)
      invariant r.partial == msg_buf.data && DeliverAll(r, Frames(recv_buf.Ahead())) == target
      invariant ws_packet.payload_.data == [] && ws_packet.payload_.oft == 0
      invariant fresh(ws_packet) && fresh(ws_packet.payload_)
      decreases |recv_buf.Ahead()|
    {
      ghost var b, before := recv_buf.Ahead(), r;
      var taken;
      taken, r := ProcessFrame(ws_packet, recv_buf, msg_buf, r);
      if !taken { break; }
      assert recv_buf.Ahead() == b[FrameSize(b)..];
      DeliverNext(before, b);
      if recv_buf.oft + WEBSOCKET_HEADER_MIN_SIZE >= |recv_buf.data| { break; }
      ws_packet.payload_.Clear();
    }
    recv_buf.Erase(recv_buf.oft);
    recv_buf.ResetOft();
  }

  lemma DeliverNext(inbox: Inbox, b: seq<Byte>)
    requires Ready(b)
    ensures DeliverAll(inbox, Frames(b)) == DeliverAll(Deliver(inbox, FrameAt(b)), Frames(b[FrameSize(b)..]))
    ensures FrameSize(b) > 0
  {
    assert Frames(b)[1..] == Frames(b[FrameSize(b)..]);
  }

  /** The client's loop over any turns of reading.  Once a turn has not had to be tried again,
      messages, fragments and left-over bytes are those of everything received so far, however it
      was cut up. */
  method ReadAndProcessMessage(turns: seq<Turn>) returns (r: Inbox, left: seq<Byte>)
    requires Reads(turns) && AllReadable(Received(turns))
    ensures Owes(r, left, Received(turns))
    ensures turns != [] && !turns[|turns| - 1].retry ==>
              r == DeliverAll(Inbox([], [], []), Frames(Received(turns))) && left == Rest(Received(turns))
  {
    r := Inbox([], [], []);
    var recv_buf := new ByteBuffer();
    var msg_buf := new ByteBuffer();
    for k := 0 to |turns|
      invariant recv_buf.oft == 0 && r.partial == msg_buf.data
      invariant Owes(r, recv_buf.data, Received(turns[..k]))
      invariant k > 0 && !turns[k - 1].retry ==> !Ready(recv_buf.data)
    {
      var recv_start_len := |recv_buf.data|;
      ghost var start, all := recv_buf.data, Received(turns[..k]);
      assert turns[..k + 1][..k] == turns[..k];
      ReceivedReadable(turns, k + 1);
      ReadChunks(turns[k].chunks, recv_buf);
      OwesMore(r, start, all, Concat(turns[k].chunks));
      if !turns[k].retry {
        GrowsByChunks(turns[k].chunks);
        if |recv_buf.data| > recv_start_len && |recv_buf.data| > recv_buf.oft + WEBSOCKET_HEADER_MIN_SIZE {
          ghost var b := recv_buf.data;
          r := ProcessBuffer(recv_buf, msg_buf, r);
          RestIsDone(b);
        }
      }
    }
    assert turns[..|turns|] == turns;
    left := recv_buf.data;
  }

  /** The reads of one turn. */
  method ReadChunks(chunks: seq<seq<Byte>>, recv_buf: ByteBuffer)
    modifies recv_buf`data
    ensures recv_buf.data == old(recv_buf.data) + Concat(chunks)
  {
    for j := 0 to |chunks|
      invariant recv_buf.data == old(recv_buf.data) + Concat(chunks[..j])
    {
      recv_buf.Append(chunks[j]);
      assert chunks[..j + 1][..j] == chunks[..j];
    }
    assert chunks[..|chunks|] == chunks;
  }

  lemma {:induction false} RestIsDone(b: seq<Byte>)
    requires AllReadable(b)
    ensures !Ready(Rest(b)) && AllReadable(Rest(b)) && Rest(Rest(b)) == Rest(b) && Frames(Rest(b)) == []
    decreases |b|
  {
    if Ready(b) { RestIsDone(b[FrameSize(b)..]); }
  }

  lemma {:induction false} GrowsByChunks(chunks: seq<seq<Byte>>)
    requires chunks != [] && forall j :: 0 <= j < |chunks| ==> chunks[j] != []
    ensures |Concat(chunks)| > 0
  {
    assert chunks[|chunks| - 1] != [];
  }

  lemma {:induction false} ReceivedReadable(turns: seq<Turn>, k: nat)
    requires k <= |turns| && AllReadable(Received(turns))
    ensures AllReadable(Received(turns[..k]))
  {
    if k < |turns| {
      var front := turns[..|turns| - 1];
      TakeMore(Received(front), Concat(turns[|turns| - 1].chunks));
      ReceivedReadable(front, k);
      assert front[..k] == turns[..k];
    } else {
      assert turns[..k] == turns;
    }
  }
}
