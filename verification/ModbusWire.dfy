/**
MBAP framing and stream reassembly on both ends of a Modbus TCP connection:
internal/modbus/protocol.go, internal/modbus/client.go and the frame loop of
internal/modbusserver/server.go.
*/
module ModbusWire {
  import opened Common
  import opened Bytes

  /** An MBAP header: transaction, protocol 0, length, unit. */
  function Header(txn: u16, length: u16, unit: byte): (h: seq<byte>)
    ensures |h| == 7 && Get16(h[0], h[1]) == txn && h[2] == h[3] == 0 && Get16(h[4], h[5]) == length && h[6] == unit
  {
    Put16(txn) + [0, 0] + Put16(length) + [unit]
  }

  /** The frame of a PDU, request or response. The 16-bit length field holds what fits of it. */
  function Frame(txn: u16, unit: byte, pdu: seq<byte>): (r: seq<byte>)
    ensures |r| == 7 + |pdu|
  {
    Header(txn, Field(|pdu| + 1), unit) + pdu
  }

  /** What a 16-bit field keeps of a number. */
  function Field(n: nat): u16 {
    if n < 0x1_0000 then n else n % 0x1_0000
  }

  /** The length field of a header. */
  function LengthField(buf: seq<byte>): (n: int)
    requires |buf| >= 7
    ensures 0 <= n < 0x1_0000
  {
    Get16(buf[4], buf[5])
  }

  lemma FrameFields(txn: u16, unit: byte, pdu: seq<byte>, rest: seq<byte>)
    requires |pdu| < 0xFFFF
    ensures var b := Frame(txn, unit, pdu) + rest;
      Get16(b[0], b[1]) == txn && b[2] == b[3] == 0 && LengthField(b) == |pdu| + 1 && b[6] == unit &&
      b[7..7 + |pdu|] == pdu && b[7 + |pdu|..] == rest
  {
    Prefixed(Header(txn, |pdu| + 1, unit), pdu, rest);
  }

  lemma Prefixed(h: seq<byte>, p: seq<byte>, rest: seq<byte>)
    ensures var b := h + p + rest;
      (forall i | 0 <= i < |h| :: b[i] == h[i]) && b[|h|..|h| + |p|] == p && b[|h| + |p|..] == rest
  {
  }

  // ----- the server's end -----

  /** Whether the handler is still serving, has returned, or has hit a run-time panic. */
  datatype Status = Open | Closed | Panicked

  /** One connection: unread bytes, the device's registers, and the frames written so far. */
  datatype Conn<R> = Conn(buf: seq<byte>, regs: R, sent: seq<seq<byte>>, status: Status)

  /** The server's unit id, the write that fails, if one does, and what the device does with a PDU. */
  datatype Setup<!R> = Setup(unitId: int, failAt: Option<nat>, handle: (R, seq<byte>) -> (seq<byte>, R))

  predicate Addressed(unitId: int, unit: byte) {
    unit == unitId || unit == 0
  }

  /** Answers one request, or closes the connection when the write fails. */
  function Answer<R>(s: Setup<R>, c: Conn<R>, txn: u16, unit: byte, pdu: seq<byte>): Conn<R> {
    if !Addressed(s.unitId, unit) then c
    else
      var (resp, regs) := s.handle(c.regs, pdu);
      if s.failAt == Some(|c.sent|) then Conn([], regs, c.sent, Closed)
      else c.(regs := regs, sent := c.sent + [Frame(txn, unit, resp)])
  }

  /** The buffer starts with a complete frame. */
  predicate HasFrame(buf: seq<byte>) {
    |buf| >= 7 && |buf| >= 6 + LengthField(buf)
  }

  /**
  Takes one frame off the buffer and answers it. A length field of 0 makes the handler ask for a
  buffer of negative size, which panics.
  */
  function TakeFrame<R>(s: Setup<R>, c: Conn<R>): (r: Conn<R>)
    requires HasFrame(c.buf)
    ensures |r.buf| < |c.buf|
  {
    var n := LengthField(c.buf);
    if n == 0 then c.(buf := [], status := Panicked)
    else Answer(s, c.(buf := c.buf[6 + n..]), Get16(c.buf[0], c.buf[1]), c.buf[6], c.buf[7..6 + n])
  }

  /** Consumes the complete frames in the buffer. */
  function Feed<R>(s: Setup<R>, c: Conn<R>): Conn<R>
    decreases |c.buf|
  {
    if c.status == Open && HasFrame(c.buf) then Feed(s, TakeFrame(s, c)) else c
  }

  /** One read from the socket. */
  function Receive<R>(s: Setup<R>, c: Conn<R>, chunk: seq<byte>): Conn<R> {
    if c.status != Open then c else Feed(s, c.(buf := c.buf + chunk))
  }

  function ReceiveAll<R>(s: Setup<R>, c: Conn<R>, chunks: seq<seq<byte>>): Conn<R>
    decreases |chunks|
  {
    if chunks == [] then c else ReceiveAll(s, Receive(s, c, chunks[0]), chunks[1..])
  }

  lemma AnswerKeepsBuffer<R>(s: Setup<R>, c: Conn<R>, more: seq<byte>, txn: u16, unit: byte, pdu: seq<byte>)
    requires c.status == Open
    ensures var r := Answer(s, c, txn, unit, pdu); var r' := Answer(s, c.(buf := c.buf + more), txn, unit, pdu);
      if r.status == Open then r.buf == c.buf && r' == r.(buf := r.buf + more) else r' == r
  {
  }

  lemma HeaderStable(buf: seq<byte>, more: seq<byte>)
    requires HasFrame(buf)
    ensures HasFrame(buf + more) && LengthField(buf + more) == LengthField(buf)
    ensures (buf + more)[6] == buf[6] && Get16((buf + more)[0], (buf + more)[1]) == Get16(buf[0], buf[1])
    ensures var n := LengthField(buf); n > 0 ==>
      (buf + more)[7..6 + n] == buf[7..6 + n] && (buf + more)[6 + n..] == buf[6 + n..] + more
  {
  }

  lemma TakenFrame<R>(s: Setup<R>, c: Conn<R>, n: int, txn: u16, unit: byte, pdu: seq<byte>, rest: seq<byte>)
    requires HasFrame(c.buf) && 0 < n == LengthField(c.buf) && Get16(c.buf[0], c.buf[1]) == txn
    requires c.buf[6] == unit && c.buf[7..6 + n] == pdu && c.buf[6 + n..] == rest
    ensures TakeFrame(s, c) == Answer(s, c.(buf := rest), txn, unit, pdu)
  {
  }

  lemma TakeThenMore<R>(s: Setup<R>, c: Conn<R>, more: seq<byte>)
    requires c.status == Open && HasFrame(c.buf) && HasFrame(c.buf + more)
    ensures var r := TakeFrame(s, c); var r' := TakeFrame(s, c.(buf := c.buf + more));
      if r.status == Open then r' == r.(buf := r.buf + more) else r' == r
  {
    HeaderStable(c.buf, more);
    var n := LengthField(c.buf);
    if n > 0 {
      var txn, unit, pdu := Get16(c.buf[0], c.buf[1]), c.buf[6], c.buf[7..6 + n];
      TakenFrame(s, c, n, txn, unit, pdu, c.buf[6 + n..]);
      TakenFrame(s, c.(buf := c.buf + more), n, txn, unit, pdu, c.buf[6 + n..] + more);
      AnswerKeepsBuffer(s, c.(buf := c.buf[6 + n..]), more, txn, unit, pdu);
    }
  }

  /** Bytes that arrive later do not change what was done with those that came before. */
  lemma {:induction false} FeedThenMore<R>(s: Setup<R>, c: Conn<R>, more: seq<byte>)
    requires c.status == Open
    ensures Feed(s, c.(buf := c.buf + more)) == Receive(s, Feed(s, c), more)
    decreases |c.buf|
  {
    if HasFrame(c.buf) {
      HeaderStable(c.buf, more);
      TakeThenMore(s, c, more);
      var after := TakeFrame(s, c);
      if after.status == Open {
        FeedThenMore(s, after, more);
      }
    }
  }

  /** Two reads do what one read of both does. */
  lemma ReceiveTwice<R>(s: Setup<R>, c: Conn<R>, x: seq<byte>, y: seq<byte>)
    ensures Receive(s, Receive(s, c, x), y) == Receive(s, c, x + y)
  {
    if c.status == Open {
      assert c.buf + x + y == c.buf + (x + y);
      FeedThenMore(s, c.(buf := c.buf + x), y);
    }
  }

  lemma {:induction false} ReceiveFlat<R>(s: Setup<R>, c: Conn<R>, chunks: seq<seq<byte>>)
    requires Receive(s, c, []) == c
    ensures ReceiveAll(s, c, chunks) == Receive(s, c, Flatten(chunks))
    decreases |chunks|
  {
    if chunks != [] {
      var c1 := Receive(s, c, chunks[0]);
      ReceiveTwice(s, c, chunks[0], []);
      assert chunks[0] + [] == chunks[0];
      ReceiveFlat(s, c1, chunks[1..]);
      ReceiveTwice(s, c, chunks[0], Flatten(chunks[1..]));
    }
  }

  /**
  However a byte stream, malformed ones included, is cut into reads, the server sends the same
  replies in the same order, reaches the same registers, keeps the same unread bytes and ends alike.
  */
  lemma FragmentationIrrelevant<R>(s: Setup<R>, regs: R, a: seq<seq<byte>>, b: seq<seq<byte>>)
    requires Flatten(a) == Flatten(b)
    ensures ReceiveAll(s, Conn([], regs, [], Open), a) == ReceiveAll(s, Conn([], regs, [], Open), b)
  {
    ReceiveFlat(s, Conn([], regs, [], Open), a);
    ReceiveFlat(s, Conn([], regs, [], Open), b);
  }

  // ----- what a stream of requests means -----

  datatype Message = Message(txn: u16, unit: byte, pdu: seq<byte>)

  /** A message whose length fits the header. */
  type Request = q: Message | |q.pdu| < 0xFFFF witness Message(0, 0, [])

  /** Such a message with a function code. */
  type Response = q: Message | 0 < |q.pdu| < 0xFFFF witness Message(0, 0, [0])

  function Stream(requests: seq<Request>): seq<byte> {
    if requests == [] then []
    else Frame(requests[0].txn, requests[0].unit, requests[0].pdu) + Stream(requests[1..])
  }

  /** The requests answered one after another, with no bytes in sight. */
  function Serve<R>(s: Setup<R>, c: Conn<R>, requests: seq<Request>): Conn<R>
    decreases |requests|
  {
    if requests == [] || c.status != Open then c
    else Serve(s, Answer(s, c, requests[0].txn, requests[0].unit, requests[0].pdu), requests[1..])
  }

  lemma FeedFrame<R>(s: Setup<R>, c: Conn<R>, q: Request, rest: seq<byte>)
    requires c.status == Open && c.buf == Frame(q.txn, q.unit, q.pdu) + rest
    ensures Feed(s, c) == Feed(s, Answer(s, c.(buf := rest), q.txn, q.unit, q.pdu))
  {
    FrameFields(q.txn, q.unit, q.pdu, rest);
  }

  lemma {:induction false} FeedStream<R>(s: Setup<R>, c: Conn<R>, requests: seq<Request>)
    requires c.status == Open && c.buf == Stream(requests)
    ensures Feed(s, c) == Serve(s, c.(buf := []), requests)
    decreases |requests|
  {
    if requests != [] {
      var q := requests[0];
      var rest := Stream(requests[1..]);
      FeedFrame(s, c, q, rest);
      var after := Answer(s, c.(buf := rest), q.txn, q.unit, q.pdu);
      AnswerKeepsBuffer(s, c.(buf := []), rest, q.txn, q.unit, q.pdu);
      assert [] + rest == rest;
      if after.status == Open {
        FeedStream(s, after, requests[1..]);
      }
    }
  }

  /** A stream of well-formed requests, cut up in any way, is served request by request. */
  lemma StreamIsServed<R>(s: Setup<R>, regs: R, requests: seq<Request>, chunks: seq<seq<byte>>)
    requires Flatten(chunks) == Stream(requests)
    ensures ReceiveAll(s, Conn([], regs, [], Open), chunks) == Serve(s, Conn([], regs, [], Open), requests)
  {
    var c := Conn([], regs, [], Open);
    ReceiveFlat(s, c, chunks);
    assert [] + Stream(requests) == Stream(requests);
    FeedStream(s, c.(buf := Stream(requests)), requests);
  }

  /** The requests to the server's own unit and to unit 0. */
  ghost function For(unitId: int, requests: seq<Request>): seq<Request> {
    if requests == [] then []
    else (if requests[0].unit == unitId || requests[0].unit == 0 then [requests[0]] else []) + For(unitId, requests[1..])
  }

  /** One frame a request, with its transaction and unit and what the device answers. */
  ghost function Replied<R>(handle: (R, seq<byte>) -> (seq<byte>, R), regs: R, requests: seq<Request>): seq<seq<byte>>
    decreases |requests|
  {
    if requests == [] then []
    else
      var (resp, next) := handle(regs, requests[0].pdu);
      [Frame(requests[0].txn, requests[0].unit, resp)] + Replied(handle, next, requests[1..])
  }

  lemma {:induction false} ServeReplies<R>(s: Setup<R>, c: Conn<R>, requests: seq<Request>)
    requires s.failAt == None && c.status == Open
    ensures Serve(s, c, requests).sent == c.sent + Replied(s.handle, c.regs, For(s.unitId, requests))
    decreases |requests|
  {
    if requests == [] {
      assert c.sent + [] == c.sent;
    } else {
      var q, others := requests[0], For(s.unitId, requests[1..]);
      var c1 := Answer(s, c, q.txn, q.unit, q.pdu);
      ServeReplies(s, c1, requests[1..]);
      if q.unit == s.unitId || q.unit == 0 {
        var (resp, next) := s.handle(c.regs, q.pdu);
        RepliedFirst(s.handle, c.regs, q, others);
        assert c.sent + [Frame(q.txn, q.unit, resp)] + Replied(s.handle, next, others) ==
               c.sent + ([Frame(q.txn, q.unit, resp)] + Replied(s.handle, next, others));
      } else {
        assert For(s.unitId, requests) == [] + others == others;
      }
    }
  }

  lemma RepliedFirst<R>(handle: (R, seq<byte>) -> (seq<byte>, R), regs: R, q: Request, others: seq<Request>)
    ensures var (resp, next) := handle(regs, q.pdu);
      Replied(handle, regs, [q] + others) == [Frame(q.txn, q.unit, resp)] + Replied(handle, next, others)
  {
    assert ([q] + others)[1..] == others;
  }

  /** Exactly the requests to the server's unit and to unit 0 are answered, each under its own transaction, in order. */
  lemma StreamIsAnswered<R>(s: Setup<R>, regs: R, requests: seq<Request>, chunks: seq<seq<byte>>)
    requires s.failAt == None && Flatten(chunks) == Stream(requests)
    ensures ReceiveAll(s, Conn([], regs, [], Open), chunks).sent == Replied(s.handle, regs, For(s.unitId, requests))
  {
    StreamIsServed(s, regs, requests, chunks);
    ServeReplies(s, Conn([], regs, [], Open), requests);
    assert [] + Replied(s.handle, regs, For(s.unitId, requests)) == Replied(s.handle, regs, For(s.unitId, requests));
  }

  // ----- when the handler panics -----

  /**
  The bytes hold a frame of length 0, and the handler comes to it: n replies have been written so far
  and the write that fails, if one does, is not reached first.
  */
  ghost predicate ReachesZeroLength(unitId: int, failAt: Option<nat>, n: nat, b: seq<byte>)
    decreases |b|
  {
    HasFrame(b) &&
    var length := LengthField(b);
    length == 0 ||
    if Addressed(unitId, b[6]) then failAt != Some(n) && ReachesZeroLength(unitId, failAt, n + 1, b[6 + length..])
    else ReachesZeroLength(unitId, failAt, n, b[6 + length..])
  }

  /** One of the complete frames the bytes begin with has length 0. */
  ghost predicate ZeroLength(b: seq<byte>)
    decreases |b|
  {
    HasFrame(b) && (LengthField(b) == 0 || ZeroLength(b[6 + LengthField(b)..]))
  }

  lemma {:induction false} FeedPanicsIff<R>(s: Setup<R>, c: Conn<R>)
    requires c.status == Open
    ensures Feed(s, c).status == Panicked <==> ReachesZeroLength(s.unitId, s.failAt, |c.sent|, c.buf)
    decreases |c.buf|
  {
    if HasFrame(c.buf) {
      var after := TakeFrame(s, c);
      TakenStatus(s, c);
      FeedStep(s, c);
      if after.status == Open {
        FeedPanicsIff(s, after);
        ReachesNext(s.unitId, s.failAt, |c.sent|, c.buf, |after.sent|, after.buf);
      }
    }
  }

  lemma FeedStep<R>(s: Setup<R>, c: Conn<R>)
    requires c.status == Open && HasFrame(c.buf)
    ensures var after := TakeFrame(s, c); Feed(s, c) == if after.status == Open then Feed(s, after) else after
  {
  }

  lemma ReachesNext(unitId: int, failAt: Option<nat>, n: nat, b: seq<byte>, m: nat, rest: seq<byte>)
    requires HasFrame(b) && LengthField(b) != 0 && rest == b[6 + LengthField(b)..]
    requires if Addressed(unitId, b[6]) then failAt != Some(n) && m == n + 1 else m == n
    ensures ReachesZeroLength(unitId, failAt, n, b) <==> ReachesZeroLength(unitId, failAt, m, rest)
  {
  }

  lemma TakenStatus<R>(s: Setup<R>, c: Conn<R>)
    requires c.status == Open && HasFrame(c.buf)
    ensures var n, after := LengthField(c.buf), TakeFrame(s, c); var answered := Addressed(s.unitId, c.buf[6]);
      if n == 0 then after.status == Panicked
      else if answered && s.failAt == Some(|c.sent|) then after.status == Closed
      else after.status == Open && after.buf == c.buf[6 + n..] && |after.sent| == |c.sent| + if answered then 1 else 0
  {
  }

  lemma {:induction false} ReachedWithoutFailure(unitId: int, n: nat, b: seq<byte>)
    ensures ReachesZeroLength(unitId, None, n, b) <==> ZeroLength(b)
    decreases |b|
  {
    if HasFrame(b) && LengthField(b) != 0 {
      ReachedWithoutFailure(unitId, if Addressed(unitId, b[6]) then n + 1 else n, b[6 + LengthField(b)..]);
    }
  }

  /**
  However the bytes are cut into reads, the handler panics exactly when it comes to a frame of length 0
  before a write fails; when none fails, exactly when the bytes hold such a frame.
  */
  lemma PanicsIff<R>(s: Setup<R>, regs: R, chunks: seq<seq<byte>>)
    ensures ReceiveAll(s, Conn([], regs, [], Open), chunks).status == Panicked <==>
            ReachesZeroLength(s.unitId, s.failAt, 0, Flatten(chunks))
    ensures s.failAt == None ==>
              (ReceiveAll(s, Conn([], regs, [], Open), chunks).status == Panicked <==> ZeroLength(Flatten(chunks)))
  {
    var c := Conn([], regs, [], Open);
    ReceiveFlat(s, c, chunks);
    assert [] + Flatten(chunks) == Flatten(chunks);
    FeedPanicsIff(s, c.(buf := Flatten(chunks)));
    ReachedWithoutFailure(s.unitId, 0, Flatten(chunks));
  }

  /** Seven zero bytes are enough, whatever the server's unit. */
  lemma SevenBytesPanic<R>(s: Setup<R>, regs: R)
    ensures ReceiveAll(s, Conn([], regs, [], Open), [[0, 0, 0, 0, 0, 0, 0]]).status == Panicked
  {
    var b: seq<byte> := [0, 0, 0, 0, 0, 0, 0];
    assert Flatten([b]) == b + Flatten([]) == b;
    assert LengthField(b) == 0;
    PanicsIff(s, regs, [b]);
  }

  /** A stream of well-formed requests never does it. */
  lemma {:induction false} RequestsDoNotPanic(requests: seq<Request>)
    ensures !ZeroLength(Stream(requests))
    decreases |requests|
  {
    if requests != [] {
      var q := requests[0];
      FrameFields(q.txn, q.unit, q.pdu, Stream(requests[1..]));
      RequestsDoNotPanic(requests[1..]);
    }
  }

  // ----- the client's end -----

  datatype MbapFrame = MbapFrame(txn: u16, protocol: u16, unit: byte, fc: byte, data: seq<byte>)

  datatype Decoded = Incomplete | Invalid | Complete(frame: MbapFrame, consumed: nat)

  function DecodeMBAP(buf: seq<byte>): (r: Decoded)
    ensures r.Complete? ==> 8 <= r.consumed <= |buf|
  {
    if |buf| < 7 then Incomplete
    else
      var n := LengthField(buf);
      if |buf| < 6 + n then Incomplete
      else if n < 2 then Invalid
      else Complete(MbapFrame(Get16(buf[0], buf[1]), Get16(buf[2], buf[3]), buf[6], buf[7], buf[8..6 + n]), 6 + n)
  }

  /** A frame is decoded to what it was made of, exactly when its PDU is not empty and its length fits the header. */
  lemma DecodeOfFrameIff(txn: u16, unit: byte, pdu: seq<byte>, rest: seq<byte>)
    ensures DecodeMBAP(Frame(txn, unit, pdu) + rest) ==
              (if pdu == [] then Invalid
               else Complete(MbapFrame(txn, 0, unit, pdu[0], pdu[1..]), 7 + |pdu|)) <==>
            |pdu| < 0xFFFF
  {
    var b := Frame(txn, unit, pdu) + rest;
    Prefixed(Header(txn, Field(|pdu| + 1), unit), pdu, rest);
    if |pdu| < 0xFFFF {
      FrameFields(txn, unit, pdu, rest);
      if pdu != [] {
        assert b[7] == pdu[0] && b[8..7 + |pdu|] == pdu[1..];
      }
    }
  }

  datatype Reply = Normal(frame: MbapFrame) | Exception(fc: byte, code: byte) | ReadFailed | WriteFailed

  /** Sorts a frame into an answer or an exception response. */
  function Sorted(f: MbapFrame): Reply {
    if f.fc >= 0x80 then Exception(f.fc - 0x80, if |f.data| > 0 then f.data[0] else 0) else Normal(f)
  }

  /** The reply taken from the buffer and the arriving reads; the bytes and reads left over. */
  datatype Outcome = Outcome(reply: Reply, buf: seq<byte>, arrivals: seq<seq<byte>>)

  // ----- one call of the client -----

  function Await(buf: seq<byte>, arrivals: seq<seq<byte>>): Outcome
    decreases |arrivals|
  {
    match DecodeMBAP(buf)
    case Complete(f, consumed) => Outcome(Sorted(f), buf[consumed..], arrivals)
    case _ =>
      if arrivals == [] then Outcome(ReadFailed, buf, [])
      else Await(buf + arrivals[0], arrivals[1..])
  }

  lemma AwaitStep(buf: seq<byte>, arrivals: seq<seq<byte>>)
    ensures var d := DecodeMBAP(buf);
      Await(buf, arrivals) ==
        if d.Complete? then Outcome(Sorted(d.frame), buf[d.consumed..], arrivals)
        else if arrivals == [] then Outcome(ReadFailed, buf, [])
        else Await(buf + arrivals[0], arrivals[1..])
  {
  }

  lemma CompleteStable(buf: seq<byte>, more: seq<byte>)
    requires DecodeMBAP(buf).Complete?
    ensures DecodeMBAP(buf + more) == DecodeMBAP(buf)
    ensures (buf + more)[DecodeMBAP(buf).consumed..] == buf[DecodeMBAP(buf).consumed..] + more
  {
    HeaderStable(buf, more);
    var n := LengthField(buf);
    assert (buf + more)[8..6 + n] == buf[8..6 + n] && (buf + more)[2..4] == buf[2..4];
  }

  /**
  The client's reply is the first frame of the bytes on hand and to come, wherever they are cut; the
  bytes after it stay unread, in the buffer or still to arrive. It fails exactly when those bytes do
  not begin with a complete frame of length 2 or more.
  */
  lemma {:induction false} AwaitTakesFirstFrame(buf: seq<byte>, arrivals: seq<seq<byte>>)
    ensures FirstFrame(buf + Flatten(arrivals), Await(buf, arrivals))
    decreases |arrivals|
  {
    AwaitStep(buf, arrivals);
    if DecodeMBAP(buf).Complete? {
      TakesOnHand(buf, arrivals);
    } else if arrivals == [] {
      assert buf + Flatten(arrivals) == buf;
    } else {
      AwaitTakesFirstFrame(buf + arrivals[0], arrivals[1..]);
      FlattenFirst(buf, arrivals);
    }
  }

  lemma FlattenFirst(buf: seq<byte>, arrivals: seq<seq<byte>>)
    requires arrivals != []
    ensures buf + arrivals[0] + Flatten(arrivals[1..]) == buf + Flatten(arrivals)
  {
    assert buf + arrivals[0] + Flatten(arrivals[1..]) == buf + (arrivals[0] + Flatten(arrivals[1..]));
  }

  lemma TakesOnHand(buf: seq<byte>, arrivals: seq<seq<byte>>)
    requires DecodeMBAP(buf).Complete?
    ensures var d := DecodeMBAP(buf); FirstFrame(buf + Flatten(arrivals), Outcome(Sorted(d.frame), buf[d.consumed..], arrivals))
  {
    CompleteStable(buf, Flatten(arrivals));
  }

  ghost predicate FirstFrame(all: seq<byte>, o: Outcome) {
    match DecodeMBAP(all)
    case Complete(f, consumed) => o.reply == Sorted(f) && o.buf + Flatten(o.arrivals) == all[consumed..]
    case _ => o.reply == ReadFailed && o.buf == all && o.arrivals == []
  }

  /** The replies of k successive calls, and what is left. */
  function AwaitMany(await: (seq<byte>, seq<seq<byte>>) -> Outcome, buf: seq<byte>, arrivals: seq<seq<byte>>, k: nat):
    (seq<Reply>, seq<byte>, seq<seq<byte>>)
    decreases k
  {
    if k == 0 then ([], buf, arrivals)
    else
      var o := await(buf, arrivals);
      var (replies, b, rest) := AwaitMany(await, o.buf, o.arrivals, k - 1);
      ([o.reply] + replies, b, rest)
  }

  function FrameOf(q: Response): MbapFrame {
    MbapFrame(q.txn, 0, q.unit, q.pdu[0], q.pdu[1..])
  }

  function Replies(frames: seq<Response>): seq<Reply> {
    if frames == [] then [] else [Sorted(FrameOf(frames[0]))] + Replies(frames[1..])
  }

  /** A call takes the frame off the bytes, wherever they are cut, and leaves the next ones. */
  ghost predicate Takes(await: (seq<byte>, seq<seq<byte>>) -> Outcome, all: seq<byte>, q: Response, next: seq<byte>) {
    forall buf, arrivals | buf + Flatten(arrivals) == all ::
      var o := await(buf, arrivals); o.reply == Sorted(FrameOf(q)) && o.buf + Flatten(o.arrivals) == next
  }

  /** Calls that take one frame each return them in order. */
  lemma {:induction false} ManyReplies(await: (seq<byte>, seq<seq<byte>>) -> Outcome, buf: seq<byte>, arrivals: seq<seq<byte>>,
                                       frames: seq<Response>, tails: seq<seq<byte>>)
    requires |tails| == |frames| + 1 && buf + Flatten(arrivals) == tails[0]
    requires forall i | 0 <= i < |frames| :: Takes(await, tails[i], frames[i], tails[i + 1])
    ensures var m := AwaitMany(await, buf, arrivals, |frames|);
      m.0 == Replies(frames) && m.1 + Flatten(m.2) == tails[|frames|]
    decreases |frames|
  {
    if frames != [] {
      var o := await(buf, arrivals);
      assert Takes(await, tails[0], frames[0], tails[1]);
      ManyReplies(await, o.buf, o.arrivals, frames[1..], tails[1..]);
    }
  }

  lemma StreamDecodes(frames: seq<Response>, rest: seq<byte>)
    requires frames != []
    ensures var all := Stream(frames) + rest; var n := 7 + |frames[0].pdu|;
      DecodeMBAP(all) == Complete(FrameOf(frames[0]), n) && all[n..] == Stream(frames[1..]) + rest
  {
    var q := frames[0];
    Joined(Frame(q.txn, q.unit, q.pdu), Stream(frames[1..]), rest);
    DecodeOfFrameIff(q.txn, q.unit, q.pdu, Stream(frames[1..]) + rest);
  }

  lemma Joined(a: seq<byte>, b: seq<byte>, c: seq<byte>)
    ensures a + b + c == a + (b + c) && (a + b + c)[|a|..] == b + c
  {
  }

  /** What is left of the stream after each of its frames. */
  ghost function Tails(frames: seq<Response>, rest: seq<byte>): (tails: seq<seq<byte>>)
    ensures |tails| == |frames| + 1 && tails[|frames|] == rest
    ensures forall i | 0 <= i <= |frames| :: tails[i] == Stream(frames[i..]) + rest
  {
    seq(|frames| + 1, i requires 0 <= i <= |frames| => Stream(frames[i..]) + rest)
  }

  lemma StreamTakes(frames: seq<Response>, rest: seq<byte>)
    requires frames != []
    ensures Takes(Await, Stream(frames) + rest, frames[0], Stream(frames[1..]) + rest)
  {
    StreamDecodes(frames, rest);
    forall buf, arrivals | buf + Flatten(arrivals) == Stream(frames) + rest
      ensures var o := Await(buf, arrivals);
        o.reply == Sorted(FrameOf(frames[0])) && o.buf + Flatten(o.arrivals) == Stream(frames[1..]) + rest
    {
      AwaitTakesFirstFrame(buf, arrivals);
    }
  }

  /** Successive calls return the stream's responses in order and leave exactly the bytes after them. */
  lemma RepliesInOrder(buf: seq<byte>, arrivals: seq<seq<byte>>, frames: seq<Response>, rest: seq<byte>)
    requires buf + Flatten(arrivals) == Stream(frames) + rest
    ensures var (replies, b, left) := AwaitMany(Await, buf, arrivals, |frames|);
      replies == Replies(frames) && b + Flatten(left) == rest
  {
    var tails := Tails(frames, rest);
    forall i | 0 <= i < |frames|
      ensures Takes(Await, tails[i], frames[i], tails[i + 1])
    {
      StreamTakes(frames[i..], rest);
      assert frames[i..][1..] == frames[i + 1..];
    }
    assert frames[0..] == frames;
    ManyReplies(Await, buf, arrivals, frames, tails);
  }

  /** A response whose function code has its high bit set is raised as an exception, any other is returned as it is. */
  lemma ResponseReturned(buf: seq<byte>, arrivals: seq<seq<byte>>, q: Response, rest: seq<byte>)
    requires buf + Flatten(arrivals) == Frame(q.txn, q.unit, q.pdu) + rest
    ensures Await(buf, arrivals).reply ==
            if q.pdu[0] < 0x80 then Normal(MbapFrame(q.txn, 0, q.unit, q.pdu[0], q.pdu[1..]))
            else Exception(q.pdu[0] - 0x80, if |q.pdu| > 1 then q.pdu[1] else 0)
  {
    AwaitTakesFirstFrame(buf, arrivals);
    DecodeOfFrameIff(q.txn, q.unit, q.pdu, rest);
  }

  // ----- replies that come late -----

  lemma {:induction false} StreamAppend(a: seq<Response>, b: seq<Response>)
    ensures Stream(a + b) == Stream(a) + Stream(b)
  {
    if a == [] {
      assert a + b == b;
    } else {
      assert (a + b)[0] == a[0] && (a + b)[1..] == a[1..] + b;
      StreamAppend(a[1..], b);
      Joined(Frame(a[0].txn, a[0].unit, a[0].pdu), Stream(a[1..]), Stream(b));
    }
  }

  lemma {:induction false} ReplyAt(frames: seq<Response>, j: nat)
    requires j < |frames|
    ensures |Replies(frames)| == |frames| && Replies(frames)[j] == Sorted(FrameOf(frames[j]))
    decreases |frames|
  {
    if |frames| > 1 {
      ReplyAt(frames[1..], if j == 0 then 0 else j - 1);
    }
  }

  /**
  Transaction numbers are not compared. With replies still outstanding to requests the client has given up
  on, every later request gets the reply of one as many places before it.
  */
  lemma LateRepliesShift(buf: seq<byte>, arrivals: seq<seq<byte>>, late: seq<Response>, own: seq<Response>, rest: seq<byte>)
    requires buf + Flatten(arrivals) == Stream(late + own) + rest
    ensures AwaitMany(Await, buf, arrivals, |own|).0 == Replies((late + own)[..|own|])
  {
    var all := late + own;
    var front, back := all[..|own|], all[|own|..];
    assert all == front + back;
    StreamAppend(front, back);
    Joined(Stream(front), Stream(back), rest);
    RepliesInOrder(buf, arrivals, front, Stream(back) + rest);
  }

  /** No two messages bear the same transaction number. */
  ghost predicate DistinctTransactions(frames: seq<Response>) {
    forall i, j | 0 <= i < j < |frames| :: frames[i].txn != frames[j].txn
  }

  /** When all replies are normal and their numbers differ, a request gets its own exactly when none is outstanding. */
  lemma OwnReplyIff(buf: seq<byte>, arrivals: seq<seq<byte>>, late: seq<Response>, own: seq<Response>, rest: seq<byte>, j: nat)
    requires buf + Flatten(arrivals) == Stream(late + own) + rest && j < |own|
    requires DistinctTransactions(late + own) && forall q | q in late + own :: q.pdu[0] < 0x80
    ensures var replies := AwaitMany(Await, buf, arrivals, |own|).0;
      |replies| == |own| && (replies[j] == Sorted(FrameOf(own[j])) <==> late == [])
  {
    var all := late + own;
    LateRepliesShift(buf, arrivals, late, own, rest);
    ReplyAt(all[..|own|], j);
    assert all[|late| + j] == own[j] && all[j] in all && own[j] in all;
  }

  /** A request made after one that timed out is answered with the reply to that one. */
  lemma LateReplyTaken(late: Response, own: Response)
    ensures AwaitMany(Await, [], [Stream([late, own])], 1).0 == [Sorted(FrameOf(late))]
  {
    var all := Stream([late, own]);
    assert [late] + [own] == [late, own];
    assert Flatten([all]) == all + Flatten([]);
    assert [] + Flatten([all]) == all + [];
    LateRepliesShift([], [all], [late], [own], []);
    assert [late, own][..1] == [late];
    assert Replies([late]) == [Sorted(FrameOf(late))] + Replies([]);
  }
}
