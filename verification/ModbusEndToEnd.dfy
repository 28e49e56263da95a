/** Client and server put together over a connection that may cut the bytes up anywhere. */
module ModbusEndToEnd {
  import opened Common
  import opened Bytes
  import opened ModbusCodec
  import opened ModbusStore
  import opened ModbusServer
  import opened ModbusWire
  import opened ModbusLink
  import opened ModbusPlan
  import opened ModbusScan

  lemma HandlePduAnswers(regs: Registers, pdu: seq<byte>)
    ensures var r := HandlePdu(regs, pdu).0; 0 < |r| && (|r| > 2 ==> r[0] < 0x80)
  {
  }

  /** What the client makes of a whole response. */
  function ReplyWith(txn: u16, unit: byte, response: seq<byte>): Reply
    requires response != []
  {
    Sorted(MbapFrame(txn, 0, unit, response[0], response[1..]))
  }

  /**
  The client sends one request, in pieces `up`; the server answers and its bytes come back in pieces
  `down`. The server's registers are those after that request, and the reply is its response to it exactly
  when that fits the length field of a frame.
  */
  lemma ExchangeIff(unitId: int, regs: Registers, txn: u16, unit: byte, pdu: seq<byte>,
                    up: seq<seq<byte>>, down: seq<seq<byte>>)
    requires Addressed(unitId, unit) && |pdu| < 0xFFFF && Flatten(up) == Frame(txn, unit, pdu)
    requires Flatten(down) == Flatten(ReceiveAll(Setup(unitId, None, HandlePdu), Conn([], regs, [], Open), up).sent)
    ensures var r := HandlePdu(regs, pdu).0;
      r != [] && (Await([], down).reply == ReplyWith(txn, unit, r) <==> |r| < 0xFFFF)
    ensures ReceiveAll(Setup(unitId, None, HandlePdu), Conn([], regs, [], Open), up).regs == HandlePdu(regs, pdu).1
  {
    HandlePduAnswers(regs, pdu);
    var s, c := Setup(unitId, None, HandlePdu), Conn([], regs, [], Open);
    var q: Request := Message(txn, unit, pdu);
    assert Stream([q]) == Frame(txn, unit, pdu) + Stream([]);
    StreamIsServed(s, regs, [q], up);
    assert Serve(s, c, [q]) == Answer(s, c, txn, unit, pdu);
    var frame := Frame(txn, unit, HandlePdu(regs, pdu).0);
    assert Flatten([frame]) == frame + Flatten([]);
    assert [] + Flatten(down) == frame + [];
    AwaitTakesFirstFrame([], down);
    FirstFrameIff(txn, unit, HandlePdu(regs, pdu).0, Await([], down));
  }

  lemma FirstFrameIff(txn: u16, unit: byte, response: seq<byte>, o: Outcome)
    requires response != [] && (|response| > 2 ==> response[0] < 0x80)
    requires FirstFrame(Frame(txn, unit, response) + [], o)
    ensures o.reply == ReplyWith(txn, unit, response) <==> |response| < 0xFFFF
  {
    var b := Frame(txn, unit, response) + [];
    DecodeOfFrameIff(txn, unit, response, []);
    if |response| >= 0xFFFF {
      Prefixed(Header(txn, Field(|response| + 1), unit), response, []);
      assert LengthField(b) == Field(|response| + 1) && b[7] == response[0] by {
        assert b[7..7 + |response|] == response;
      }
    }
  }

  // ----- reading -----

  function CodeOf(space: Space): byte {
    match space
    case Coil => 1
    case Discrete => 2
    case Holding => 3
    case Input => 4
  }

  /** The byte count of the response, a single byte, can say how long the data is. */
  predicate Fits(space: Space, count: int) {
    if IsBits(space) then count <= 2040 else count <= 127
  }

  lemma BitsReply(m: map<int, bool>, pdu: seq<byte>)
    requires |pdu| >= 5 && Count(pdu) <= 2040
    ensures var data := PackBits(BitsAt(m, Address(pdu), Count(pdu)));
      |data| < 256 && ReadBits(m, pdu) == [pdu[0], |data|] + data
  {
  }

  lemma WordsReply(m: map<int, Word>, pdu: seq<byte>)
    requires |pdu| >= 5 && Count(pdu) <= 127
    ensures var data := WordBytes(WordsAt(m, Address(pdu), Count(pdu)));
      |data| < 256 && ReadWords(m, pdu) == [pdu[0], |data|] + data
  {
  }

  lemma ReadHandled(regs: Registers, space: Space, pdu: seq<byte>)
    requires |pdu| >= 5 && pdu[0] == CodeOf(space) && Fits(space, Count(pdu))
    ensures var data := Content(regs, space, Address(pdu), Count(pdu));
      |data| < 256 && HandlePdu(regs, pdu) == ([pdu[0], |data|] + data, regs)
  {
    if IsBits(space) {
      BitsReply(BitSpace(regs, space), pdu);
      assert HandlePdu(regs, pdu) == (ReadBits(BitSpace(regs, space), pdu), regs);
    } else {
      WordsReply(WordSpace(regs, space), pdu);
      assert HandlePdu(regs, pdu) == (ReadWords(WordSpace(regs, space), pdu), regs);
    }
  }

  lemma ReadReply(regs: Registers, space: Space, start: u16, count: u16)
    requires Fits(space, count)
    ensures var data := Content(regs, space, start, count);
      |data| < 256 && HandlePdu(regs, ReadPdu(CodeOf(space), start, count)) == ([CodeOf(space), |data|] + data, regs)
  {
    ReadPduFields(CodeOf(space), start, count);
    ReadHandled(regs, space, ReadPdu(CodeOf(space), start, count));
  }

  lemma ContentLength(regs: Registers, space: Space, start: int, count: nat)
    ensures Fits(space, count) <==> |Content(regs, space, start, count)| < 256
  {
  }

  lemma PayloadOfReply(txn: u16, unit: byte, fc: byte, data: seq<byte>)
    requires fc < 0x80 && |data| < 256
    ensures PayloadOf(Sorted(FrameOf(Message(txn, unit, [fc, |data|] + data)))) == Ok(data)
  {
    var resp := [fc, |data|] + data;
    assert resp[1..] == [|data|] + data && ([|data|] + data)[1..1 + |data|] == data;
  }

  /**
  A read of any range, over connections cut up in any way, brings the client exactly the server's
  bits or registers, when and only when the byte count of the response can hold their length.
  */
  lemma ReadIsFaithfulIff(unitId: int, regs: Registers, txn: u16, unit: byte, space: Space, start: u16, count: u16,
                          up: seq<seq<byte>>, down: seq<seq<byte>>)
    requires Addressed(unitId, unit)
    requires Flatten(up) == Frame(txn, unit, ReadPdu(CodeOf(space), start, count))
    requires Flatten(down) == Flatten(ReceiveAll(Setup(unitId, None, HandlePdu), Conn([], regs, [], Open), up).sent)
    ensures PayloadOf(Await([], down).reply) == Ok(Content(regs, space, start, count)) <==> Fits(space, count)
  {
    ContentLength(regs, space, start, count);
    if Fits(space, count) {
      ReadReply(regs, space, start, count);
      ExchangeIff(unitId, regs, txn, unit, ReadPdu(CodeOf(space), start, count), up, down);
      PayloadOfReply(txn, unit, CodeOf(space), Content(regs, space, start, count));
    }
  }

  // ----- a stored value reaches the client -----

  /**
  A value the server stores under a tag is the value the client reads for it, except for a float64 in
  CDAB order whose halves differ.
  */
  lemma StoredValueIsReadIff(regs: Registers, tag: Tag, v: Variable)
    ensures Own(Updated(regs, tag, v), tag) ==
              Ok(if IsBits(tag.space) then Bool(v.truth) else Stored(v.number, tag.datatype_)) <==>
            IsBits(tag.space) || tag.datatype_ != Double || tag.order != CDAB ||
            ServerRaw(v.number, Double)[..4] == ServerRaw(v.number, Double)[4..]
  {
    var r := Updated(regs, tag, v);
    if IsBits(tag.space) {
      PackedBitOfPack(BitsAt(BitSpace(r, tag.space), tag.address, 1), 0);
    } else {
      UpdatedWords(regs, tag, v);
      var data := WordBytes(EncodeToRegisters(v.number, tag.datatype_, tag.order));
      assert data[0..] == data + [];
      ClientReadsServerIff(v.number, tag.datatype_, tag.order, []);
    }
  }

  /** What conversion to uint16 keeps of an int. */
  function Low16(n: int): u16 {
    if 0 <= n < 0x1_0000 then n else n % 0x1_0000
  }

  /**
  The whole way: after the server has stored a value, a read of the tag over a connection cut up in any way
  brings the client what stands at the address the request names; where a request can name the tag's own
  address, that is the value stored, except for a float64 in CDAB order whose halves differ.
  */
  lemma StoredValueTravelsIff(unitId: int, regs: Registers, tag: Tag, v: Variable, txn: u16, unit: byte,
                              up: seq<seq<byte>>, down: seq<seq<byte>>)
    requires Addressed(unitId, unit)
    requires Flatten(up) == Frame(txn, unit, ReadPdu(CodeOf(tag.space), Low16(tag.address), Width(tag)))
    requires Flatten(down) ==
             Flatten(ReceiveAll(Setup(unitId, None, HandlePdu), Conn([], Updated(regs, tag, v), [], Open), up).sent)
    ensures var data := PayloadOf(Await([], down).reply);
      data.Ok? &&
      Extracted(tag.space, data.value, TagInBlock(tag, 0)) ==
        Own(Updated(regs, tag, v), tag.(address := Low16(tag.address))) &&
      (0 <= tag.address < 0x1_0000 ==>
         (Extracted(tag.space, data.value, TagInBlock(tag, 0)) ==
            Ok(if IsBits(tag.space) then Bool(v.truth) else Stored(v.number, tag.datatype_)) <==>
          IsBits(tag.space) || tag.datatype_ != Double || tag.order != CDAB ||
          ServerRaw(v.number, Double)[..4] == ServerRaw(v.number, Double)[4..]))
  {
    var after, there := Updated(regs, tag, v), tag.(address := Low16(tag.address));
    ReadIsFaithfulIff(unitId, after, txn, unit, tag.space, Low16(tag.address), Width(tag), up, down);
    assert Extracted(tag.space, Content(after, tag.space, Low16(tag.address), Width(tag)), TagInBlock(tag, 0)) == Own(after, there);
    if 0 <= tag.address < 0x1_0000 {
      assert there == tag;
      StoredValueIsReadIff(regs, tag, v);
    }
  }

  // ----- a written value reaches the server, and comes back -----

  /** The request handleCommand sends for encoded register bytes: FC 06 for one register, FC 10 for more. */
  function WritePdu(addr: u16, encoded: seq<byte>): seq<byte>
    requires |encoded| in {2, 4, 8}
  {
    if |encoded| == 2 then [0x06] + Put16(addr) + encoded
    else [0x10] + Put16(addr) + Put16(|encoded| / 2) + [|encoded|] + encoded
  }

  lemma WritePduFields(addr: u16, encoded: seq<byte>)
    requires |encoded| in {2, 4, 8}
    ensures var p := WritePdu(addr, encoded);
      |p| >= 5 && Address(p) == addr &&
      if |encoded| == 2 then p[0] == 0x06 && |p| == 5 && p[3] == encoded[0] && p[4] == encoded[1]
      else p[0] == 0x10 && |p| == 6 + |encoded| && Count(p) == |encoded| / 2 && p[6..6 + |encoded|] == encoded
  {
    var p := WritePdu(addr, encoded);
    if |encoded| != 2 {
      assert p[6..6 + |encoded|] == encoded;
    }
  }

  /** The server's holding registers after a write: the words of the encoded bytes from the address on. */
  lemma WriteEffect(regs: Registers, addr: u16, encoded: seq<byte>)
    requires |encoded| in {2, 4, 8}
    ensures HandlePdu(regs, WritePdu(addr, encoded)).1 ==
            regs.(holding := Overwrite(regs.holding, addr, BytesWords(encoded)))
  {
    WritePduFields(addr, encoded);
    if |encoded| == 2 {
      OneRegister(regs.holding, addr, encoded);
    }
  }

  lemma OneRegister(m: map<int, Word>, a: int, encoded: seq<byte>)
    requires |encoded| == 2
    ensures Overwrite(m, a, BytesWords(encoded)) == m[a := Word(encoded[0], encoded[1])]
  {
    assert BytesWords(encoded) == [Word(encoded[0], encoded[1])] + BytesWords(encoded[2..]);
    assert Overwrite(m, a, [Word(encoded[0], encoded[1])]) == Overwrite(m, a, [])[a := Word(encoded[0], encoded[1])];
  }

  /** Registers outside those written keep their content. */
  lemma WriteElsewhere(regs: Registers, addr: u16, encoded: seq<byte>, b: int, n: nat)
    requires |encoded| in {2, 4, 8} && (b + n <= addr || addr as int + |encoded| / 2 <= b)
    ensures var after := HandlePdu(regs, WritePdu(addr, encoded)).1;
      after == regs.(holding := after.holding) && WordsAt(after.holding, b, n) == WordsAt(regs.holding, b, n)
  {
    WriteEffect(regs, addr, encoded);
    OverwriteElsewhere(regs.holding, addr, BytesWords(encoded), b, n);
  }

  /** The content of the registers just written decodes to the value wrapped to its type. */
  lemma WrittenContent(regs: Registers, addr: u16, t: DataType, order: ByteOrder, v: GoValue, ieee: Ieee)
    requires Encodable(v, t)
    ensures var encoded := EncodeValue(v, ieee, t, order).value;
      var data := Content(HandlePdu(regs, WritePdu(addr, encoded)).1, Holding, addr, RegisterCount(t));
      DecodeRegisters(data, t, order).Ok? && ReadsBackAs(v, ieee, t, DecodeRegisters(data, t, order).value)
  {
    var encoded := EncodeValue(v, ieee, t, order).value;
    ContentIsEncoded(regs, addr, encoded);
    DecodeOfEncode(v, ieee, t, order, []);
    assert encoded + [] == encoded;
  }

  lemma ContentIsEncoded(regs: Registers, addr: u16, encoded: seq<byte>)
    requires |encoded| in {2, 4, 8}
    ensures Content(HandlePdu(regs, WritePdu(addr, encoded)).1, Holding, addr, |encoded| / 2) == encoded
  {
    WriteEffect(regs, addr, encoded);
    OverwriteRead(regs.holding, addr, BytesWords(encoded));
    BytesOfWords(encoded);
  }

  /** Two requests on one connection, cut up in any way, are answered one after the other. */
  lemma TwoExchanges(unitId: int, regs: Registers, unit: byte, t1: u16, p1: seq<byte>, t2: u16, p2: seq<byte>,
                     up: seq<seq<byte>>, down: seq<seq<byte>>)
    requires Addressed(unitId, unit) && |p1| < 0xFFFF && |p2| < 0xFFFF
    requires |HandlePdu(regs, p1).0| < 0xFFFF && |HandlePdu(HandlePdu(regs, p1).1, p2).0| < 0xFFFF
    requires Flatten(up) == Stream([Message(t1, unit, p1), Message(t2, unit, p2)])
    requires Flatten(down) == Flatten(ReceiveAll(Setup(unitId, None, HandlePdu), Conn([], regs, [], Open), up).sent)
    ensures HandlePdu(regs, p1).0 != [] && HandlePdu(HandlePdu(regs, p1).1, p2).0 != []
    ensures AwaitMany(Await, [], down, 2).0 ==
            [ReplyWith(t1, unit, HandlePdu(regs, p1).0), ReplyWith(t2, unit, HandlePdu(HandlePdu(regs, p1).1, p2).0)]
  {
    HandlePduAnswers(regs, p1);
    HandlePduAnswers(HandlePdu(regs, p1).1, p2);
    var s, c := Setup(unitId, None, HandlePdu), Conn([], regs, [], Open);
    var qs: seq<Request> := [Message(t1, unit, p1), Message(t2, unit, p2)];
    var r1: Response := Message(t1, unit, HandlePdu(regs, p1).0);
    var r2: Response := Message(t2, unit, HandlePdu(HandlePdu(regs, p1).1, p2).0);
    StreamIsServed(s, regs, qs, up);
    ServeTwo(s, c, qs);
    StreamOfTwo(r1, r2);
    assert [] + Flatten(down) == Stream([r1, r2]) + [];
    RepliesInOrder([], down, [r1, r2], []);
    RepliesOfTwo(r1, r2);
  }

  lemma ServeTwo(s: Setup<Registers>, c: Conn<Registers>, qs: seq<Request>)
    requires |qs| == 2 && s.failAt == None && c.status == Open && c.sent == []
    requires Addressed(s.unitId, qs[0].unit) && Addressed(s.unitId, qs[1].unit)
    ensures var (a1, r1) := s.handle(c.regs, qs[0].pdu); var (a2, r2) := s.handle(r1, qs[1].pdu);
      Serve(s, c, qs).sent == [Frame(qs[0].txn, qs[0].unit, a1), Frame(qs[1].txn, qs[1].unit, a2)]
  {
    var c1 := Answer(s, c, qs[0].txn, qs[0].unit, qs[0].pdu);
    assert Serve(s, c, qs) == Serve(s, c1, qs[1..]);
    assert Serve(s, c1, qs[1..]) == Serve(s, Answer(s, c1, qs[1].txn, qs[1].unit, qs[1].pdu), qs[1..][1..]);
  }

  lemma StreamOfTwo(r1: Response, r2: Response)
    ensures Stream([r1, r2]) == Flatten([Frame(r1.txn, r1.unit, r1.pdu), Frame(r2.txn, r2.unit, r2.pdu)])
  {
    assert [r1, r2][1..] == [r2] && Stream([r2]) == Frame(r2.txn, r2.unit, r2.pdu) + Stream([]);
    var f1, f2 := Frame(r1.txn, r1.unit, r1.pdu), Frame(r2.txn, r2.unit, r2.pdu);
    assert [f1, f2][1..] == [f2] && Flatten([f2]) == f2 + Flatten([]);
  }

  lemma RepliesOfTwo(r1: Response, r2: Response)
    ensures Replies([r1, r2]) == [ReplyWith(r1.txn, r1.unit, r1.pdu), ReplyWith(r2.txn, r2.unit, r2.pdu)]
  {
    assert [r1, r2][1..] == [r2] && Replies([r2]) == [Sorted(FrameOf(r2))] + Replies([]);
  }

  lemma WriteReplyShort(regs: Registers, addr: u16, encoded: seq<byte>)
    requires |encoded| in {2, 4, 8}
    ensures var r := HandlePdu(regs, WritePdu(addr, encoded)).0; |r| == 5 && r[0] < 0x80
  {
    WritePduFields(addr, encoded);
  }

  /** The bytes sent: a write of the encoded value, then a read of the registers it took. */
  ghost predicate WritesThenReads(up: seq<seq<byte>>, unit: byte, addr: u16, encoded: seq<byte>, t1: u16, t2: u16) {
    |encoded| in {2, 4, 8} &&
    Flatten(up) == Stream([Message(t1, unit, WritePdu(addr, encoded)), Message(t2, unit, ReadPdu(3, addr, |encoded| / 2))])
  }

  /** The bytes that come back are those the server sends for the bytes that reach it. */
  ghost predicate ServedBy(unitId: int, regs: Registers, up: seq<seq<byte>>, down: seq<seq<byte>>) {
    Flatten(down) == Flatten(ReceiveAll(Setup(unitId, None, HandlePdu), Conn([], regs, [], Open), up).sent)
  }

  /** The write was confirmed and the read brought the value back, wrapped to its data type. */
  ghost predicate CameBack(replies: seq<Reply>, v: GoValue, ieee: Ieee, t: DataType, order: ByteOrder)
    requires Encodable(v, t)
  {
    |replies| == 2 && replies[0].Normal? && PayloadOf(replies[1]).Ok? &&
    DecodesTo(PayloadOf(replies[1]).value, v, ieee, t, order)
  }

  ghost predicate DecodesTo(data: seq<byte>, v: GoValue, ieee: Ieee, t: DataType, order: ByteOrder)
    requires Encodable(v, t)
  {
    var got := DecodeRegisters(data, t, order); got.Ok? && ReadsBackAs(v, ieee, t, got.value)
  }

  /** The replies to a write and a read of the registers it took: the second carries the bytes written. */
  lemma WriteThenRead(unitId: int, regs: Registers, unit: byte, addr: u16, encoded: seq<byte>, t1: u16, t2: u16,
                      up: seq<seq<byte>>, down: seq<seq<byte>>)
    requires Addressed(unitId, unit) && WritesThenReads(up, unit, addr, encoded, t1, t2) && ServedBy(unitId, regs, up, down)
    ensures var replies := AwaitMany(Await, [], down, 2).0;
      |replies| == 2 && replies[0].Normal? && PayloadOf(replies[1]) == Ok(encoded)
  {
    var write, read := WritePdu(addr, encoded), ReadPdu(3, addr, |encoded| / 2);
    var after := HandlePdu(regs, write).1;
    WriteReplyShort(regs, addr, encoded);
    ReadReply(after, Holding, addr, |encoded| / 2);
    TwoExchanges(unitId, regs, unit, t1, write, t2, read, up, down);
    PayloadOfReply(t2, unit, 3, Content(after, Holding, addr, |encoded| / 2));
    ContentIsEncoded(regs, addr, encoded);
  }

  /**
  A value written by the client with FC 06 or FC 10 and read back with FC 03 on the same connection, cut up
  in any way, is the value wrapped to its data type, for every byte order.
  */
  lemma WrittenValueReadsBack(unitId: int, regs: Registers, unit: byte, addr: u16, t: DataType, order: ByteOrder,
                              v: GoValue, ieee: Ieee, t1: u16, t2: u16, up: seq<seq<byte>>, down: seq<seq<byte>>)
    requires Encodable(v, t) && Addressed(unitId, unit)
    requires WritesThenReads(up, unit, addr, EncodeValue(v, ieee, t, order).value, t1, t2)
    requires ServedBy(unitId, regs, up, down)
    ensures CameBack(AwaitMany(Await, [], down, 2).0, v, ieee, t, order)
  {
    var encoded := EncodeValue(v, ieee, t, order).value;
    WriteThenRead(unitId, regs, unit, addr, encoded, t1, t2, up, down);
    DecodeOfEncode(v, ieee, t, order, []);
    assert encoded + [] == encoded;
  }

  // ----- commands -----

  /** The request handleCommand sends for a coil. */
  function WriteCoilPdu(addr: u16, b: bool): seq<byte> {
    [0x05] + Put16(addr) + if b then [0xFF, 0x00] else [0x00, 0x00]
  }

  /** A coil written reads back as written, and nothing else changes. */
  lemma WrittenCoilReadsBack(regs: Registers, tag: Tag, b: bool)
    requires tag.space == Coil && 0 <= tag.address < 0x1_0000
    ensures var after := HandlePdu(regs, WriteCoilPdu(tag.address, b)).1;
      Own(after, tag) == Ok(Bool(b)) && after == regs.(coils := regs.coils[tag.address := b])
  {
    CoilEffect(regs, tag.address, b);
    PackedBitOfPack(BitsAt(regs.coils[tag.address := b], tag.address, 1), 0);
  }

  lemma CoilEffect(regs: Registers, addr: u16, b: bool)
    ensures HandlePdu(regs, WriteCoilPdu(addr, b)).1 == regs.(coils := regs.coils[addr as int := b])
  {
    var pdu := WriteCoilPdu(addr, b);
    assert |pdu| == 5 && pdu[0] == 5 && Address(pdu) == addr && pdu[3..5] == if b then [0xFF, 0x00] else [0x00, 0x00];
  }

  /**
  The request handleCommand sends for a value, if any: FC 05 for a coil, a register write for every other tag,
  none for a tag that is not writable or a value that does not convert.
  */
  function Command(tag: Tag, v: GoValue, ieee: Ieee): Option<seq<byte>> {
    if !tag.writable then None
    else if tag.space == Coil then
      if ToBool(v).Some? then Some(WriteCoilPdu(Low16(tag.address), ToBool(v).value)) else None
    else
      var encoded := EncodeValue(v, ieee, tag.datatype_, tag.order);
      if encoded.Ok? then Some(WritePdu(Low16(tag.address), encoded.value)) else None
  }

  /** The server's registers once it has handled the command. */
  function Commanded(regs: Registers, tag: Tag, v: GoValue, ieee: Ieee): Registers {
    var pdu := Command(tag, v, ieee);
    if pdu.Some? then HandlePdu(regs, pdu.value).1 else regs
  }

  /** Read at its own address, the tag gives the value, as truth or wrapped to its data type. */
  ghost predicate Holds(regs: Registers, tag: Tag, v: GoValue, ieee: Ieee) {
    if IsBits(tag.space) then ToBool(v).Some? && Own(regs, tag) == Ok(Bool(ToBool(v).value))
    else Encodable(v, tag.datatype_) && ReadsBackAs(v, ieee, tag.datatype_, Own(regs, tag).value)
  }

  /** The spaces a command can reach, at the addresses a request can name. */
  predicate Reachable(tag: Tag) {
    tag.space in {Coil, Holding} && 0 <= tag.address < 0x1_0000
  }

  lemma CommandReaches(regs: Registers, tag: Tag, v: GoValue, ieee: Ieee)
    requires Command(tag, v, ieee).Some? && Reachable(tag)
    ensures Holds(Commanded(regs, tag, v, ieee), tag, v, ieee)
  {
    if tag.space == Coil {
      WrittenCoilReadsBack(regs, tag, ToBool(v).value);
    } else {
      WrittenContent(regs, tag.address, tag.datatype_, tag.order, v, ieee);
      var data := Content(Commanded(regs, tag, v, ieee), Holding, tag.address, RegisterCount(tag.datatype_));
      assert data[0..] == data;
    }
  }

  /** What conversion to uint16 changes, it moves far away. */
  lemma Low16Moves(n: int)
    ensures Low16(n) != n ==> n + 4 <= Low16(n) || Low16(n) as int + 4 <= n
  {
  }

  lemma CoilMissed(regs: Registers, tag: Tag, b: bool)
    requires tag.space == Coil && Low16(tag.address) != tag.address
    ensures Own(HandlePdu(regs, WriteCoilPdu(Low16(tag.address), b)).1, tag) == Own(regs, tag)
  {
    CoilEffect(regs, Low16(tag.address), b);
    var after := regs.coils[Low16(tag.address) as int := b];
    assert BitsAt(after, tag.address, 1) == BitsAt(regs.coils, tag.address, 1);
  }

  /** A register write goes to the holding registers it names: every other tag keeps the value it had. */
  lemma RegisterMissed(regs: Registers, tag: Tag, addr: u16, encoded: seq<byte>)
    requires |encoded| in {2, 4, 8}
    requires tag.space != Holding || tag.address + 4 <= addr || addr as int + 4 <= tag.address
    ensures Own(HandlePdu(regs, WritePdu(addr, encoded)).1, tag) == Own(regs, tag)
  {
    if tag.space == Holding {
      WriteElsewhere(regs, addr, encoded, tag.address, RegisterCount(tag.datatype_));
    } else {
      WriteEffect(regs, addr, encoded);
    }
  }

  lemma CommandMisses(regs: Registers, tag: Tag, v: GoValue, ieee: Ieee)
    requires Command(tag, v, ieee).Some? && !Reachable(tag)
    ensures Own(Commanded(regs, tag, v, ieee), tag) == Own(regs, tag)
  {
    Low16Moves(tag.address);
    if tag.space == Coil {
      CoilMissed(regs, tag, ToBool(v).value);
    } else {
      RegisterMissed(regs, tag, Low16(tag.address), EncodeValue(v, ieee, tag.datatype_, tag.order).value);
    }
  }

  /**
  A command that is sent leaves the tag with the commanded value exactly when the tag is a coil or a holding
  register at an address a request can name, or had that value before.
  */
  lemma CommandHoldsIff(regs: Registers, tag: Tag, v: GoValue, ieee: Ieee)
    requires Command(tag, v, ieee).Some?
    ensures Holds(Commanded(regs, tag, v, ieee), tag, v, ieee) <==> Reachable(tag) || Holds(regs, tag, v, ieee)
  {
    if Reachable(tag) {
      CommandReaches(regs, tag, v, ieee);
    } else {
      CommandMisses(regs, tag, v, ieee);
    }
  }

  /** A command to a writable discrete input is sent, and lost. */
  lemma CommandLost(tag: Tag, ieee: Ieee)
    requires tag.space == Discrete && tag.writable && tag.datatype_ == Boolean
    ensures var empty := Registers(map[], map[], map[], map[]);
      Command(tag, Truth(true), ieee).Some? && !Holds(Commanded(empty, tag, Truth(true), ieee), tag, Truth(true), ieee)
  {
    var empty := Registers(map[], map[], map[], map[]);
    CommandHoldsIff(empty, tag, Truth(true), ieee);
    PackedBitOfPack(BitsAt(empty.discretes, tag.address, 1), 0);
  }

  /** Told from the value: a command of an integer puts it into a holding register, if it is in range. */
  lemma CommandedInteger(regs: Registers, tag: Tag, v: GoValue, w: int, ieee: Ieee)
    requires tag.writable && tag.space == Holding && 0 <= tag.address < 0x1_0000
    requires IsIntegerType(tag.datatype_) && IsInteger(v, w) && InRange(w, tag.datatype_)
    ensures Own(Commanded(regs, tag, v, ieee), tag) == Ok(Int(w))
  {
    WrittenInteger(v, w, ieee, tag.datatype_, tag.order);
    CommandReaches(regs, tag, v, ieee);
    HeldInteger(v, w, ieee, tag.datatype_, Own(Commanded(regs, tag, v, ieee), tag).value);
  }

  lemma HeldInteger(v: GoValue, w: int, ieee: Ieee, t: DataType, got: Value)
    requires IsIntegerType(t) && IsInteger(v, w) && InRange(w, t) && Encodable(v, t) && ReadsBackAs(v, ieee, t, got)
    ensures got == Int(w)
  {
    assert ToInt64(v) == Some(w);
    WrapUnique(got.n, w, w, t);
  }

  /** A command of a truth value sets a coil to it. */
  lemma CommandedTruth(regs: Registers, tag: Tag, v: GoValue, b: bool, ieee: Ieee)
    requires tag.writable && tag.space == Coil && 0 <= tag.address < 0x1_0000 && IsTruth(v, b)
    ensures Own(Commanded(regs, tag, v, ieee), tag) == Ok(Bool(b))
  {
    assert ToBool(v) == Some(b);
    CommandReaches(regs, tag, v, ieee);
  }

  lemma CommandLength(tag: Tag, v: GoValue, ieee: Ieee)
    requires Command(tag, v, ieee).Some?
    ensures var pdu := Command(tag, v, ieee).value;
      5 <= |pdu| <= 14 && Served(pdu[0]) && 5 <= pdu[0] < 0x80 && LongEnough(pdu)
  {
    if tag.space != Coil {
      var encoded := EncodeValue(v, ieee, tag.datatype_, tag.order).value;
      WritePduFields(Low16(tag.address), encoded);
    }
  }

  /**
  A command, over a connection cut up in any way, is carried out by the server it is addressed to and
  confirmed with its own first five bytes.
  */
  lemma CommandConfirmed(unitId: int, regs: Registers, txn: u16, unit: byte, tag: Tag, v: GoValue, ieee: Ieee,
                         up: seq<seq<byte>>, down: seq<seq<byte>>)
    requires Command(tag, v, ieee).Some? && (unit == unitId || unit == 0)
    requires Flatten(up) == Frame(txn, unit, Command(tag, v, ieee).value) && ServedBy(unitId, regs, up, down)
    ensures var pdu := Command(tag, v, ieee).value;
      |pdu| >= 5 && Await([], down).reply == Normal(MbapFrame(txn, 0, unit, pdu[0], pdu[1..5]))
    ensures ReceiveAll(Setup(unitId, None, HandlePdu), Conn([], regs, [], Open), up).regs == Commanded(regs, tag, v, ieee)
  {
    var pdu := Command(tag, v, ieee).value;
    CommandLength(tag, v, ieee);
    RefusedIff(regs, pdu);
    ExchangeIff(unitId, regs, txn, unit, pdu, up, down);
    assert pdu[..5][1..] == pdu[1..5];
  }

  /** A request the server refuses reaches the caller as that exception, and changes nothing. */
  lemma RefusalReachesClient(unitId: int, regs: Registers, txn: u16, unit: byte, pdu: seq<byte>,
                             up: seq<seq<byte>>, down: seq<seq<byte>>)
    requires 0 < |pdu| < 0xFFFF && (unit == unitId || unit == 0) && (!Served(pdu[0]) || !LongEnough(pdu))
    requires Flatten(up) == Frame(txn, unit, pdu) && ServedBy(unitId, regs, up, down)
    ensures Await([], down).reply == Exception(pdu[0] % 0x80, if Served(pdu[0]) then 3 else 1)
    ensures ReceiveAll(Setup(unitId, None, HandlePdu), Conn([], regs, [], Open), up).regs == regs
  {
    RefusedIff(regs, pdu);
    ExchangeIff(unitId, regs, txn, unit, pdu, up, down);
    SortedException(txn, unit, HandlePdu(regs, pdu).0);
  }

  lemma SortedException(txn: u16, unit: byte, resp: seq<byte>)
    requires |resp| == 2 && resp[0] >= 0x80
    ensures ReplyWith(txn, unit, resp) == Exception(resp[0] - 0x80, resp[1])
  {
  }
}
