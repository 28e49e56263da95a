/**
Polling a device over one connection: the block loop of pollDevice in internal/modbus/scanner.go on top
of readBlock in internal/modbus/client.go, against the server of internal/modbusserver.
*/
module ModbusPoll {
  import opened Common
  import opened Bytes
  import opened ModbusCodec
  import opened ModbusStore
  import opened ModbusServer
  import opened ModbusWire
  import opened ModbusLink
  import opened ModbusPlan
  import opened ModbusScan
  import opened ModbusEndToEnd

  function RequestOf(b: ReadBlock): (pdu: seq<byte>)
    ensures |pdu| == 5
  {
    ReadPdu(CodeOf(b.space), Low16(b.start), Low16(b.count))
  }

  // ----- one poll of the client -----

  /** A read error ends the poll; a panic ends the process; otherwise the block's values join the others. */
  ghost function PollStep(b: ReadBlock, data: Result<seq<byte>>): PollResult
    requires HasOffsets(b)
  {
    if data.Ok? then BlockValues(b, data.value) else Failed
  }

  function Join(values: map<string, Value>, rest: PollResult): PollResult {
    if rest.Values? then Values(values + rest.values) else rest
  }

  type Awaiting = (seq<byte>, seq<seq<byte>>) -> Outcome

  /** The blocks read one after another from the bytes on hand and to come. */
  ghost function Poll(await: Awaiting, buf: seq<byte>, arrivals: seq<seq<byte>>, blocks: seq<ReadBlock>): PollResult
    requires forall k | 0 <= k < |blocks| :: HasOffsets(blocks[k])
    decreases |blocks|
  {
    if blocks == [] then Values(map[])
    else
      var o := await(buf, arrivals);
      var r := PollStep(blocks[0], PayloadOf(o.reply));
      if r.Values? then Join(r.values, Poll(await, o.buf, o.arrivals, blocks[1..])) else r
  }

  lemma JoinTwice(a: map<string, Value>, b: map<string, Value>, rest: PollResult)
    ensures Join(a, Join(b, rest)) == Join(a + b, rest)
  {
    if rest.Values? {
      assert a + (b + rest.values) == a + b + rest.values;
    }
  }

  /** The blocks before i have given `all`, and the rest leads to the goal. */
  ghost predicate Ahead(await: Awaiting, goal: PollResult, all: map<string, Value>,
                        buf: seq<byte>, arrivals: seq<seq<byte>>, blocks: seq<ReadBlock>, i: nat)
    requires forall k | 0 <= k < |blocks| :: HasOffsets(blocks[k])
  {
    i <= |blocks| && Join(all, Poll(await, buf, arrivals, blocks[i..])) == goal
  }

  lemma AheadStart(await: Awaiting, buf: seq<byte>, arrivals: seq<seq<byte>>, blocks: seq<ReadBlock>)
    requires forall k | 0 <= k < |blocks| :: HasOffsets(blocks[k])
    ensures Ahead(await, Poll(await, buf, arrivals, blocks), map[], buf, arrivals, blocks, 0)
  {
    assert blocks[0..] == blocks;
    MapUnit(Poll(await, buf, arrivals, blocks));
  }

  lemma AheadNext(await: Awaiting, goal: PollResult, all: map<string, Value>,
                  buf: seq<byte>, arrivals: seq<seq<byte>>, blocks: seq<ReadBlock>, i: nat)
    requires i < |blocks| && forall k | 0 <= k < |blocks| :: HasOffsets(blocks[k])
    requires Ahead(await, goal, all, buf, arrivals, blocks, i)
    ensures var o := await(buf, arrivals); var r := PollStep(blocks[i], PayloadOf(o.reply));
      if r.Values? then Ahead(await, goal, all + r.values, o.buf, o.arrivals, blocks, i + 1) else r == goal
  {
    var o := await(buf, arrivals);
    var r := PollStep(blocks[i], PayloadOf(o.reply));
    assert blocks[i..][0] == blocks[i] && blocks[i..][1..] == blocks[i + 1..];
    if r.Values? {
      JoinTwice(all, r.values, Poll(await, o.buf, o.arrivals, blocks[i + 1..]));
    }
  }

  lemma AheadEnd(await: Awaiting, goal: PollResult, all: map<string, Value>,
                 buf: seq<byte>, arrivals: seq<seq<byte>>, blocks: seq<ReadBlock>)
    requires forall k | 0 <= k < |blocks| :: HasOffsets(blocks[k])
    requires Ahead(await, goal, all, buf, arrivals, blocks, |blocks|)
    ensures goal == Values(all)
  {
    assert all + map[] == all;
  }

  /** The blocks whose requests are written: all, or those before the write that fails. */
  function Written(blocks: seq<ReadBlock>, failAt: Option<nat>): seq<ReadBlock> {
    if failAt.Some? && failAt.value < |blocks| then blocks[..failAt.value] else blocks
  }

  /** A write that fails ends the poll there, unless it has ended before. */
  ghost function PollUntil(await: Awaiting, buf: seq<byte>, arrivals: seq<seq<byte>>, blocks: seq<ReadBlock>,
                           failAt: Option<nat>): PollResult
    requires forall k | 0 <= k < |blocks| :: HasOffsets(blocks[k])
  {
    var r := Poll(await, buf, arrivals, Written(blocks, failAt));
    if r.Values? && Written(blocks, failAt) != blocks then Failed else r
  }

  /** readBlock: a request, its reply, and the values taken out of it. */
  method ReadOneBlock(client: ModbusClient, b: ReadBlock, written: bool, arrivals: seq<seq<byte>>)
    returns (r: PollResult, rest: seq<seq<byte>>)
    requires HasOffsets(b)
    modifies client
    ensures if written then
              var o := Await(old(client.readBuf), arrivals);
              r == PollStep(b, PayloadOf(o.reply)) && client.readBuf == o.buf && rest == o.arrivals
            else r == Failed && client.readBuf == old(client.readBuf) && rest == arrivals
  {
    var request, data;
    request, data, rest := client.ReadData(CodeOf(b.space), Low16(b.start), Low16(b.count), written, arrivals);
    if data.Err? {
      r := Failed;
    } else {
      r := ReadBlockValues(b, data.value);
    }
  }

  /** The loop over the blocks in pollDevice; `failAt` is the write that fails, if one does. */
  method PollDevice(client: ModbusClient, blocks: seq<ReadBlock>, arrivals: seq<seq<byte>>, failAt: Option<nat>)
    returns (r: PollResult)
    requires forall k | 0 <= k < |blocks| :: HasOffsets(blocks[k])
    modifies client
    ensures r == PollUntil(Await, old(client.readBuf), arrivals, blocks, failAt)
  {
    ghost var written := Written(blocks, failAt);
    ghost var goal := Poll(Await, client.readBuf, arrivals, written);
    var all: map<string, Value>, rest := map[], arrivals;
    AheadStart(Await, client.readBuf, arrivals, written);
    for i := 0 to |blocks|
      invariant Ahead(Await, goal, all, client.readBuf, rest, written, i)
    {
      if i < |written| {
        assert written[i] == blocks[i];
        AheadNext(Await, goal, all, client.readBuf, rest, written, i);
      } else {
        AheadEnd(Await, goal, all, client.readBuf, rest, written);
      }
      var v;
      v, rest := ReadOneBlock(client, blocks[i], failAt != Some(i), rest);
      if !v.Values? {
        return v;
      }
      all := all + v.values;
    }
    AheadEnd(Await, goal, all, client.readBuf, rest, written);
    return Values(all);
  }

  lemma MapUnit(r: PollResult)
    ensures Join(map[], r) == r
  {
    if r.Values? {
      assert map[] + r.values == r.values;
    }
  }

  // ----- what the client takes out of a reply -----

  /** The length field of the reply covers the byte count and the bytes it announces. */
  predicate Arrives(n: nat) {
    Field(n + 3) >= LowByte(n) + 3
  }

  lemma FrameStart(txn: u16, unit: byte, fc: byte, content: seq<byte>, rest: seq<byte>)
    ensures var n := |content|; var b := Frame(txn, unit, [fc, LowByte(n)] + content) + rest;
      |b| >= 9 + n && LengthField(b) == Field(n + 3) && b[7] == fc && b[8] == LowByte(n) && b[9..9 + n] == content &&
      b[9 + n..] == rest
  {
    var pdu := [fc, LowByte(|content|)] + content;
    Prefixed(Header(txn, Field(|pdu| + 1), unit), pdu, rest);
    var b := Frame(txn, unit, pdu) + rest;
    assert b[7..9 + |content|] == pdu;
    assert b[7] == pdu[0] && b[8] == pdu[1];
  }

  /** The payload is the front of the content, as much of it as the one-byte count says. */
  lemma ReplyPayload(buf: seq<byte>, arrivals: seq<seq<byte>>, txn: u16, unit: byte, fc: byte, content: seq<byte>, rest: seq<byte>)
    requires fc < 0x80 && buf + Flatten(arrivals) == Frame(txn, unit, [fc, LowByte(|content|)] + content) + rest
    ensures var n := |content|; var o := Await(buf, arrivals); var data := PayloadOf(o.reply);
      (data.Ok? <==> Arrives(n)) && (data.Ok? ==> data.value == content[..LowByte(n)]) &&
      (n + 3 < 0x1_0000 ==> o.buf + Flatten(o.arrivals) == rest)
  {
    FrameStart(txn, unit, fc, content, rest);
    AwaitTakesFirstFrame(buf, arrivals);
    TakenPayload(buf + Flatten(arrivals), |content|);
  }

  lemma TakenPayload(b: seq<byte>, n: nat)
    requires |b| >= 9 + n && LengthField(b) == Field(n + 3) && b[7] < 0x80 && b[8] == LowByte(n)
    ensures match DecodeMBAP(b)
      case Complete(f, consumed) =>
        (PayloadOf(Sorted(f)).Ok? <==> Arrives(n)) && (n + 3 < 0x1_0000 ==> consumed == 9 + n) &&
        (Arrives(n) ==> PayloadOf(Sorted(f)).value == b[9..9 + n][..LowByte(n)])
      case _ => !Arrives(n) && n + 3 >= 0x1_0000
  {
    if Arrives(n) {
      var count := LowByte(n) as int;
      SliceOfSlice(b, 8, 6 + LengthField(b), 1, 1 + count);
      SliceOfSlice(b, 9, 9 + n, 0, count);
    }
  }

  lemma SliceOfSlice(s: seq<byte>, lo: nat, hi: nat, i: nat, j: nat)
    requires lo <= hi <= |s| && i <= j <= hi - lo
    ensures s[lo..hi][i..j] == s[lo + i..lo + j]
  {
    var slice, whole := s[lo..hi][i..j], s[lo + i..lo + j];
    assert |slice| == |whole| && forall k | 0 <= k < |slice| :: slice[k] == s[lo..hi][i + k] && whole[k] == s[lo + i + k];
  }

  // ----- the server's replies to a poll -----

  /** The requests of a poll, with transaction numbers counted on from txn. */
  function Requests(txn: u16, unit: byte, blocks: seq<ReadBlock>): seq<Request>
    decreases |blocks|
  {
    if blocks == [] then []
    else [Message(txn, unit, RequestOf(blocks[0]))] + Requests(Field(txn as int + 1), unit, blocks[1..])
  }

  function ContentOf(regs: Registers, b: ReadBlock): seq<byte> {
    Content(regs, b.space, Low16(b.start), Low16(b.count))
  }

  function ReplyTo(regs: Registers, b: ReadBlock): seq<byte> {
    [CodeOf(b.space), LowByte(|ContentOf(regs, b)|)] + ContentOf(regs, b)
  }

  /** A read of any quantity is answered with the low byte of the length and all of the content. */
  lemma ReadAnswered(regs: Registers, b: ReadBlock)
    ensures HandlePdu(regs, RequestOf(b)) == (ReplyTo(regs, b), regs)
  {
    var pdu := RequestOf(b);
    ReadPduFields(CodeOf(b.space), Low16(b.start), Low16(b.count));
    if IsBits(b.space) {
      assert HandlePdu(regs, pdu) == (ReadBits(BitSpace(regs, b.space), pdu), regs);
    } else {
      assert HandlePdu(regs, pdu) == (ReadWords(WordSpace(regs, b.space), pdu), regs);
    }
  }

  function ReplyBytes(regs: Registers, txn: u16, unit: byte, blocks: seq<ReadBlock>): seq<byte>
    decreases |blocks|
  {
    if blocks == [] then []
    else Frame(txn, unit, ReplyTo(regs, blocks[0])) + ReplyBytes(regs, Field(txn as int + 1), unit, blocks[1..])
  }

  lemma {:induction false} FlattenAppend(chunks: seq<seq<byte>>, c: seq<byte>)
    ensures Flatten(chunks + [c]) == Flatten(chunks) + c
  {
    if chunks == [] {
      assert chunks + [c] == [c] && Flatten([c]) == c + Flatten([]);
    } else {
      assert (chunks + [c])[1..] == chunks[1..] + [c];
      FlattenAppend(chunks[1..], c);
    }
  }

  lemma {:induction false} ServePoll(unitId: int, c: Conn<Registers>, txn: u16, unit: byte, blocks: seq<ReadBlock>)
    requires Addressed(unitId, unit) && c.status == Open
    ensures var r := Serve(Setup(unitId, None, HandlePdu), c, Requests(txn, unit, blocks));
      Flatten(r.sent) == Flatten(c.sent) + ReplyBytes(c.regs, txn, unit, blocks)
    decreases |blocks|
  {
    var s := Setup(unitId, None, HandlePdu);
    if blocks == [] {
      assert Flatten(c.sent) + [] == Flatten(c.sent);
    } else {
      ReadAnswered(c.regs, blocks[0]);
      var frame := Frame(txn, unit, ReplyTo(c.regs, blocks[0]));
      var c1 := c.(sent := c.sent + [frame]);
      var qs := Requests(txn, unit, blocks);
      assert qs[1..] == Requests(Field(txn as int + 1), unit, blocks[1..]);
      assert Answer(s, c, txn, unit, RequestOf(blocks[0])) == c1;
      ServePoll(unitId, c1, Field(txn as int + 1), unit, blocks[1..]);
      FlattenAppend(c.sent, frame);
      Joined(Flatten(c.sent), frame, ReplyBytes(c.regs, Field(txn as int + 1), unit, blocks[1..]));
    }
  }

  // ----- which tags of a block arrive -----

  /** Every tag of a planned block is in its place, one starts it, and one ends it. */
  ghost predicate Planned(b: ReadBlock) {
    WellPlaced(b) && HasOffsets(b) && 0 < b.count && EndsOnTag(b)
  }

  ghost predicate AllPlanned(blocks: seq<ReadBlock>) {
    forall k | 0 <= k < |blocks| :: HasOffsets(blocks[k]) && Planned(blocks[k])
  }

  ghost predicate AllDeliver(regs: Registers, blocks: seq<ReadBlock>)
    requires AllPlanned(blocks)
  {
    forall k | 0 <= k < |blocks| :: Delivers(regs, blocks[k])
  }

  ghost predicate EndsOnTag(b: ReadBlock) {
    exists i :: 0 <= i < |b.tags| && b.tags[i].offset + Width(b.tags[i].tag) == b.count
  }

  /** Bit i of a reply to a read of q bits is a real one. */
  predicate BitArrives(q: nat, i: nat) {
    i < q && i / 8 < LowByte((q + 7) / 8)
  }

  /** A tag of the block at the address its request looks at: the block's start loses its high bits. */
  function Sought(b: ReadBlock, i: nat): Tag
    requires i < |b.tags|
  {
    b.tags[i].tag.(address := Low16(b.start) + b.tags[i].offset)
  }

  /** A bit that does not arrive reads as off. */
  predicate BitRead(regs: Registers, b: ReadBlock, i: nat)
    requires i < |b.tags| && 0 <= b.tags[i].offset
  {
    BitArrives(Low16(b.count), b.tags[i].offset) && BitAt(BitSpace(regs, b.space), Sought(b, i).address)
  }

  /**
  A register block arrives exactly when its byte count fits a byte; a coil or discrete block always does,
  as far as its count goes. It gives its tags their values when what stands where the request looks, and
  arrives, is what stands at the tags' own addresses.
  */
  ghost predicate Delivers(regs: Registers, b: ReadBlock)
    requires HasOffsets(b)
  {
    if IsBits(b.space)
    then forall i | 0 <= i < |b.tags| :: BitRead(regs, b, i) == BitAt(BitSpace(regs, b.space), b.tags[i].tag.address)
    else Fits(b.space, b.count) && forall i | 0 <= i < |b.tags| :: Own(regs, Sought(b, i)) == Own(regs, b.tags[i].tag)
  }

  /** The results hold the own value of each of these tags. */
  ghost predicate GivesOwn(r: PollResult, tags: seq<Tag>, f: Tag -> Value) {
    r.Values? && forall i | 0 <= i < |tags| :: tags[i].id in r.values && r.values[tags[i].id] == f(tags[i])
  }

  ghost predicate DistinctIds(tags: seq<Tag>) {
    forall i, j | 0 <= i < j < |tags| :: tags[i].id != tags[j].id
  }

  ghost function OwnOf(regs: Registers): Tag -> Value {
    (t: Tag) => Own(regs, t).value
  }

  ghost function Ids(tags: seq<Tag>): set<string> {
    set i | 0 <= i < |tags| :: tags[i].id
  }

  lemma {:induction false} GatheredAt(tags: seq<TagInBlock>, placed: seq<Tag>, values: seq<Result<Value>>, n: nat)
    requires n <= |tags| == |values| == |placed| && DistinctIds(placed)
    requires forall i | 0 <= i < |tags| :: tags[i].tag == placed[i]
    ensures forall i | 0 <= i < n ::
      if values[i].Ok? then placed[i].id in Gathered(tags, values, n) && Gathered(tags, values, n)[placed[i].id] == values[i].value
      else placed[i].id !in Gathered(tags, values, n)
    ensures Gathered(tags, values, n).Keys <= Ids(placed[..n])
    decreases n
  {
    if n > 0 {
      GatheredAt(tags, placed, values, n - 1);
      IdsNext(placed, n - 1);
    }
  }

  lemma IdsNext(tags: seq<Tag>, i: nat)
    requires i < |tags|
    ensures Ids(tags[..i + 1]) == Ids(tags[..i]) + {tags[i].id}
    ensures DistinctIds(tags) ==> tags[i].id !in Ids(tags[..i])
  {
    var some := tags[..i + 1];
    assert some[i] == tags[i] && forall k | 0 <= k < i :: some[k] == tags[..i][k];
  }

  lemma GatheredGivesOwnIff(tags: seq<TagInBlock>, placed: seq<Tag>, values: seq<Result<Value>>, f: Tag -> Value)
    requires |tags| == |values| == |placed| && DistinctIds(placed)
    requires forall i | 0 <= i < |tags| :: tags[i].tag == placed[i]
    ensures GivesOwn(Values(Gathered(tags, values, |tags|)), placed, f) <==>
            forall i | 0 <= i < |values| :: values[i] == Ok(f(placed[i]))
    ensures Gathered(tags, values, |tags|).Keys <= Ids(placed)
  {
    GatheredAt(tags, placed, values, |tags|);
    assert placed[..|tags|] == placed;
  }

  /** A block gives its tags the values of f exactly when all of them are extracted so. */
  lemma BlockGivesIff(b: ReadBlock, data: seq<byte>, f: Tag -> Value)
    requires HasOffsets(b) && DistinctIds(Placed(b))
    ensures GivesOwn(BlockValues(b, data), Placed(b), f) <==>
            Sliceable(b, data) &&
            forall i | 0 <= i < |b.tags| :: Extracted(b.space, data, b.tags[i]) == Ok(f(b.tags[i].tag))
    ensures BlockValues(b, data).Values? ==> BlockValues(b, data).values.Keys <= Ids(Placed(b))
  {
    if Sliceable(b, data) {
      GatheredGivesOwnIff(b.tags, Placed(b), AllExtracted(b, data), f);
    }
  }

  /** What the client has of a block: the announced front of its content, or nothing. */
  ghost predicate Received(regs: Registers, b: ReadBlock, data: Result<seq<byte>>) {
    var content := ContentOf(regs, b);
    (data.Ok? <==> Arrives(|content|)) && (data.Ok? ==> data.value == content[..LowByte(|content|)])
  }

  lemma BitsReceived(regs: Registers, b: ReadBlock, data: Result<seq<byte>>, i: nat)
    requires Planned(b) && IsBits(b.space) && Received(regs, b, data) && i < |b.tags|
    ensures data.Ok? && |ContentOf(regs, b)| + 3 < 0x1_0000
    ensures DecodeBoolFromCoils(data.value, b.tags[i].offset) <==> BitRead(regs, b, i)
    ensures Own(regs, b.tags[i].tag) == Ok(Bool(BitAt(BitSpace(regs, b.space), b.tags[i].tag.address)))
  {
    var m, p, q := BitSpace(regs, b.space), b.tags[i], Low16(b.count);
    PackedBitOfPack(BitsAt(m, Low16(b.start), q), p.offset);
    PackedBitOfPack(BitsAt(m, p.tag.address, 1), 0);
  }

  lemma BitsGiveOwnIff(regs: Registers, b: ReadBlock, data: Result<seq<byte>>)
    requires Planned(b) && IsBits(b.space) && Received(regs, b, data) && DistinctIds(Placed(b))
    ensures GivesOwn(PollStep(b, data), Placed(b), OwnOf(regs)) <==> Delivers(regs, b)
    ensures data.Ok? && |ContentOf(regs, b)| + 3 < 0x1_0000
  {
    forall i | 0 <= i < |b.tags|
      ensures data.Ok? &&
        (Extracted(b.space, data.value, b.tags[i]) == Ok(OwnOf(regs)(b.tags[i].tag)) <==>
         BitRead(regs, b, i) == BitAt(BitSpace(regs, b.space), b.tags[i].tag.address))
    {
      BitsReceived(regs, b, data, i);
    }
    BlockGivesIff(b, data.value, OwnOf(regs));
  }

  /** The tag that ends a register block of more than 127 never arrives whole. */
  lemma LastTagCut(regs: Registers, b: ReadBlock, data: Result<seq<byte>>)
    requires Planned(b) && !IsBits(b.space) && Received(regs, b, data) && !Fits(b.space, b.count) && DistinctIds(Placed(b))
    ensures !GivesOwn(PollStep(b, data), Placed(b), OwnOf(regs))
  {
    if data.Ok? {
      var i :| 0 <= i < |b.tags| && b.tags[i].offset + Width(b.tags[i].tag) == b.count;
      BlockGivesIff(b, data.value, OwnOf(regs));
      assert Sliceable(b, data.value) ==> Extracted(b.space, data.value, b.tags[i]).Err?;
    }
  }

  /** The block as its request sees it. */
  function Moved(b: ReadBlock): (m: ReadBlock)
    ensures |m.tags| == |b.tags|
  {
    ReadBlock(b.space, Low16(b.start), b.count,
              seq(|b.tags|, i requires 0 <= i < |b.tags| => TagInBlock(Sought(b, i), b.tags[i].offset)))
  }

  /** A register tag is taken from where its request looks. */
  lemma ExtractedIsSought(regs: Registers, b: ReadBlock, i: nat)
    requires Planned(b) && !IsBits(b.space) && b.count < 0x1_0000 && i < |b.tags|
    ensures |ContentOf(regs, b)| == 2 * b.count && b.tags[i].offset <= b.count
    ensures Extracted(b.space, ContentOf(regs, b), b.tags[i]) == Own(regs, Sought(b, i))
  {
    var m := Moved(b);
    assert WellPlaced(m) by {
      forall k | 0 <= k < |m.tags|
        ensures m.tags[k].tag.space == m.space && Width(m.tags[k].tag) == Width(b.tags[k].tag)
      {
        assert m.tags[k].tag == Sought(b, k);
      }
    }
    ExtractedIsOwn(regs, m, i);
    assert m.tags[i] == TagInBlock(Sought(b, i), b.tags[i].offset);
  }

  lemma RegistersGiveOwnIff(regs: Registers, b: ReadBlock, data: Result<seq<byte>>)
    requires Planned(b) && !IsBits(b.space) && Received(regs, b, data) && Fits(b.space, b.count) && DistinctIds(Placed(b))
    ensures GivesOwn(PollStep(b, data), Placed(b), OwnOf(regs)) <==> Delivers(regs, b)
    ensures |ContentOf(regs, b)| + 3 < 0x1_0000
  {
    var content := ContentOf(regs, b);
    assert |content| == 2 * b.count && data == Ok(content) by {
      assert content[..|content|] == content;
    }
    assert Sliceable(b, content);
    forall i | 0 <= i < |b.tags|
      ensures Extracted(b.space, content, b.tags[i]) == Own(regs, Sought(b, i))
      ensures Own(regs, b.tags[i].tag) == Ok(OwnOf(regs)(b.tags[i].tag))
    {
      ExtractedIsSought(regs, b, i);
    }
    BlockGivesIff(b, content, OwnOf(regs));
  }

  lemma HeadGivesOwnIff(regs: Registers, b: ReadBlock, data: Result<seq<byte>>)
    requires Planned(b) && Received(regs, b, data) && DistinctIds(Placed(b))
    ensures GivesOwn(PollStep(b, data), Placed(b), OwnOf(regs)) <==> Delivers(regs, b)
    ensures Delivers(regs, b) ==> |ContentOf(regs, b)| + 3 < 0x1_0000
    ensures PollStep(b, data).Values? ==> PollStep(b, data).values.Keys <= Ids(Placed(b))
  {
    if data.Ok? {
      BlockGivesIff(b, data.value, OwnOf(regs));
    }
    if IsBits(b.space) {
      BitsGiveOwnIff(regs, b, data);
    } else if Fits(b.space, b.count) {
      RegistersGiveOwnIff(regs, b, data);
    } else {
      LastTagCut(regs, b, data);
    }
  }

  // ----- a whole poll -----

  lemma JoinGivesOwnIff(m: map<string, Value>, s: seq<Tag>, rest: PollResult, t: seq<Tag>, f: Tag -> Value)
    requires DistinctIds(s + t) && m.Keys <= Ids(s) && (rest.Values? ==> rest.values.Keys <= Ids(t))
    ensures GivesOwn(Join(m, rest), s + t, f) <==> GivesOwn(Values(m), s, f) && GivesOwn(rest, t, f)
    ensures Join(m, rest).Values? ==> Join(m, rest).values.Keys <= Ids(s + t)
  {
    var all := s + t;
    assert forall i | 0 <= i < |s| :: all[i] == s[i];
    assert forall j | 0 <= j < |t| :: all[|s| + j] == t[j];
    forall i, j | 0 <= i < |s| && 0 <= j < |t|
      ensures s[i].id != t[j].id
    {
      assert all[i].id != all[|s| + j].id;
    }
  }

  lemma DistinctParts(s: seq<Tag>, t: seq<Tag>)
    requires DistinctIds(s + t)
    ensures DistinctIds(s) && DistinctIds(t)
  {
    var all := s + t;
    assert forall i | 0 <= i < |s| :: all[i] == s[i];
    assert forall j | 0 <= j < |t| :: all[|s| + j] == t[j];
  }

  /** One step of a poll: the client takes the head's reply and, when that fits a frame, the others are left. */
  lemma PollTakes(regs: Registers, txn: u16, unit: byte, blocks: seq<ReadBlock>,
                  buf: seq<byte>, arrivals: seq<seq<byte>>, rest: seq<byte>)
    requires blocks != [] && buf + Flatten(arrivals) == ReplyBytes(regs, txn, unit, blocks) + rest
    ensures var o := Await(buf, arrivals);
      Received(regs, blocks[0], PayloadOf(o.reply)) &&
      (|ContentOf(regs, blocks[0])| + 3 < 0x1_0000 ==>
         o.buf + Flatten(o.arrivals) == ReplyBytes(regs, Field(txn as int + 1), unit, blocks[1..]) + rest)
  {
    var b, more := blocks[0], ReplyBytes(regs, Field(txn as int + 1), unit, blocks[1..]);
    Joined(Frame(txn, unit, ReplyTo(regs, b)), more, rest);
    ReplyPayload(buf, arrivals, txn, unit, CodeOf(b.space), ContentOf(regs, b), more + rest);
  }

  lemma {:induction false} PollKeys(await: Awaiting, buf: seq<byte>, arrivals: seq<seq<byte>>, blocks: seq<ReadBlock>)
    requires forall k | 0 <= k < |blocks| :: HasOffsets(blocks[k])
    requires DistinctIds(AllPlaced(blocks))
    ensures var r := Poll(await, buf, arrivals, blocks); r.Values? ==> r.values.Keys <= Ids(AllPlaced(blocks))
    decreases |blocks|
  {
    if blocks != [] {
      var b, o := blocks[0], await(buf, arrivals);
      DistinctParts(Placed(b), AllPlaced(blocks[1..]));
      PollKeys(await, o.buf, o.arrivals, blocks[1..]);
      var data := PayloadOf(o.reply);
      if data.Ok? {
        BlockGivesIff(b, data.value, OwnOf(Registers(map[], map[], map[], map[])));
        IdsAppend(Placed(b), AllPlaced(blocks[1..]));
      }
    }
  }

  lemma IdsAppend(s: seq<Tag>, t: seq<Tag>)
    ensures Ids(s + t) == Ids(s) + Ids(t)
  {
    var all := s + t;
    assert forall i | 0 <= i < |s| :: all[i] == s[i];
    assert forall j | 0 <= j < |t| :: all[|s| + j] == t[j];
    forall id
      ensures id in Ids(all) <==> id in Ids(s) || id in Ids(t)
    {
      if id in Ids(all) {
        var k :| 0 <= k < |all| && all[k].id == id;
        assert if k < |s| then s[k].id == id else t[k - |s|].id == id;
      }
    }
  }

  /** A poll over bytes that begin with the server's replies gives all tags their own values iff all blocks deliver. */
  lemma {:induction false} PollGivesOwnIff(regs: Registers, txn: u16, unit: byte, blocks: seq<ReadBlock>,
                                           buf: seq<byte>, arrivals: seq<seq<byte>>, rest: seq<byte>)
    requires AllPlanned(blocks) && DistinctIds(AllPlaced(blocks))
    requires buf + Flatten(arrivals) == ReplyBytes(regs, txn, unit, blocks) + rest
    ensures GivesOwn(Poll(Await, buf, arrivals, blocks), AllPlaced(blocks), OwnOf(regs)) <==> AllDeliver(regs, blocks)
    decreases |blocks|
  {
    if blocks != [] {
      var b, o := blocks[0], Await(buf, arrivals);
      var head, tail := PollStep(b, PayloadOf(o.reply)), Poll(Await, o.buf, o.arrivals, blocks[1..]);
      PollTakes(regs, txn, unit, blocks, buf, arrivals, rest);
      DistinctParts(Placed(b), AllPlaced(blocks[1..]));
      HeadGivesOwnIff(regs, b, PayloadOf(o.reply));
      PollKeys(Await, o.buf, o.arrivals, blocks[1..]);
      if Delivers(regs, b) {
        PollGivesOwnIff(regs, Field(txn as int + 1), unit, blocks[1..], o.buf, o.arrivals, rest);
      }
      DeliverNext(regs, blocks);
      HeadAndTail(head, tail, Placed(b), AllPlaced(blocks[1..]), OwnOf(regs), Delivers(regs, b), AllDeliver(regs, blocks[1..]));
    }
  }

  lemma DeliverNext(regs: Registers, blocks: seq<ReadBlock>)
    requires blocks != [] && AllPlanned(blocks)
    ensures AllPlanned(blocks[1..])
    ensures AllDeliver(regs, blocks) <==> Delivers(regs, blocks[0]) && AllDeliver(regs, blocks[1..])
  {
    assert forall k | 0 < k < |blocks| :: blocks[k] == blocks[1..][k - 1];
  }

  /** A poll gives what its head and its tail give. */
  lemma HeadAndTail(head: PollResult, tail: PollResult, s: seq<Tag>, t: seq<Tag>, f: Tag -> Value, first: bool, others: bool)
    requires DistinctIds(s + t)
    requires (head.Values? ==> head.values.Keys <= Ids(s)) && (tail.Values? ==> tail.values.Keys <= Ids(t))
    requires GivesOwn(head, s, f) <==> first
    requires first ==> (GivesOwn(tail, t, f) <==> others)
    ensures GivesOwn(if head.Values? then Join(head.values, tail) else head, s + t, f) <==> first && others
  {
    if head.Values? {
      JoinGivesOwnIff(head.values, s, tail, t, f);
    }
  }

  // ----- a plan holds every tag -----

  /** How often a tag is placed. */
  ghost function Times(blocks: seq<ReadBlock>, t: Tag): nat {
    if blocks == [] then 0
    else Times(blocks[..|blocks| - 1], t) + multiset(Placed(blocks[|blocks| - 1]))[t]
  }

  lemma {:induction false} TimesIsCount(blocks: seq<ReadBlock>, t: Tag)
    ensures Times(blocks, t) == multiset(AllPlaced(blocks))[t]
    decreases |blocks|
  {
    if blocks != [] {
      var init, b := blocks[..|blocks| - 1], blocks[|blocks| - 1];
      TimesIsCount(init, t);
      AllPlacedAppend(init, b);
      assert blocks == init + [b];
    }
  }

  lemma TimesNext(blocks: seq<ReadBlock>, b: ReadBlock, t: Tag)
    ensures Times(blocks + [b], t) == Times(blocks, t) + multiset(Placed(b))[t]
  {
    assert (blocks + [b])[..|blocks|] == blocks;
  }

  /** A tag is placed only in blocks of its own space. */
  lemma {:induction false} TimesInSpace(blocks: seq<ReadBlock>, t: Tag)
    requires forall k | 0 <= k < |blocks| :: WellPlaced(blocks[k])
    ensures Times(blocks, t) == Times(BlocksIn(blocks, t.space), t)
    decreases |blocks|
  {
    if blocks != [] {
      var init, b := blocks[..|blocks| - 1], blocks[|blocks| - 1];
      TimesInSpace(init, t);
      if b.space == t.space {
        TimesNext(BlocksIn(init, t.space), b, t);
      } else {
        NotPlaced(b, t);
        assert BlocksIn(blocks, t.space) == BlocksIn(init, t.space);
      }
    }
  }

  lemma PlacedCount(blocks: seq<ReadBlock>, t: Tag)
    requires forall k | 0 <= k < |blocks| :: WellPlaced(blocks[k])
    ensures multiset(AllPlaced(blocks))[t] == multiset(AllPlaced(BlocksIn(blocks, t.space)))[t]
  {
    TimesIsCount(blocks, t);
    TimesIsCount(BlocksIn(blocks, t.space), t);
    TimesInSpace(blocks, t);
  }

  lemma NotPlaced(b: ReadBlock, t: Tag)
    requires WellPlaced(b) && b.space != t.space
    ensures multiset(Placed(b))[t] == 0
  {
    assert t !in Placed(b);
  }

  lemma {:induction false} AllPlacedAppend(blocks: seq<ReadBlock>, b: ReadBlock)
    ensures AllPlaced(blocks + [b]) == AllPlaced(blocks) + Placed(b)
  {
    if blocks == [] {
      assert blocks + [b] == [b];
      assert AllPlaced([b]) == Placed(b) + AllPlaced([]);
    } else {
      assert (blocks + [b])[1..] == blocks[1..] + [b];
      AllPlacedAppend(blocks[1..], b);
    }
  }

  /** The blocks are the planner's, for the tags of every space. */
  ghost predicate IsFullPlan(blocks: seq<ReadBlock>, tags: seq<Tag>) {
    forall sp :: IsPlan(BlocksIn(blocks, sp), TagsIn(tags, sp))
  }

  /** The block starts and ends on one of its tags. */
  ghost predicate Bounded(b: ReadBlock) {
    b.tags != [] && b.tags[0].offset == 0 && 0 < b.count && EndsOnTag(b)
  }

  lemma ExtendBounded(b: ReadBlock, t: Tag)
    requires Bounded(b)
    ensures Bounded(Extend(b, t))
  {
    var i :| 0 <= i < |b.tags| && b.tags[i].offset + Width(b.tags[i].tag) == b.count;
    var e := Extend(b, t);
    assert e.tags[i] == b.tags[i] && e.tags[|b.tags|] == TagInBlock(t, t.address - b.start);
  }

  lemma {:induction false} MergeBounded(b: ReadBlock, tags: seq<Tag>)
    requires Bounded(b)
    ensures forall k | 0 <= k < |Merge(b, tags)| :: Bounded(Merge(b, tags)[k])
    decreases |tags|
  {
    if tags != [] {
      if Joins(b, tags[0]) {
        ExtendBounded(b, tags[0]);
        MergeBounded(Extend(b, tags[0]), tags[1..]);
      } else {
        NewBlockBounded(tags[0]);
        MergeBounded(NewBlock(tags[0]), tags[1..]);
      }
    }
  }

  lemma NewBlockBounded(t: Tag)
    ensures Bounded(NewBlock(t))
  {
    assert NewBlock(t).tags[0].offset + Width(t) == NewBlock(t).count;
  }

  lemma SpacePlan(blocks: seq<ReadBlock>, tags: seq<Tag>, sp: Space)
    requires IsFullPlan(blocks, tags)
    ensures multiset(AllPlaced(BlocksIn(blocks, sp))) == multiset(TagsIn(tags, sp))
    ensures forall k | 0 <= k < |BlocksIn(blocks, sp)| :: WellPlaced(BlocksIn(blocks, sp)[k]) && Bounded(BlocksIn(blocks, sp)[k])
  {
    assert IsPlan(BlocksIn(blocks, sp), TagsIn(tags, sp));
    var sorted: seq<Tag> :| Ascending(sorted) && multiset(sorted) == multiset(TagsIn(tags, sp)) && BlocksIn(blocks, sp) == Plan(sorted);
    AllIn(tags, sp);
    forall i | 0 <= i < |sorted|
      ensures sorted[i].space == sp
    {
      assert sorted[i] in multiset(sorted);
    }
    PlanPlaces(sorted, sp);
    if sorted != [] {
      NewBlockBounded(sorted[0]);
      MergeBounded(NewBlock(sorted[0]), sorted[1..]);
    }
  }

  lemma {:induction false} InItsSpace(blocks: seq<ReadBlock>, k: nat) returns (j: nat)
    requires k < |blocks|
    ensures j < |BlocksIn(blocks, blocks[k].space)| && BlocksIn(blocks, blocks[k].space)[j] == blocks[k]
    decreases |blocks|
  {
    var init := blocks[..|blocks| - 1];
    if k == |blocks| - 1 {
      j := |BlocksIn(init, blocks[k].space)|;
    } else {
      j := InItsSpace(init, k);
    }
  }

  lemma PlanHoldsTags(blocks: seq<ReadBlock>, tags: seq<Tag>)
    requires IsFullPlan(blocks, tags)
    ensures forall k | 0 <= k < |blocks| :: WellPlaced(blocks[k]) && Bounded(blocks[k])
    ensures multiset(AllPlaced(blocks)) == multiset(tags)
  {
    forall k | 0 <= k < |blocks|
      ensures WellPlaced(blocks[k]) && Bounded(blocks[k])
    {
      SpacePlan(blocks, tags, blocks[k].space);
      var j := InItsSpace(blocks, k);
    }
    forall t: Tag
      ensures multiset(AllPlaced(blocks))[t] == multiset(tags)[t]
    {
      PlacedCount(blocks, t);
      SpacePlan(blocks, tags, t.space);
      TagsInCount(tags, t.space, t);
    }
  }

  /** What the planner makes. */
  lemma PlanIsPlanned(blocks: seq<ReadBlock>, tags: seq<Tag>)
    requires IsFullPlan(blocks, tags)
    ensures AllPlanned(blocks)
  {
    PlanHoldsTags(blocks, tags);
    assert forall k | 0 <= k < |blocks| :: WellPlaced(blocks[k]) ==> HasOffsets(blocks[k]);
  }

  lemma SameElements(s: seq<Tag>, t: seq<Tag>)
    requires multiset(s) == multiset(t)
    ensures forall u :: u in s <==> u in t
  {
    assert forall u :: u in s <==> u in multiset(s);
    assert forall u :: u in t <==> u in multiset(t);
  }

  // ----- tags keyed by their identifiers stay so -----

  lemma {:induction false} CountOnce(s: seq<Tag>, t: Tag)
    requires DistinctIds(s)
    ensures multiset(s)[t] <= 1
  {
    if s != [] {
      var init, last := s[..|s| - 1], s[|s| - 1];
      CountOnce(init, t);
      assert s == init + [last];
      if last == t {
        assert t !in init;
      }
    }
  }

  lemma CountTwice(s: seq<Tag>, i: nat, j: nat)
    requires i < j < |s| && s[i] == s[j]
    ensures multiset(s)[s[i]] >= 2
  {
    assert s == s[..j] + s[j..];
    assert s[i] in s[..j] && s[i] in s[j..];
  }

  lemma DistinctAgain(s: seq<Tag>, t: seq<Tag>)
    requires multiset(s) == multiset(t) && DistinctIds(s)
    ensures DistinctIds(t)
  {
    SameElements(s, t);
    forall i, j | 0 <= i < j < |t|
      ensures t[i].id != t[j].id
    {
      if t[i] == t[j] {
        CountTwice(t, i, j);
        CountOnce(s, t[i]);
        assert false;
      }
      assert t[i] in s && t[j] in s;
    }
  }

  // ----- what a poll comes to -----

  /** All the bytes a poll puts on the wire, in pieces, and all that come back, in pieces. */
  ghost predicate Polling(unitId: int, regs: Registers, txn: u16, unit: byte, blocks: seq<ReadBlock>,
                          up: seq<seq<byte>>, down: seq<seq<byte>>) {
    Addressed(unitId, unit) && Flatten(up) == Stream(Requests(txn, unit, blocks)) &&
    Flatten(down) == Flatten(ReceiveAll(Setup(unitId, None, HandlePdu), Conn([], regs, [], Open), up).sent)
  }

  lemma PollingReplies(unitId: int, regs: Registers, txn: u16, unit: byte, blocks: seq<ReadBlock>,
                       up: seq<seq<byte>>, down: seq<seq<byte>>)
    requires Polling(unitId, regs, txn, unit, blocks, up, down)
    ensures [] + Flatten(down) == ReplyBytes(regs, txn, unit, blocks) + []
  {
    StreamIsServed(Setup(unitId, None, HandlePdu), regs, Requests(txn, unit, blocks), up);
    ServePoll(unitId, Conn([], regs, [], Open), txn, unit, blocks);
    assert Flatten([]) + ReplyBytes(regs, txn, unit, blocks) == ReplyBytes(regs, txn, unit, blocks);
  }

  /**
  A poll of the planner's blocks over one connection, cut up in any way, gives every tag the value a read
  of its own addresses gives exactly when every block delivers.
  */
  lemma PollReadsOwnIff(unitId: int, regs: Registers, txn: u16, unit: byte, blocks: seq<ReadBlock>, tags: seq<Tag>,
                        up: seq<seq<byte>>, down: seq<seq<byte>>)
    requires IsFullPlan(blocks, tags) && DistinctIds(tags)
    requires Polling(unitId, regs, txn, unit, blocks, up, down)
    ensures AllPlanned(blocks)
    ensures GivesOwn(Poll(Await, [], down, blocks), tags, OwnOf(regs)) <==> AllDeliver(regs, blocks)
  {
    PlanIsPlanned(blocks, tags);
    PlanHoldsTags(blocks, tags);
    DistinctAgain(tags, AllPlaced(blocks));
    PollingReplies(unitId, regs, txn, unit, blocks, up, down);
    PollGivesOwnIff(regs, txn, unit, blocks, [], down, []);
    OwnOfEither(Poll(Await, [], down, blocks), AllPlaced(blocks), tags, OwnOf(regs));
  }

  lemma OwnOfEither(r: PollResult, s: seq<Tag>, t: seq<Tag>, f: Tag -> Value)
    requires multiset(s) == multiset(t)
    ensures GivesOwn(r, s, f) <==> GivesOwn(r, t, f)
  {
    SameElements(s, t);
    if r.Values? {
      forall i | 0 <= i < |s|
        ensures exists j :: 0 <= j < |t| && t[j] == s[i]
      {
        assert s[i] in t;
      }
      forall j | 0 <= j < |t|
        ensures exists i :: 0 <= i < |s| && s[i] == t[j]
      {
        assert t[j] in s;
      }
    }
  }

  // ----- the planner sets no limit on a block -----

  /** The request can name the block's start, and the byte count of the response the length of its content. */
  predicate Askable(b: ReadBlock) {
    0 <= b.start < 0x1_0000 && Fits(b.space, b.count)
  }

  ghost predicate AllAskable(blocks: seq<ReadBlock>) {
    forall k | 0 <= k < |blocks| :: Askable(blocks[k])
  }

  lemma AskableDelivers(regs: Registers, b: ReadBlock)
    requires Planned(b) && Askable(b)
    ensures Delivers(regs, b)
  {
    forall i | 0 <= i < |b.tags|
      ensures Sought(b, i) == b.tags[i].tag && (IsBits(b.space) ==> BitArrives(Low16(b.count), b.tags[i].offset))
    {
      assert b.tags[i].offset + Width(b.tags[i].tag) <= b.count;
    }
  }

  lemma UnfitLoses(b: ReadBlock) returns (regs: Registers)
    requires Planned(b) && !Fits(b.space, b.count)
    ensures !Delivers(regs, b)
  {
    var i :| 0 <= i < |b.tags| && b.tags[i].offset + Width(b.tags[i].tag) == b.count;
    var on := map[b.tags[i].tag.address := true];
    regs := Registers(on, on, map[], map[]);
    if IsBits(b.space) {
      assert b.tags[i].tag.space == b.space;
      LastBitCut(b.count);
    }
  }

  lemma LastBitCut(count: int)
    requires count > 2040
    ensures !BitArrives(Low16(count), count - 1)
  {
  }

  type bit = n: nat | n < 2

  function NumberBytes(t: Tag, n: bit): (r: seq<byte>)
    ensures |r| == 2 * RegisterCount(t.datatype_)
  {
    EncodeValue(Integer(n), Ieee(n, n), t.datatype_, t.order).value
  }

  /** Registers that hold 0 or 1 at a register tag's own address, and nothing elsewhere. */
  function RegistersWith(t: Tag, n: bit): Registers {
    var words := Overwrite(map[], t.address, BytesWords(NumberBytes(t, n)));
    Registers(map[], map[], words, words)
  }

  lemma OwnOfNumber(t: Tag, n: bit)
    requires !IsBits(t.space)
    ensures ReadsBackAs(Integer(n), Ieee(n, n), t.datatype_, Own(RegistersWith(t, n), t).value)
  {
    var data := NumberBytes(t, n);
    OwnOfWords(RegistersWith(t, n), t, data);
    assert data + [] == data;
    DecodeOfEncode(Integer(n), Ieee(n, n), t.datatype_, t.order, []);
  }

  lemma OwnOfWords(regs: Registers, t: Tag, data: seq<byte>)
    requires !IsBits(t.space) && |data| == 2 * RegisterCount(t.datatype_)
    requires WordSpace(regs, t.space) == Overwrite(map[], t.address, BytesWords(data))
    ensures Own(regs, t) == DecodeRegisters(data, t.datatype_, t.order)
  {
    OverwriteRead(map[], t.address, BytesWords(data));
    BytesOfWords(data);
    assert data[0..] == data;
  }

  /** What stands at other addresses does not depend on it. */
  lemma OwnElsewhere(t: Tag, n: bit, other: Tag)
    requires !IsBits(t.space) && other == t.(address := other.address)
    requires other.address + 4 <= t.address || t.address + 4 <= other.address
    ensures Own(RegistersWith(t, n), other) == Own(Registers(map[], map[], map[], map[]), other)
  {
    OverwriteElsewhere(map[], t.address, BytesWords(NumberBytes(t, n)), other.address, RegisterCount(t.datatype_));
  }

  lemma NumbersDiffer(t: DataType, a: Value, b: Value)
    requires ReadsBackAs(Integer(0), Ieee(0, 0), t, a) && ReadsBackAs(Integer(1), Ieee(1, 1), t, b)
    ensures a != b
  {
  }

  /** Two register tags far apart do not always hold the same. */
  lemma ApartDiffer(t: Tag, other: Tag) returns (regs: Registers)
    requires !IsBits(t.space) && other == t.(address := other.address)
    requires other.address + 4 <= t.address || t.address + 4 <= other.address
    ensures Own(regs, other) != Own(regs, t)
  {
    OwnOfNumber(t, 0);
    OwnOfNumber(t, 1);
    NumbersDiffer(t.datatype_, Own(RegistersWith(t, 0), t).value, Own(RegistersWith(t, 1), t).value);
    OwnElsewhere(t, 0, other);
    OwnElsewhere(t, 1, other);
    regs := RegistersWith(t, if Own(RegistersWith(t, 0), t) == Own(RegistersWith(t, 0), other) then 1 else 0);
  }

  /** A block's tag is sought far from where it is when the request cannot name the block's start. */
  lemma SoughtApart(b: ReadBlock, i: nat)
    requires Planned(b) && !(0 <= b.start < 0x1_0000) && i < |b.tags|
    ensures var t, other := b.tags[i].tag, Sought(b, i);
      t.space == b.space && other == t.(address := other.address) &&
      (other.address + 4 <= t.address || t.address + 4 <= other.address)
  {
    Low16Moves(b.start);
  }

  lemma MisplacedLoses(b: ReadBlock) returns (regs: Registers)
    requires Planned(b) && !(0 <= b.start < 0x1_0000)
    ensures !Delivers(regs, b)
  {
    var i :| 0 <= i < |b.tags| && b.tags[i].offset + Width(b.tags[i].tag) == b.count;
    SoughtApart(b, i);
    if IsBits(b.space) {
      regs := BitMisread(b, i);
    } else {
      regs := ApartDiffer(b.tags[i].tag, Sought(b, i));
    }
  }

  lemma BitMisread(b: ReadBlock, i: nat) returns (regs: Registers)
    requires IsBits(b.space) && HasOffsets(b) && i < |b.tags| && Sought(b, i).address != b.tags[i].tag.address
    ensures BitRead(regs, b, i) != BitAt(BitSpace(regs, b.space), b.tags[i].tag.address)
  {
    var on := map[b.tags[i].tag.address := true];
    regs := Registers(on, on, map[], map[]);
  }

  /** Every content of the registers reaches every tag exactly when every block can be asked for whole. */
  lemma AlwaysDeliversIff(blocks: seq<ReadBlock>)
    requires AllPlanned(blocks)
    ensures (forall regs: Registers :: AllDeliver(regs, blocks)) <==> AllAskable(blocks)
  {
    if AllAskable(blocks) {
      forall regs: Registers
        ensures AllDeliver(regs, blocks)
      {
        forall k | 0 <= k < |blocks|
          ensures Delivers(regs, blocks[k])
        {
          AskableDelivers(regs, blocks[k]);
        }
      }
    } else {
      var k :| 0 <= k < |blocks| && !Askable(blocks[k]);
      var regs;
      if Fits(blocks[k].space, blocks[k].count) {
        regs := MisplacedLoses(blocks[k]);
      } else {
        regs := UnfitLoses(blocks[k]);
      }
      assert !AllDeliver(regs, blocks);
    }
  }

  // ----- how a poll ends -----

  /** A register block longer than its byte count can say. */
  predicate Long(b: ReadBlock) {
    !IsBits(b.space) && b.count > 127
  }

  /** What a long block makes of a poll: its tags' slices pass the end of the data, if the reply can be read at all. */
  function LongResult(b: ReadBlock): PollResult {
    if Arrives(2 * Low16(b.count)) then PollResult.Panicked else Failed
  }

  lemma BlockEnds(regs: Registers, b: ReadBlock, data: Result<seq<byte>>)
    requires Planned(b) && Received(regs, b, data)
    ensures if Long(b) then PollStep(b, data) == LongResult(b)
            else PollStep(b, data).Values? && |ContentOf(regs, b)| + 3 < 0x1_0000
  {
    if !IsBits(b.space) {
      var i :| 0 <= i < |b.tags| && b.tags[i].offset + Width(b.tags[i].tag) == b.count;
      assert |ContentOf(regs, b)| == 2 * Low16(b.count) as int;
      if b.count <= 127 {
        assert forall j | 0 <= j < |b.tags| :: b.tags[j].offset + Width(b.tags[j].tag) <= b.count;
      } else {
        PastTheEnd(b.count, Width(b.tags[i].tag));
      }
    }
  }

  lemma PastTheEnd(count: int, width: nat)
    requires count > 127 && width <= 4
    ensures 2 * (count - width) > LowByte(2 * Low16(count) as int) as int
  {
  }

  /** The first of the blocks that is long. */
  ghost predicate FirstLong(blocks: seq<ReadBlock>, k: int) {
    0 <= k < |blocks| && Long(blocks[k]) && forall j | 0 <= j < k :: !Long(blocks[j])
  }

  /** The poll ends as its first long block makes it, and gives values when it has none. */
  ghost predicate EndsAtLong(r: PollResult, blocks: seq<ReadBlock>) {
    (forall k | FirstLong(blocks, k) :: r == LongResult(blocks[k])) &&
    (r.Values? <==> forall k | 0 <= k < |blocks| :: !Long(blocks[k]))
  }

  lemma {:induction false} PollBytesEnd(regs: Registers, txn: u16, unit: byte, blocks: seq<ReadBlock>,
                                        buf: seq<byte>, arrivals: seq<seq<byte>>, rest: seq<byte>)
    requires AllPlanned(blocks) && buf + Flatten(arrivals) == ReplyBytes(regs, txn, unit, blocks) + rest
    ensures EndsAtLong(Poll(Await, buf, arrivals, blocks), blocks)
    decreases |blocks|
  {
    if blocks != [] {
      var b, o := blocks[0], Await(buf, arrivals);
      PollTakes(regs, txn, unit, blocks, buf, arrivals, rest);
      BlockEnds(regs, b, PayloadOf(o.reply));
      if !Long(b) {
        PollBytesEnd(regs, Field(txn as int + 1), unit, blocks[1..], o.buf, o.arrivals, rest);
        EndsNext(Poll(Await, o.buf, o.arrivals, blocks[1..]), blocks);
      }
    }
  }

  lemma EndsNext(rest: PollResult, blocks: seq<ReadBlock>)
    requires blocks != [] && !Long(blocks[0]) && EndsAtLong(rest, blocks[1..])
    ensures forall m :: EndsAtLong(Join(m, rest), blocks)
  {
    forall k | FirstLong(blocks, k)
      ensures rest == LongResult(blocks[k])
    {
      assert FirstLong(blocks[1..], k - 1);
    }
    assert forall k | 0 < k < |blocks| :: blocks[k] == blocks[1..][k - 1];
    assert forall k | 0 <= k < |blocks[1..]| :: blocks[1..][k] == blocks[k + 1];
  }

  lemma {:induction false} SomeFirstLong(blocks: seq<ReadBlock>, k: nat) returns (j: nat)
    requires k < |blocks| && Long(blocks[k])
    ensures FirstLong(blocks, j)
    decreases k
  {
    j := k;
    if i :| 0 <= i < k && Long(blocks[i]) {
      j := SomeFirstLong(blocks, i);
    }
  }

  /**
  Whatever is in the registers, a poll of the planner's blocks over a connection cut up in any way panics
  exactly when the first register block of more than 127 is one whose reply can still be read, fails exactly
  when it is one whose reply cannot, and gives values exactly when there is none.
  */
  lemma PollPanicsIff(unitId: int, regs: Registers, txn: u16, unit: byte, blocks: seq<ReadBlock>, tags: seq<Tag>,
                      up: seq<seq<byte>>, down: seq<seq<byte>>)
    requires IsFullPlan(blocks, tags) && Polling(unitId, regs, txn, unit, blocks, up, down)
    ensures AllPlanned(blocks)
    ensures Poll(Await, [], down, blocks) == PollResult.Panicked <==>
            exists k :: FirstLong(blocks, k) && Arrives(2 * Low16(blocks[k].count))
    ensures Poll(Await, [], down, blocks) == Failed <==>
            exists k :: FirstLong(blocks, k) && !Arrives(2 * Low16(blocks[k].count))
  {
    PlanIsPlanned(blocks, tags);
    PollingReplies(unitId, regs, txn, unit, blocks, up, down);
    PollBytesEnd(regs, txn, unit, blocks, [], down, []);
    if k :| 0 <= k < |blocks| && Long(blocks[k]) {
      var j := SomeFirstLong(blocks, k);
      assert LongResult(blocks[j]) == Poll(Await, [], down, blocks);
    }
  }

  /** 32767 registers make a reply whose length field wraps, and the poll fails instead. */
  lemma LongestFails()
    ensures !Arrives(2 * 32767) && forall n: nat | n <= 32766 :: Arrives(2 * n)
  {
  }

  // ----- 128 neighbours are enough -----

  /** The i-th of a row of holding registers. */
  function Neighbour(i: nat): Tag {
    Tag(seq(i, _ => 'x'), i, Named(Holding), Uint16, ABCD, false)
  }

  function Row(n: nat): seq<Tag> {
    seq(n, i requires 0 <= i => Neighbour(i))
  }

  function RowBlock(n: nat): ReadBlock {
    ReadBlock(Holding, 0, n, seq(n, i requires 0 <= i => TagInBlock(Neighbour(i), i)))
  }

  lemma {:induction false} RowMerges(k: nat, n: nat)
    requires 1 <= k <= n
    ensures Merge(RowBlock(k), Row(n)[k..]) == [RowBlock(n)]
    decreases n - k
  {
    var rest := Row(n)[k..];
    if k < n {
      assert rest[0] == Neighbour(k) && rest[1..] == Row(n)[k + 1..];
      assert Extend(RowBlock(k), Neighbour(k)).tags == RowBlock(k + 1).tags;
      RowMerges(k + 1, n);
    }
  }

  lemma RowPlan(n: nat)
    requires n > 0
    ensures Plan(Row(n)) == [RowBlock(n)]
  {
    assert NewBlock(Neighbour(0)).tags == RowBlock(1).tags;
    RowMerges(1, n);
  }

  lemma {:induction false} AllTagsIn(tags: seq<Tag>, space: Space)
    requires forall i | 0 <= i < |tags| :: tags[i].space == space
    ensures TagsIn(tags, space) == tags
  {
    if tags != [] {
      AllTagsIn(tags[..|tags| - 1], space);
    }
  }

  /** Tags of one space in address order are planned by the plan of that space alone. */
  lemma OneSpacePlan(tags: seq<Tag>, space: Space)
    requires Ascending(tags) && forall i | 0 <= i < |tags| :: tags[i].space == space
    ensures IsFullPlan(Plan(tags), tags)
  {
    PlanPlaces(tags, space);
    var blocks := Plan(tags);
    forall sp
      ensures IsPlan(BlocksIn(blocks, sp), TagsIn(tags, sp))
    {
      AppendBlocks([], blocks, space, sp);
      assert [] + blocks == blocks;
      if sp == space {
        AllTagsIn(tags, sp);
      } else {
        NoTagsIn(tags, sp);
        assert Plan([]) == [] && Ascending([]);
      }
    }
  }

  lemma RowIsPlanned(n: nat)
    requires n > 0
    ensures IsFullPlan([RowBlock(n)], Row(n))
  {
    RowPlan(n);
    OneSpacePlan(Row(n), Holding);
  }

  /** Every poll of the blocks panics, whatever is in the registers and however the bytes are cut. */
  ghost predicate AlwaysPanics(blocks: seq<ReadBlock>) {
    AllPlanned(blocks) &&
    forall unitId, regs, txn, unit, up, down | Polling(unitId, regs, txn, unit, blocks, up, down) ::
      Poll(Await, [], down, blocks) == PollResult.Panicked
  }

  lemma LongBlockPanics(blocks: seq<ReadBlock>, tags: seq<Tag>)
    requires IsFullPlan(blocks, tags) && exists k :: FirstLong(blocks, k) && Arrives(2 * Low16(blocks[k].count))
    ensures AlwaysPanics(blocks)
  {
    PlanIsPlanned(blocks, tags);
    forall unitId, regs, txn, unit, up, down | Polling(unitId, regs, txn, unit, blocks, up, down)
      ensures Poll(Await, [], down, blocks) == PollResult.Panicked
    {
      PollPanicsIff(unitId, regs, txn, unit, blocks, tags, up, down);
    }
  }

  /** A device with 128 or more neighbouring registers to read is planned as one block, and its poll panics. */
  lemma NeighboursPanic(n: nat)
    requires 128 <= n <= 32766
    ensures IsFullPlan(Plan(Row(n)), Row(n)) && DistinctIds(Row(n)) && AlwaysPanics(Plan(Row(n)))
  {
    RowIsPlanned(n);
    RowPlan(n);
    var blocks := [RowBlock(n)];
    assert FirstLong(blocks, 0) && blocks[0].count == n;
    LongestFails();
    LongBlockPanics(blocks, Row(n));
    assert forall i | 0 <= i < n :: |Row(n)[i].id| == i;
  }
}
