/**
Building the read plan of a device and reading it: buildReadBlocks of internal/modbus/scanner.go
and readBlock of internal/modbus/client.go.
*/
module ModbusScan {
  import opened Common
  import opened Bytes
  import opened ModbusCodec
  import opened ModbusStore
  import opened ModbusServer
  import opened ModbusPlan

  // ----- building the plan -----

  function TagsIn(tags: seq<Tag>, space: Space): seq<Tag> {
    if tags == [] then []
    else TagsIn(tags[..|tags| - 1], space) + if tags[|tags| - 1].space == space then [tags[|tags| - 1]] else []
  }

  function BlocksIn(blocks: seq<ReadBlock>, space: Space): seq<ReadBlock> {
    if blocks == [] then []
    else BlocksIn(blocks[..|blocks| - 1], space) + if blocks[|blocks| - 1].space == space then [blocks[|blocks| - 1]] else []
  }

  /** The blocks are a plan of the tags, taken in some address order. */
  ghost predicate IsPlan(blocks: seq<ReadBlock>, tags: seq<Tag>) {
    exists sorted :: Ascending(sorted) && multiset(sorted) == multiset(tags) && blocks == Plan(sorted)
  }

  /** Any address order will do: ties may come out either way. */
  method SortByAddress(tags: seq<Tag>) returns (sorted: seq<Tag>)
    ensures Ascending(sorted) && multiset(sorted) == multiset(tags)
  {
    sorted := [];
    for i := 0 to |tags|
      invariant Ascending(sorted) && multiset(sorted) == multiset(tags[..i])
    {
      sorted := Insert(sorted, tags[i]);
      assert tags[..i + 1] == tags[..i] + [tags[i]];
    }
    assert tags[..|tags|] == tags;
  }

  method Insert(sorted: seq<Tag>, t: Tag) returns (r: seq<Tag>)
    requires Ascending(sorted)
    ensures Ascending(r) && multiset(r) == multiset(sorted) + multiset{t}
  {
    var k := FindPlace(sorted, t);
    r := sorted[..k] + [t] + sorted[k..];
    SplitAt(sorted, k);
    InsertCounts(sorted[..k], t, sorted[k..]);
    InsertAscending(sorted[..k], t, sorted[k..]);
  }

  method FindPlace(sorted: seq<Tag>, t: Tag) returns (k: nat)
    ensures k <= |sorted| && (k > 0 ==> sorted[k - 1].address <= t.address)
    ensures forall i | k <= i < |sorted| :: t.address < sorted[i].address
  {
    k := |sorted|;
    while k > 0 && sorted[k - 1].address > t.address
      invariant 0 <= k <= |sorted| && forall i | k <= i < |sorted| :: t.address < sorted[i].address
    {
      k := k - 1;
    }
  }

  lemma SplitAt(s: seq<Tag>, k: nat)
    requires k <= |s|
    ensures s == s[..k] + s[k..]
  {
  }

  lemma InsertCounts(a: seq<Tag>, t: Tag, b: seq<Tag>)
    ensures multiset(a + [t] + b) == multiset(a + b) + multiset{t}
  {
  }

  lemma InsertAscending(a: seq<Tag>, t: Tag, b: seq<Tag>)
    requires Ascending(a + b)
    requires a != [] ==> a[|a| - 1].address <= t.address
    requires forall i | 0 <= i < |b| :: t.address <= b[i].address
    ensures Ascending(a + [t] + b)
  {
    var s, r := a + b, a + [t] + b;
    forall i, j | 0 <= i < j < |r|
      ensures r[i].address <= r[j].address
    {
      if i < |a| {
        assert s[|a| - 1] == a[|a| - 1] && r[i] == s[i] && s[i].address <= t.address;
      }
      assert i > |a| ==> r[i] == s[i - 1];
      assert j > |a| ==> r[j] == s[j - 1] && t.address <= r[j].address;
      assert j < |a| ==> r[j] == s[j];
    }
  }

  method MergeTags(tags: seq<Tag>) returns (blocks: seq<ReadBlock>)
    ensures blocks == Plan(tags)
  {
    blocks := [];
    var current: Option<ReadBlock> := None;
    for i := 0 to |tags|
      invariant current.None? <==> i == 0
      invariant current.None? ==> blocks == []
      invariant current.Some? ==> blocks + Merge(current.value, tags[i..]) == Plan(tags)
    {
      var e := tags[i];
      assert tags[i..][1..] == tags[i + 1..];
      if current.None? {
        current := Some(NewBlock(e));
      } else {
        var c := current.value;
        var gap := e.address - (c.start + c.count);
        if gap <= MAX_GAP {
          current := Some(Extend(c, e));
        } else {
          assert blocks + ([c] + Merge(NewBlock(e), tags[i + 1..])) == blocks + [c] + Merge(NewBlock(e), tags[i + 1..]);
          blocks := blocks + [c];
          current := Some(NewBlock(e));
        }
      }
    }
    if current.Some? {
      assert tags[|tags|..] == [];
      blocks := blocks + [current.value];
    }
  }

  function Group(groups: map<Space, seq<Tag>>, space: Space): seq<Tag> {
    if space in groups then groups[space] else []
  }

  method GroupBySpace(tags: seq<Tag>) returns (groups: map<Space, seq<Tag>>)
    ensures forall sp :: Group(groups, sp) == TagsIn(tags, sp)
  {
    groups := map[];
    for i := 0 to |tags|
      invariant forall sp :: Group(groups, sp) == TagsIn(tags[..i], sp)
    {
      var t := tags[i];
      assert tags[..i + 1][..i] == tags[..i];
      groups := groups[t.space := Group(groups, t.space) + [t]];
    }
    assert tags[..|tags|] == tags;
  }

  /**
  `tags` is the order in which the tag map is walked and `order` the order in which the groups are;
  both are up to the language's map iteration.
  */
  method BuildReadBlocks(tags: seq<Tag>, order: seq<Space>) returns (blocks: seq<ReadBlock>)
    requires forall j, k | 0 <= j < k < |order| :: order[j] != order[k]
    requires forall t | t in tags :: t.space in order
    ensures forall sp :: IsPlan(BlocksIn(blocks, sp), TagsIn(tags, sp))
  {
    var groups := GroupBySpace(tags);
    blocks := [];
    for k := 0 to |order|
      invariant Done(blocks, tags, order[..k])
    {
      var space := order[k];
      var sorted := SortByAddress(Group(groups, space));
      var merged := MergeTags(sorted);
      assert order[..k + 1] == order[..k] + [space] && space !in order[..k];
      DoneNext(blocks, merged, sorted, space, tags, order[..k]);
      blocks := blocks + merged;
    }
    assert order[..|order|] == order;
    AllDone(blocks, tags, order);
  }

  /** A space seen is planned, another has no block. */
  ghost predicate DoneIn(blocks: seq<ReadBlock>, tags: seq<Tag>, seen: bool, sp: Space) {
    if seen then IsPlan(BlocksIn(blocks, sp), TagsIn(tags, sp)) else BlocksIn(blocks, sp) == []
  }

  ghost predicate Done(blocks: seq<ReadBlock>, tags: seq<Tag>, spaces: seq<Space>) {
    forall sp :: DoneIn(blocks, tags, sp in spaces, sp)
  }

  lemma DoneNext(blocks: seq<ReadBlock>, merged: seq<ReadBlock>, sorted: seq<Tag>, space: Space,
                 tags: seq<Tag>, spaces: seq<Space>)
    requires Ascending(sorted) && multiset(sorted) == multiset(TagsIn(tags, space)) && merged == Plan(sorted)
    requires Done(blocks, tags, spaces) && space !in spaces
    ensures Done(blocks + merged, tags, spaces + [space])
  {
    AllOfSpace(merged, sorted, space, tags);
    assert IsPlan(merged, TagsIn(tags, space));
    forall sp
      ensures DoneIn(blocks + merged, tags, sp in spaces + [space], sp)
    {
      assert DoneIn(blocks, tags, sp in spaces, sp);
      DoneInNext(blocks, merged, space, tags, sp in spaces, sp);
    }
  }

  lemma DoneInNext(blocks: seq<ReadBlock>, merged: seq<ReadBlock>, space: Space, tags: seq<Tag>, seen: bool, sp: Space)
    requires IsPlan(merged, TagsIn(tags, space)) && forall k | 0 <= k < |merged| :: merged[k].space == space
    requires DoneIn(blocks, tags, seen, sp) && (sp == space ==> !seen)
    ensures DoneIn(blocks + merged, tags, seen || sp == space, sp)
  {
    AppendBlocks(blocks, merged, space, sp);
    assert [] + merged == merged && BlocksIn(blocks, sp) + [] == BlocksIn(blocks, sp);
  }

  lemma AllDone(blocks: seq<ReadBlock>, tags: seq<Tag>, order: seq<Space>)
    requires Done(blocks, tags, order) && forall t | t in tags :: t.space in order
    ensures forall sp :: IsPlan(BlocksIn(blocks, sp), TagsIn(tags, sp))
  {
    forall sp
      ensures IsPlan(BlocksIn(blocks, sp), TagsIn(tags, sp))
    {
      assert DoneIn(blocks, tags, sp in order, sp);
      if sp !in order {
        NoTagsIn(tags, sp);
        assert Plan([]) == [];
      }
    }
  }

  lemma AllOfSpace(merged: seq<ReadBlock>, sorted: seq<Tag>, space: Space, tags: seq<Tag>)
    requires Ascending(sorted) && multiset(sorted) == multiset(TagsIn(tags, space)) && merged == Plan(sorted)
    ensures forall k | 0 <= k < |merged| :: merged[k].space == space
  {
    AllIn(tags, space);
    forall i | 0 <= i < |sorted|
      ensures sorted[i].space == space
    {
      assert sorted[i] in multiset(sorted);
    }
    PlanPlaces(sorted, space);
  }

  lemma {:induction false} AppendBlocks(blocks: seq<ReadBlock>, more: seq<ReadBlock>, space: Space, sp: Space)
    requires forall k | 0 <= k < |more| :: more[k].space == space
    ensures BlocksIn(blocks + more, sp) == BlocksIn(blocks, sp) + if sp == space then more else []
    decreases |more|
  {
    if more == [] {
      assert blocks + more == blocks;
    } else {
      var init := more[..|more| - 1];
      assert (blocks + more)[..|blocks + more| - 1] == blocks + init;
      AppendBlocks(blocks, init, space, sp);
    }
  }

  lemma {:induction false} AllIn(tags: seq<Tag>, space: Space)
    ensures forall t | t in TagsIn(tags, space) :: t.space == space
  {
    if tags != [] {
      AllIn(tags[..|tags| - 1], space);
    }
  }

  lemma {:induction false} NoTagsIn(tags: seq<Tag>, space: Space)
    requires forall t | t in tags :: t.space != space
    ensures TagsIn(tags, space) == []
  {
    if tags != [] {
      assert tags[|tags| - 1] in tags;
      NoTagsIn(tags[..|tags| - 1], space);
    }
  }

  lemma {:induction false} TagsInCount(tags: seq<Tag>, space: Space, t: Tag)
    ensures multiset(TagsIn(tags, space))[t] == if t.space == space then multiset(tags)[t] else 0
  {
    if tags != [] {
      var init, last := tags[..|tags| - 1], tags[|tags| - 1];
      TagsInCount(init, space, t);
      assert tags == init + [last];
      CountAppend(init, last, t);
      CountAppend(TagsIn(init, space), last, t);
      assert TagsIn(init, space) + [] == TagsIn(init, space);
    }
  }

  lemma CountAppend(tags: seq<Tag>, last: Tag, t: Tag)
    ensures multiset(tags + [last])[t] == multiset(tags)[t] + if last == t then 1 else 0
  {
  }

  lemma SameTagsIn(a: seq<Tag>, b: seq<Tag>, sp: Space)
    requires multiset(a) == multiset(b)
    ensures multiset(TagsIn(a, sp)) == multiset(TagsIn(b, sp))
  {
    forall t: Tag
      ensures multiset(TagsIn(a, sp))[t] == multiset(TagsIn(b, sp))[t]
    {
      TagsInCount(a, sp, t);
      TagsInCount(b, sp, t);
    }
  }

  /** However the maps are walked and ties are broken, the plan reads the same ranges of every space. */
  lemma PlanIsCanonical(a: seq<Tag>, b: seq<Tag>, blocksA: seq<ReadBlock>, blocksB: seq<ReadBlock>, sp: Space)
    requires multiset(a) == multiset(b)
    requires IsPlan(BlocksIn(blocksA, sp), TagsIn(a, sp)) && IsPlan(BlocksIn(blocksB, sp), TagsIn(b, sp))
    ensures Intervals(BlocksIn(blocksA, sp)) == Intervals(BlocksIn(blocksB, sp))
  {
    SameTagsIn(a, b, sp);
    var s :| Ascending(s) && multiset(s) == multiset(TagsIn(a, sp)) && BlocksIn(blocksA, sp) == Plan(s);
    var t :| Ascending(t) && multiset(t) == multiset(TagsIn(b, sp)) && BlocksIn(blocksB, sp) == Plan(t);
    PlanOrderIrrelevant(s, t);
  }

  // ----- reading a block gives each tag its own value -----

  predicate IsBits(space: Space) {
    space == Coil || space == Discrete
  }

  function BitSpace(r: Registers, space: Space): map<int, bool> {
    if space == Discrete then r.discretes else r.coils
  }

  function WordSpace(r: Registers, space: Space): map<int, Word> {
    if space == Input then r.input else r.holding
  }

  /** The data bytes of a faithful response to a read of [start, start + count). */
  function Content(r: Registers, space: Space, start: int, count: nat): seq<byte> {
    if IsBits(space) then PackBits(BitsAt(BitSpace(r, space), start, count))
    else WordBytes(WordsAt(WordSpace(r, space), start, count))
  }

  /** The value readBlock takes out of a block's data for one of its tags. */
  function Extracted(space: Space, data: seq<byte>, p: TagInBlock): Result<Value>
    requires 0 <= p.offset && (!IsBits(space) ==> 2 * p.offset <= |data|)
  {
    if IsBits(space) then Ok(Bool(DecodeBoolFromCoils(data, p.offset)))
    else DecodeRegisters(data[2 * p.offset..], p.tag.datatype_, p.tag.order)
  }

  /** The value a read of the tag's own addresses gives. */
  function Own(r: Registers, t: Tag): (v: Result<Value>)
    ensures v.Ok?
  {
    Extracted(t.space, Content(r, t.space, t.address, Width(t)), TagInBlock(t, 0))
  }

  lemma ContentSlice(m: map<int, Word>, start: int, count: nat, offset: nat, n: nat)
    requires offset + n <= count
    ensures WordBytes(WordsAt(m, start, count))[2 * offset..][..2 * n] == WordBytes(WordsAt(m, start + offset, n))
  {
    WordBytesSlice(WordsAt(m, start, count), offset, n);
    assert WordsAt(m, start, count)[offset..][..n] == WordsAt(m, start + offset, n);
  }

  /** A tag decoded out of a block is the tag decoded on its own. */
  lemma ExtractedIsOwn(r: Registers, b: ReadBlock, i: nat)
    requires WellPlaced(b) && i < |b.tags| && 0 <= b.count
    ensures var p := b.tags[i];
      0 <= p.offset <= b.count && Extracted(b.space, Content(r, b.space, b.start, b.count), p) == Own(r, p.tag)
  {
    var p := b.tags[i];
    if IsBits(b.space) {
      PackedBitOfPack(BitsAt(BitSpace(r, b.space), b.start, b.count), p.offset);
      PackedBitOfPack(BitsAt(BitSpace(r, b.space), p.tag.address, 1), 0);
    } else {
      ContentSlice(WordSpace(r, b.space), b.start, b.count, p.offset, Width(p.tag));
      ContentSlice(WordSpace(r, b.space), p.tag.address, Width(p.tag), 0, Width(p.tag));
    }
  }

  ghost predicate HasOffsets(b: ReadBlock) {
    forall i | 0 <= i < |b.tags| :: 0 <= b.tags[i].offset
  }

  /** The data reaches to where every register tag starts. */
  predicate Sliceable(b: ReadBlock, data: seq<byte>) {
    IsBits(b.space) || forall i | 0 <= i < |b.tags| :: 2 * b.tags[i].offset <= |data|
  }

  ghost function AllExtracted(b: ReadBlock, data: seq<byte>): (r: seq<Result<Value>>)
    requires HasOffsets(b) && Sliceable(b, data)
    ensures |r| == |b.tags| && forall i | 0 <= i < |r| :: r[i] == Extracted(b.space, data, b.tags[i])
  {
    seq(|b.tags|, i requires 0 <= i < |b.tags| => Extracted(b.space, data, b.tags[i]))
  }

  /** The first n values under their tags' names; a tag that did not decode is left out. */
  function Gathered(tags: seq<TagInBlock>, values: seq<Result<Value>>, n: nat): map<string, Value>
    requires n <= |tags| == |values|
  {
    if n == 0 then map[]
    else if values[n - 1].Ok? then Gathered(tags, values, n - 1)[tags[n - 1].tag.id := values[n - 1].value]
    else Gathered(tags, values, n - 1)
  }

  /** What reading one block, or a whole poll, comes to. */
  datatype PollResult = Values(values: map<string, Value>) | Failed | Panicked

  /** What readBlock makes of a block's data: slicing past its end panics. */
  ghost function BlockValues(b: ReadBlock, data: seq<byte>): PollResult
    requires HasOffsets(b)
  {
    if Sliceable(b, data) then Values(Gathered(b.tags, AllExtracted(b, data), |b.tags|)) else Panicked
  }

  /** readBlock, once the data has come in. */
  method ReadBlockValues(b: ReadBlock, data: seq<byte>) returns (r: PollResult)
    requires HasOffsets(b)
    ensures r == BlockValues(b, data)
  {
    var results: map<string, Value> := map[];
    for i := 0 to |b.tags|
      invariant !IsBits(b.space) ==> forall k | 0 <= k < i :: 2 * b.tags[k].offset <= |data|
      invariant Sliceable(b, data) ==> results == Gathered(b.tags, AllExtracted(b, data), i)
    {
      var p := b.tags[i];
      if !IsBits(b.space) && 2 * p.offset > |data| {
        return Panicked;
      }
      var v := Extracted(b.space, data, p);
      if v.Ok? {
        results := results[p.tag.id := v.value];
      }
    }
    return Values(results);
  }
}
