/** The read planner of internal/modbus/scanner.go: tags of one space merged into blocks to read. */
module ModbusPlan {
  import opened ModbusStore

  /** The largest run of unneeded registers a block may span. */
  const MAX_GAP: int := 10

  datatype TagInBlock = TagInBlock(tag: Tag, offset: int)

  datatype ReadBlock = ReadBlock(space: Space, start: int, count: int, tags: seq<TagInBlock>)

  function NewBlock(t: Tag): ReadBlock {
    ReadBlock(t.space, t.address, Width(t), [TagInBlock(t, 0)])
  }

  function Extend(b: ReadBlock, t: Tag): ReadBlock {
    var newEnd := t.address + Width(t);
    b.(count := if newEnd - b.start > b.count then newEnd - b.start else b.count,
       tags := b.tags + [TagInBlock(t, t.address - b.start)])
  }

  predicate Joins(b: ReadBlock, t: Tag) {
    t.address - (b.start + b.count) <= MAX_GAP
  }

  function Merge(b: ReadBlock, tags: seq<Tag>): (r: seq<ReadBlock>)
    ensures r != [] && r[0].start == b.start
    decreases |tags|
  {
    if tags == [] then [b]
    else if Joins(b, tags[0]) then Merge(Extend(b, tags[0]), tags[1..])
    else [b] + Merge(NewBlock(tags[0]), tags[1..])
  }

  /** The blocks for tags of one space in address order. */
  function Plan(tags: seq<Tag>): seq<ReadBlock> {
    if tags == [] then [] else Merge(NewBlock(tags[0]), tags[1..])
  }

  ghost predicate Ascending(tags: seq<Tag>) {
    forall i, j | 0 <= i < j < |tags| :: tags[i].address <= tags[j].address
  }

  // ----- every tag has its place in exactly one block -----

  function Placed(b: ReadBlock): seq<Tag> {
    seq(|b.tags|, i requires 0 <= i < |b.tags| => b.tags[i].tag)
  }

  /** The tags of all blocks, one after another. */
  function AllPlaced(blocks: seq<ReadBlock>): seq<Tag> {
    if blocks == [] then [] else Placed(blocks[0]) + AllPlaced(blocks[1..])
  }

  /** Every tag of the block is where its offset says, within the block. */
  ghost predicate WellPlaced(b: ReadBlock) {
    forall i | 0 <= i < |b.tags| ::
      var p := b.tags[i];
      p.tag.space == b.space && 0 <= p.offset && b.start + p.offset == p.tag.address &&
      p.offset + Width(p.tag) <= b.count
  }

  lemma ExtendPlaces(b: ReadBlock, t: Tag)
    requires WellPlaced(b) && t.space == b.space && b.start <= t.address
    ensures WellPlaced(Extend(b, t)) && Placed(Extend(b, t)) == Placed(b) + [t]
  {
  }

  lemma {:induction false} MergePlaces(b: ReadBlock, tags: seq<Tag>)
    requires WellPlaced(b)
    requires forall i | 0 <= i < |tags| :: tags[i].space == b.space && b.start <= tags[i].address
    requires Ascending(tags)
    ensures forall k | 0 <= k < |Merge(b, tags)| :: WellPlaced(Merge(b, tags)[k]) && Merge(b, tags)[k].space == b.space
    decreases |tags|
  {
    if tags != [] {
      var t, rest := tags[0], tags[1..];
      if Joins(b, t) {
        ExtendPlaces(b, t);
        MergePlaces(Extend(b, t), rest);
      } else {
        MergePlaces(NewBlock(t), rest);
      }
    }
  }

  lemma {:induction false} MergePlacesAll(b: ReadBlock, tags: seq<Tag>)
    ensures AllPlaced(Merge(b, tags)) == Placed(b) + tags
    decreases |tags|
  {
    if tags == [] {
      assert AllPlaced([b]) == Placed(b) + AllPlaced([]);
    } else {
      var t, rest := tags[0], tags[1..];
      if Joins(b, t) {
        MergePlacesAll(Extend(b, t), rest);
        assert Placed(Extend(b, t)) == Placed(b) + [t];
        assert Placed(b) + [t] + rest == Placed(b) + tags;
      } else {
        MergePlacesAll(NewBlock(t), rest);
        assert Placed(NewBlock(t)) == [t];
        assert AllPlaced(Merge(b, tags)) == Placed(b) + AllPlaced(Merge(NewBlock(t), rest));
        assert Placed(b) + ([t] + rest) == Placed(b) + tags;
      }
    }
  }

  /** Every tag lies in one block, once, at its own address. */
  lemma PlanPlaces(tags: seq<Tag>, space: Space)
    requires Ascending(tags) && forall i | 0 <= i < |tags| :: tags[i].space == space
    ensures AllPlaced(Plan(tags)) == tags
    ensures forall k | 0 <= k < |Plan(tags)| :: WellPlaced(Plan(tags)[k]) && Plan(tags)[k].space == space
  {
    if tags != [] {
      MergePlaces(NewBlock(tags[0]), tags[1..]);
      MergePlacesAll(NewBlock(tags[0]), tags[1..]);
      assert Placed(NewBlock(tags[0])) == [tags[0]];
    }
  }

  // ----- the blocks are determined by the addresses in use -----

  function Span(start: int, count: nat): (r: set<int>)
    ensures forall x :: x in r <==> start <= x < start + count
  {
    if count == 0 then {} else {start + count - 1} + Span(start, count - 1)
  }

  function Range(t: Tag): set<int> {
    Span(t.address, Width(t))
  }

  /** The addresses some tag occupies. */
  function Cells(tags: seq<Tag>): set<int> {
    if tags == [] then {} else Range(tags[0]) + Cells(tags[1..])
  }

  datatype Interval = Interval(start: int, count: int) {
    function End(): int {
      start + count
    }
  }

  function Intervals(blocks: seq<ReadBlock>): seq<Interval> {
    if blocks == [] then [] else [Interval(blocks[0].start, blocks[0].count)] + Intervals(blocks[1..])
  }

  predicate Within(x: int, v: Interval) {
    v.start <= x < v.End()
  }

  /** One of the MAX_GAP + 1 addresses from x on is in use. */
  ghost predicate Touched(x: int, cells: set<int>) {
    exists y :: x <= y <= x + MAX_GAP && y in cells
  }

  /** The interval starts and ends in use and spans no unused run longer than the gap. */
  ghost predicate Tight(v: Interval, cells: set<int>) {
    0 < v.count && v.start in cells && v.End() - 1 in cells &&
    forall x | v.start <= x && x + MAX_GAP < v.End() :: Touched(x, cells)
  }

  /** All cells are in the interval or more than the gap beyond its end. */
  ghost predicate Leads(v: Interval, cells: set<int>) {
    forall x | x in cells :: v.start <= x && (x < v.End() || v.End() + MAX_GAP < x)
  }

  ghost function Above(cells: set<int>, end: int): set<int> {
    set x | x in cells && x >= end
  }

  /** The intervals are tight, each leads the cells left over from those before it, and none are left at the end. */
  ghost predicate Canonical(vs: seq<Interval>, cells: set<int>) {
    if vs == [] then cells == {}
    else Tight(vs[0], cells) && Leads(vs[0], cells) && Canonical(vs[1..], Above(cells, vs[0].End()))
  }

  lemma TightExtend(b: ReadBlock, t: Tag, cells: set<int>)
    requires Tight(Interval(b.start, b.count), cells) && b.start <= t.address && Joins(b, t)
    ensures Tight(Interval(b.start, Extend(b, t).count), cells + Range(t))
  {
    var v, w := Interval(b.start, b.count), Interval(b.start, Extend(b, t).count);
    forall x | w.start <= x && x + MAX_GAP < w.End()
      ensures Touched(x, cells + Range(t))
    {
      if x + MAX_GAP < v.End() {
        assert Touched(x, cells);
      } else if x + MAX_GAP >= t.address {
        assert x + MAX_GAP in Range(t);
      } else {
        assert v.End() - 1 in cells;
      }
    }
  }

  lemma TightMore(v: Interval, cells: set<int>, more: set<int>)
    requires Tight(v, cells) && cells <= more
    ensures Tight(v, more)
  {
    forall x | v.start <= x && x + MAX_GAP < v.End()
      ensures Touched(x, more)
    {
      assert Touched(x, cells);
    }
  }

  lemma {:induction false} CellsFrom(tags: seq<Tag>, lo: int)
    requires forall i | 0 <= i < |tags| :: lo <= tags[i].address
    ensures forall x | x in Cells(tags) :: lo <= x
  {
    if tags != [] {
      CellsFrom(tags[1..], lo);
    }
  }

  lemma CanonicalCons(v: Interval, cells: set<int>, vs: seq<Interval>, rest: set<int>)
    requires Tight(v, cells) && forall x | x in cells :: Within(x, v)
    requires Canonical(vs, rest) && forall x | x in rest :: v.End() + MAX_GAP < x
    ensures Canonical([v] + vs, cells + rest)
  {
    TightMore(v, cells, cells + rest);
    assert ([v] + vs)[1..] == vs;
    assert Above(cells + rest, v.End()) == rest;
  }

  lemma {:induction false} MergeCanonical(b: ReadBlock, tags: seq<Tag>, cells: set<int>)
    requires Tight(Interval(b.start, b.count), cells) && forall x | x in cells :: Within(x, Interval(b.start, b.count))
    requires Ascending(tags) && forall i | 0 <= i < |tags| :: b.start <= tags[i].address
    ensures Canonical(Intervals(Merge(b, tags)), cells + Cells(tags))
    decreases |tags|
  {
    var v := Interval(b.start, b.count);
    if tags == [] {
      CanonicalCons(v, cells, [], {});
      assert Intervals([b]) == [v] + [] && cells + {} == cells;
    } else {
      var t, rest := tags[0], tags[1..];
      if Joins(b, t) {
        TightExtend(b, t, cells);
        MergeCanonical(Extend(b, t), rest, cells + Range(t));
        assert cells + Range(t) + Cells(rest) == cells + Cells(tags);
      } else {
        NewBlockTight(t);
        MergeCanonical(NewBlock(t), rest, Range(t));
        CellsFrom(tags, t.address);
        CanonicalCons(v, cells, Intervals(Merge(NewBlock(t), rest)), Cells(tags));
      }
    }
  }

  lemma NewBlockTight(t: Tag)
    ensures Tight(Interval(t.address, Width(t)), Range(t))
  {
  }

  /** The planner's blocks are canonical for the addresses in use. */
  lemma PlanCanonical(tags: seq<Tag>)
    requires Ascending(tags)
    ensures Canonical(Intervals(Plan(tags)), Cells(tags))
  {
    if tags != [] {
      NewBlockTight(tags[0]);
      MergeCanonical(NewBlock(tags[0]), tags[1..], Range(tags[0]));
    }
  }

  // ----- what a canonical plan is, and that there is only one -----

  lemma {:induction false} CanonicalFrom(vs: seq<Interval>, cells: set<int>, lo: int, k: nat)
    requires Canonical(vs, cells) && (forall x | x in cells :: lo <= x) && k < |vs|
    ensures lo <= vs[k].start && Tight(vs[k], cells)
    decreases |vs|
  {
    if k > 0 {
      CanonicalFrom(vs[1..], Above(cells, vs[0].End()), lo, k - 1);
      TightMore(vs[k], Above(cells, vs[0].End()), cells);
    }
  }

  /** Any two blocks are more than the gap apart. */
  lemma {:induction false} CanonicalApart(vs: seq<Interval>, cells: set<int>, j: nat, k: nat)
    requires Canonical(vs, cells) && j < k < |vs|
    ensures vs[j].End() + MAX_GAP < vs[k].start
    decreases |vs|
  {
    if j == 0 {
      CanonicalFrom(vs[1..], Above(cells, vs[0].End()), vs[0].End() + MAX_GAP + 1, k - 1);
    } else {
      CanonicalApart(vs[1..], Above(cells, vs[0].End()), j - 1, k - 1);
    }
  }

  lemma SameStart(v: Interval, w: Interval, cells: set<int>)
    requires Tight(v, cells) && Leads(v, cells) && Tight(w, cells) && Leads(w, cells)
    ensures v.start == w.start
  {
  }

  lemma SameEnd(v: Interval, w: Interval, cells: set<int>)
    requires Tight(v, cells) && Leads(v, cells) && Tight(w, cells) && Leads(w, cells)
    ensures v.End() <= w.End()
  {
    SameStart(v, w, cells);
    GapAfter(w, cells);
  }

  lemma GapAfter(w: Interval, cells: set<int>)
    requires Leads(w, cells)
    ensures !Touched(w.End(), cells)
  {
  }

  /** Two canonical plans for the same addresses are the same. */
  lemma {:induction false} CanonicalUnique(vs: seq<Interval>, ws: seq<Interval>, cells: set<int>)
    requires Canonical(vs, cells) && Canonical(ws, cells)
    ensures vs == ws
    decreases |vs|
  {
    if vs != [] && ws != [] {
      SameStart(vs[0], ws[0], cells);
      SameEnd(vs[0], ws[0], cells);
      SameEnd(ws[0], vs[0], cells);
      CanonicalUnique(vs[1..], ws[1..], Above(cells, vs[0].End()));
      assert vs == [vs[0]] + vs[1..] && ws == [ws[0]] + ws[1..];
    }
  }

  lemma {:induction false} InCells(tags: seq<Tag>, x: int)
    ensures x in Cells(tags) <==> exists t :: t in tags && x in Range(t)
  {
    if tags != [] {
      InCells(tags[1..], x);
      assert tags == [tags[0]] + tags[1..];
    }
  }

  /** The start and length of every block depend on the tags alone, not on the order they came in. */
  lemma PlanOrderIrrelevant(s: seq<Tag>, t: seq<Tag>)
    requires Ascending(s) && Ascending(t) && multiset(s) == multiset(t)
    ensures Intervals(Plan(s)) == Intervals(Plan(t))
  {
    forall x
      ensures x in Cells(s) <==> x in Cells(t)
    {
      InCells(s, x);
      InCells(t, x);
      assert forall u :: u in s <==> u in multiset(s);
      assert forall u :: u in t <==> u in multiset(t);
    }
    assert Cells(s) == Cells(t);
    PlanCanonical(s);
    PlanCanonical(t);
    CanonicalUnique(Intervals(Plan(s)), Intervals(Plan(t)), Cells(s));
  }
}
