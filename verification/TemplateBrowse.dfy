/**
The browsing of a controller in internal/ethernetip/browse.go: the parser of its tag list, and the
worklist that loads the structure templates its tags refer to, directly or through other templates.
*/
module TemplateModel {
  import opened Bytes

  /** Twelve bits of a type code. */
  type Id = n: int | 0 <= n < 4096

  /** The type codes of a template's fields. */
  type Template = seq<u16>

  predicate IsStruct(code: u16) {
    code >= 0x8000
  }

  predicate IsSystem(code: u16) {
    code / 0x1000 % 2 == 1
  }

  function TemplateId(code: u16): Id {
    code % 4096
  }

  datatype TagEntry = TagEntry(name: seq<byte>, symbolType: u16, elemSize: u16, dims: seq<nat>)

  /** The templates the tags refer to. */
  function Roots(tags: seq<TagEntry>): set<Id> {
    set i | 0 <= i < |tags| && IsStruct(tags[i].symbolType) && !IsSystem(tags[i].symbolType) ::
      TemplateId(tags[i].symbolType)
  }

  /** The templates a template refers to. */
  function Nested(t: Template): set<Id> {
    set i | 0 <= i < |t| && IsStruct(t[i]) :: TemplateId(t[i])
  }

  /** A type code laid out: structure bit, two bits for the dimensions, system bit, template. */
  function Code(structure: bool, dimensions: int, system: bool, id: Id): u16
    requires 0 <= dimensions < 4
  {
    (if structure then 0x8000 else 0) + 0x2000 * dimensions + (if system then 0x1000 else 0) + id
  }

  /** What is read out of a code is what it was laid out from. */
  lemma CodeParts(structure: bool, dimensions: int, system: bool, id: Id)
    requires 0 <= dimensions < 4
    ensures var code := Code(structure, dimensions, system, id);
      IsStruct(code) == structure && IsSystem(code) == system && TemplateId(code) == id
  {
  }

  /** Every code is laid out so. */
  lemma PartsOfCode(code: u16)
    ensures code == Code(code >= 0x8000, code / 0x2000 % 4, code / 0x1000 % 2 == 1, code % 4096)
  {
  }

  /** The roots are the templates of the tags with the structure bit and without the system bit. */
  lemma RootIff(tags: seq<TagEntry>, id: Id)
    ensures id in Roots(tags) <==>
            exists i, d | 0 <= i < |tags| && 0 <= d < 4 :: tags[i].symbolType == Code(true, d, false, id)
  {
    if i :| 0 <= i < |tags| && IsStruct(tags[i].symbolType) && !IsSystem(tags[i].symbolType) && TemplateId(tags[i].symbolType) == id {
      PartsOfCode(tags[i].symbolType);
      assert tags[i].symbolType == Code(true, tags[i].symbolType / 0x2000 % 4, false, id);
    }
    if i, d :| 0 <= i < |tags| && 0 <= d < 4 && tags[i].symbolType == Code(true, d, false, id) {
      CodeParts(true, d, false, id);
    }
  }

  /** A template refers to the templates of its fields with the structure bit. */
  lemma NestedIff(t: Template, id: Id)
    ensures id in Nested(t) <==>
            exists i, d, system | 0 <= i < |t| && 0 <= d < 4 :: t[i] == Code(true, d, system, id)
  {
    if i :| 0 <= i < |t| && IsStruct(t[i]) && TemplateId(t[i]) == id {
      PartsOfCode(t[i]);
      assert t[i] == Code(true, t[i] / 0x2000 % 4, t[i] / 0x1000 % 2 == 1, id);
    }
    if i, d, system :| 0 <= i < |t| && 0 <= d < 4 && t[i] == Code(true, d, system, id) {
      CodeParts(true, d, system, id);
    }
  }
}

/** What the worklist loads. */
module TemplateGraph {
  import opened Common
  import opened TemplateModel

  type Source = Id -> Option<Template>

  /** A chain of references from a root in which the source has every template but possibly the last. */
  ghost predicate Path(source: Source, roots: set<Id>, p: seq<Id>) {
    p != [] &&
    if |p| == 1 then p[0] in roots
    else
      Path(source, roots, p[..|p| - 1]) && source(p[|p| - 2]).Some? && p[|p| - 1] in Nested(source(p[|p| - 2]).value)
  }

  ghost predicate Reachable(source: Source, roots: set<Id>, id: Id) {
    exists p :: Path(source, roots, p) && p[|p| - 1] == id
  }

  ghost predicate Agree(small: Source, big: Source) {
    forall id: Id :: small(id).Some? ==> big(id) == small(id)
  }

  lemma RootReachable(source: Source, roots: set<Id>, id: Id)
    requires id in roots
    ensures Reachable(source, roots, id)
  {
    assert Path(source, roots, [id]);
  }

  lemma NextReachable(source: Source, roots: set<Id>, from: Id, to: Id)
    requires Reachable(source, roots, from) && source(from).Some? && to in Nested(source(from).value)
    ensures Reachable(source, roots, to)
  {
    var p :| Path(source, roots, p) && p[|p| - 1] == from;
    assert (p + [to])[..|p|] == p;
    assert Path(source, roots, p + [to]);
  }

  lemma {:induction false} PathAgain(small: Source, big: Source, roots: set<Id>, p: seq<Id>)
    requires Agree(small, big) && Path(small, roots, p)
    ensures Path(big, roots, p)
    decreases |p|
  {
    if |p| > 1 {
      PathAgain(small, big, roots, p[..|p| - 1]);
    }
  }

  lemma StillReachable(small: Source, big: Source, roots: set<Id>, id: Id)
    requires Agree(small, big) && Reachable(small, roots, id)
    ensures Reachable(big, roots, id)
  {
    var p :| Path(small, roots, p) && p[|p| - 1] == id;
    PathAgain(small, big, roots, p);
  }

  // ----- what is loaded -----

  /** The outcome of reading a template when k reads came before. */
  type Reader = (Id, nat) -> Option<Template>

  ghost function Loaded(templates: map<Id, Template>): Source {
    (id: Id) => if id in templates then Some(templates[id]) else None
  }

  /** Among the reads made is one of this template, with this outcome. */
  ghost predicate Outcome(read: Reader, tried: seq<Id>, id: Id, outcome: Option<Template>) {
    exists k: nat | k < |tried| :: tried[k] == id && read(id, k) == outcome
  }

  /** Every template loaded was read so and is referred to through loaded templates. */
  ghost predicate Sound(templates: map<Id, Template>, roots: set<Id>, read: Reader, tried: seq<Id>) {
    forall id | id in templates ::
      Outcome(read, tried, id, Some(templates[id])) && Reachable(Loaded(templates), roots, id)
  }

  /** The template is loaded, or could not be read, or is still in the queue. */
  ghost predicate Settled(templates: map<Id, Template>, read: Reader, tried: seq<Id>, queue: seq<Id>, id: Id) {
    id in templates || Outcome(read, tried, id, None) || id in queue
  }

  /** Every template referred to, by a tag or by a loaded template, is settled. */
  ghost predicate Complete(templates: map<Id, Template>, roots: set<Id>, read: Reader, tried: seq<Id>, queue: seq<Id>) {
    (forall id | id in roots :: Settled(templates, read, tried, queue, id)) &&
    forall from, id | from in templates && id in Nested(templates[from]) :: Settled(templates, read, tried, queue, id)
  }

  /** A template that could be read is loaded and was not read again. */
  ghost predicate Frugal(templates: map<Id, Template>, read: Reader, tried: seq<Id>) {
    forall k | 0 <= k < |tried| && read(tried[k], k).Some? ::
      tried[k] in templates && forall l | k < l < |tried| :: tried[l] != tried[k]
  }

  // ----- when reading a template always has the same outcome -----

  lemma {:induction false} PathLoaded(templates: map<Id, Template>, roots: set<Id>, read: Reader, tried: seq<Id>, source: Source, p: seq<Id>)
    requires forall id: Id, k: nat :: read(id, k) == source(id)
    requires Complete(templates, roots, read, tried, []) && Agree(Loaded(templates), source)
    requires Path(source, roots, p) && source(p[|p| - 1]).Some?
    ensures p[|p| - 1] in templates
    decreases |p|
  {
    var last := p[|p| - 1];
    assert !Outcome(read, tried, last, None);
    if |p| > 1 {
      var from := p[|p| - 2];
      PathLoaded(templates, roots, read, tried, source, p[..|p| - 1]);
      assert Loaded(templates)(from) == source(from);
    }
    assert Settled(templates, read, tried, [], last);
  }

  /**
  When a template either can be read or cannot, whenever it is tried, the templates loaded are exactly
  the readable ones that a chain of references leads to from a tag through readable templates.
  */
  lemma LoadedIsReachable(templates: map<Id, Template>, roots: set<Id>, read: Reader, tried: seq<Id>, source: Source)
    requires forall id: Id, k: nat :: read(id, k) == source(id)
    requires Sound(templates, roots, read, tried) && Complete(templates, roots, read, tried, [])
    ensures Agree(Loaded(templates), source)
    ensures forall id: Id :: id in templates <==> source(id).Some? && Reachable(source, roots, id)
  {
    forall id: Id
      ensures id in templates <==> source(id).Some? && Reachable(source, roots, id)
    {
      if id in templates {
        StillReachable(Loaded(templates), source, roots, id);
      } else if source(id).Some? && Reachable(source, roots, id) {
        var p :| Path(source, roots, p) && p[|p| - 1] == id;
        PathLoaded(templates, roots, read, tried, source, p);
      }
    }
  }

  // ----- the worklist's steps -----

  ghost predicate QueueReachable(templates: map<Id, Template>, roots: set<Id>, queue: seq<Id>) {
    forall id | id in queue :: Reachable(Loaded(templates), roots, id)
  }

  ghost predicate Worklist(templates: map<Id, Template>, roots: set<Id>, read: Reader, tried: seq<Id>, queue: seq<Id>) {
    Sound(templates, roots, read, tried) && Complete(templates, roots, read, tried, queue) &&
    Frugal(templates, read, tried) && QueueReachable(templates, roots, queue)
  }

  lemma Started(roots: set<Id>, read: Reader, queue: seq<Id>)
    requires forall id: Id :: id in queue <==> id in roots
    ensures Worklist(map[], roots, read, [], queue)
  {
    forall id | id in queue
      ensures Reachable(Loaded(map[]), roots, id)
    {
      RootReachable(Loaded(map[]), roots, id);
    }
  }

  lemma OutcomeKept(read: Reader, tried: seq<Id>, more: seq<Id>, id: Id, outcome: Option<Template>)
    requires Outcome(read, tried, id, outcome) && tried <= more
    ensures Outcome(read, more, id, outcome)
  {
    var k: nat :| k < |tried| && tried[k] == id && read(id, k) == outcome;
    assert more[k] == id;
  }

  /** The head of the queue was loaded before. */
  lemma Skipped(templates: map<Id, Template>, roots: set<Id>, read: Reader, tried: seq<Id>, queue: seq<Id>)
    requires Worklist(templates, roots, read, tried, queue) && queue != [] && queue[0] in templates
    ensures Worklist(templates, roots, read, tried, queue[1..])
  {
    assert queue == [queue[0]] + queue[1..];
    forall id | Settled(templates, read, tried, queue, id)
      ensures Settled(templates, read, tried, queue[1..], id)
    {
    }
  }

  lemma FailedSound(templates: map<Id, Template>, roots: set<Id>, read: Reader, tried: seq<Id>, id: Id)
    requires Sound(templates, roots, read, tried)
    ensures Sound(templates, roots, read, tried + [id])
  {
    forall x | x in templates
      ensures Outcome(read, tried + [id], x, Some(templates[x]))
    {
      OutcomeKept(read, tried, tried + [id], x, Some(templates[x]));
    }
  }

  lemma FailedComplete(templates: map<Id, Template>, roots: set<Id>, read: Reader, tried: seq<Id>, queue: seq<Id>)
    requires Complete(templates, roots, read, tried, queue) && queue != [] && read(queue[0], |tried|) == None
    ensures Complete(templates, roots, read, tried + [queue[0]], queue[1..])
  {
    assert queue == [queue[0]] + queue[1..];
    forall id | Settled(templates, read, tried, queue, id)
      ensures Settled(templates, read, tried + [queue[0]], queue[1..], id)
    {
      if Outcome(read, tried, id, None) {
        OutcomeKept(read, tried, tried + [queue[0]], id, None);
      } else if id == queue[0] {
        assert (tried + [id])[|tried|] == id;
      }
    }
  }

  /** The head of the queue was read without success. */
  lemma Failed(templates: map<Id, Template>, roots: set<Id>, read: Reader, tried: seq<Id>, queue: seq<Id>)
    requires Worklist(templates, roots, read, tried, queue) && queue != [] && queue[0] !in templates
    requires read(queue[0], |tried|) == None
    ensures Worklist(templates, roots, read, tried + [queue[0]], queue[1..])
  {
    FailedSound(templates, roots, read, tried, queue[0]);
    FailedComplete(templates, roots, read, tried, queue);
  }

  lemma LoadedSound(templates: map<Id, Template>, roots: set<Id>, read: Reader, tried: seq<Id>, id: Id, t: Template)
    requires Sound(templates, roots, read, tried) && Reachable(Loaded(templates), roots, id)
    requires id !in templates && read(id, |tried|) == Some(t)
    ensures Sound(templates[id := t], roots, read, tried + [id])
  {
    var more := templates[id := t];
    forall x | x in more
      ensures Outcome(read, tried + [id], x, Some(more[x])) && Reachable(Loaded(more), roots, x)
    {
      if x in templates {
        OutcomeKept(read, tried, tried + [id], x, Some(templates[x]));
      } else {
        assert (tried + [id])[|tried|] == x;
      }
      StillReachable(Loaded(templates), Loaded(more), roots, x);
    }
  }

  lemma LoadedComplete(templates: map<Id, Template>, roots: set<Id>, read: Reader, tried: seq<Id>, queue: seq<Id>, t: Template, nested: seq<Id>)
    requires Complete(templates, roots, read, tried, queue) && queue != []
    requires forall x | x in Nested(t) :: x in nested || x in templates || x == queue[0]
    ensures Complete(templates[queue[0] := t], roots, read, tried + [queue[0]], queue[1..] + nested)
  {
    var more, longer, id := templates[queue[0] := t], queue[1..] + nested, queue[0];
    assert queue == [queue[0]] + queue[1..];
    forall x | Settled(templates, read, tried, queue, x)
      ensures Settled(more, read, tried + [id], longer, x)
    {
      if Outcome(read, tried, x, None) {
        OutcomeKept(read, tried, tried + [id], x, None);
      }
    }
    forall from, x | from in more && x in Nested(more[from])
      ensures Settled(more, read, tried + [id], longer, x)
    {
      if from != queue[0] {
        assert Settled(templates, read, tried, queue, x);
      }
    }
  }

  lemma LoadedReachable(templates: map<Id, Template>, roots: set<Id>, queue: seq<Id>, t: Template, nested: seq<Id>)
    requires QueueReachable(templates, roots, queue) && queue != [] && queue[0] !in templates
    requires forall x | x in nested :: x in Nested(t)
    ensures QueueReachable(templates[queue[0] := t], roots, queue[1..] + nested)
  {
    var big := Loaded(templates[queue[0] := t]);
    StillReachable(Loaded(templates), big, roots, queue[0]);
    forall x | x in queue[1..] + nested
      ensures Reachable(big, roots, x)
    {
      if x in queue[1..] {
        StillReachable(Loaded(templates), big, roots, x);
      } else {
        NextReachable(big, roots, queue[0], x);
      }
    }
  }

  /** The head of the queue is read and its own references join the queue. */
  lemma Read(templates: map<Id, Template>, roots: set<Id>, read: Reader, tried: seq<Id>, queue: seq<Id>, t: Template, nested: seq<Id>)
    requires Worklist(templates, roots, read, tried, queue) && queue != [] && queue[0] !in templates
    requires read(queue[0], |tried|) == Some(t)
    requires forall id: Id :: id in nested <==> id in Nested(t) && id !in templates[queue[0] := t]
    ensures Worklist(templates[queue[0] := t], roots, read, tried + [queue[0]], queue[1..] + nested)
  {
    LoadedSound(templates, roots, read, tried, queue[0], t);
    LoadedComplete(templates, roots, read, tried, queue, t, nested);
    LoadedReachable(templates, roots, queue, t, nested);
  }
}

module TemplateBrowse {
  import opened TemplateModel
  import opened TemplateGraph

  /** The templates not loaded yet: there are at most 4096. */
  ghost function Unread(templates: map<Id, Template>): set<Id> {
    set id: Id | 0 <= id < 4096 && id !in templates
  }

  /** The queue's start: every root once, in some order. */
  method Enqueue(ids: set<Id>) returns (queue: seq<Id>)
    ensures forall id: Id :: id in queue <==> id in ids
    ensures |queue| == |ids|
  {
    queue := [];
    var todo := ids;
    while todo != {}
      invariant todo <= ids && |queue| + |todo| == |ids|
      invariant forall id: Id :: id in queue <==> id in ids && id !in todo
      decreases |todo|
    {
      var id :| id in todo;
      todo := todo - {id};
      queue := queue + [id];
    }
  }

  /** The nested templates that are not loaded, in field order. */
  method NestedIds(templates: map<Id, Template>, t: Template) returns (ids: seq<Id>)
    ensures forall id: Id :: id in ids <==> id in Nested(t) && id !in templates
  {
    ids := [];
    for i := 0 to |t|
      invariant forall id: Id :: id in ids <==> id in Nested(t[..i]) && id !in templates
    {
      NestedNext(t, i);
      if IsStruct(t[i]) {
        var nested := TemplateId(t[i]);
        if nested !in templates {
          ids := ids + [nested];
        }
      }
    }
    assert t[..|t|] == t;
  }

  lemma NestedNext(t: Template, i: nat)
    requires i < |t|
    ensures Nested(t[..i + 1]) == Nested(t[..i]) + if IsStruct(t[i]) then {TemplateId(t[i])} else {}
  {
    var s := t[..i + 1];
    assert forall k | 0 <= k < i :: s[k] == t[..i][k];
    assert s[i] == t[i];
  }

  method RootIds(tags: seq<TagEntry>) returns (ids: set<Id>)
    ensures ids == Roots(tags)
  {
    ids := {};
    for i := 0 to |tags|
      invariant ids == Roots(tags[..i])
    {
      RootsNext(tags, i);
      var code := tags[i].symbolType;
      if IsStruct(code) && !IsSystem(code) {
        ids := ids + {TemplateId(code)};
      }
    }
    assert tags[..|tags|] == tags;
  }

  lemma RootsNext(tags: seq<TagEntry>, i: nat)
    requires i < |tags|
    ensures Roots(tags[..i + 1]) ==
            Roots(tags[..i]) + if IsStruct(tags[i].symbolType) && !IsSystem(tags[i].symbolType) then {TemplateId(tags[i].symbolType)} else {}
  {
    var s := tags[..i + 1];
    assert forall k | 0 <= k < i :: s[k] == tags[..i][k];
    assert s[i] == tags[i];
  }

  /** Terminates on every graph of templates and with every outcome of every read; `tried` is the reads made. */
  method LoadTemplates(tags: seq<TagEntry>, read: Reader) returns (templates: map<Id, Template>, tried: seq<Id>)
    ensures Sound(templates, Roots(tags), read, tried)
    ensures Complete(templates, Roots(tags), read, tried, [])
    ensures Frugal(templates, read, tried)
  {
    var roots := RootIds(tags);
    var queue := Enqueue(roots);
    templates, tried := map[], [];
    Started(roots, read, queue);
    while queue != []
      invariant Worklist(templates, roots, read, tried, queue)
      decreases Unread(templates), |queue|
    {
      var id := queue[0];
      if id in templates {
        Skipped(templates, roots, read, tried, queue);
        queue := queue[1..];
      } else {
        var outcome := read(id, |tried|);
        if outcome.None? {
          Failed(templates, roots, read, tried, queue);
          queue := queue[1..];
        } else {
          ghost var had := templates;
          templates := templates[id := outcome.value];
          assert id in Unread(had) && id !in Unread(templates);
          var nested := NestedIds(templates, outcome.value);
          Read(had, roots, read, tried, queue, outcome.value, nested);
          queue := queue[1..] + nested;
        }
        tried := tried + [id];
      }
    }
  }
}

/** parseTagList: the records of an @tags reply, one after the other, little-endian. */
module TagList {
  import opened Common
  import opened Bytes
  import opened TemplateModel

  const HEADER: nat := 22

  function Little16(b: seq<byte>, at: nat): u16
    requires at + 2 <= |b|
  {
    Get16(b[at + 1], b[at])
  }

  function Little32(b: seq<byte>, at: nat): nat
    requires at + 4 <= |b|
  {
    FromBytes([b[at + 3], b[at + 2], b[at + 1], b[at]])
  }

  /** The bytes are one record, of this tag. */
  ghost predicate Encodes(b: seq<byte>, e: TagEntry) {
    |b| == HEADER + |e.name| &&
    Little16(b, 4) == e.symbolType && Little16(b, 6) == e.elemSize &&
    e.dims == [Little32(b, 8), Little32(b, 12), Little32(b, 16)] &&
    Little16(b, 20) == |e.name| && b[HEADER..] == e.name
  }

  /** A whole record stands at the offset. */
  predicate Whole(b: seq<byte>, at: nat) {
    at + HEADER <= |b| && at + HEADER + Little16(b, at + 20) <= |b|
  }

  function End(b: seq<byte>, at: nat): (end: nat)
    requires Whole(b, at)
    ensures at < end <= |b|
  {
    at + HEADER + Little16(b, at + 20)
  }

  function Record(b: seq<byte>, at: nat): TagEntry
    requires Whole(b, at)
  {
    TagEntry(b[at + HEADER..End(b, at)], Little16(b, at + 4), Little16(b, at + 6),
             [Little32(b, at + 8), Little32(b, at + 12), Little32(b, at + 16)])
  }

  function Records(b: seq<byte>, at: nat): seq<TagEntry>
    decreases |b| - at
  {
    if Whole(b, at) then [Record(b, at)] + Records(b, End(b, at)) else []
  }

  // ----- what is read depends on the bytes from the offset on -----

  ghost predicate Same(b: seq<byte>, at: nat, c: seq<byte>, from: nat) {
    at <= |b| && from <= |c| && |b| - at == |c| - from && forall i | at <= i < |b| :: b[i] == c[i - at + from]
  }

  lemma RecordSame(b: seq<byte>, at: nat, c: seq<byte>, from: nat)
    requires Same(b, at, c, from)
    ensures Whole(b, at) <==> Whole(c, from)
    ensures Whole(b, at) ==> Record(b, at) == Record(c, from) && End(b, at) - at == End(c, from) - from
  {
  }

  lemma SameLater(b: seq<byte>, at: nat, c: seq<byte>, from: nat, k: nat)
    requires Same(b, at, c, from) && at + k <= |b|
    ensures Same(b, at + k, c, from + k)
  {
    forall i | at + k <= i < |b|
      ensures b[i] == c[i - (at + k) + (from + k)]
    {
      assert i - (at + k) + (from + k) == i - at + from;
    }
  }

  lemma {:induction false} RecordsSame(b: seq<byte>, at: nat, c: seq<byte>, from: nat)
    requires Same(b, at, c, from)
    ensures Records(b, at) == Records(c, from)
    decreases |b| - at
  {
    RecordSame(b, at, c, from);
    if Whole(b, at) {
      SameLater(b, at, c, from, End(b, at) - at);
      RecordsSame(b, End(b, at), c, End(c, from));
    }
  }

  // ----- records laid end to end -----

  ghost predicate EncodeAll(chunks: seq<seq<byte>>, entries: seq<TagEntry>) {
    |chunks| == |entries| && forall i | 0 <= i < |chunks| :: Encodes(chunks[i], entries[i])
  }

  lemma FirstOfEncoded(chunk: seq<byte>, e: TagEntry, rest: seq<byte>)
    requires Encodes(chunk, e)
    ensures var b := chunk + rest; Whole(b, 0) && End(b, 0) == |chunk| && Record(b, 0) == e
  {
    var b := chunk + rest;
    assert forall i | 0 <= i < |chunk| :: b[i] == chunk[i];
    assert b[HEADER..|chunk|] == chunk[HEADER..];
  }

  /** Records laid end to end are read back in order, and a record cut short at the end is ignored. */
  lemma {:induction false} RecordsOfEncoded(chunks: seq<seq<byte>>, entries: seq<TagEntry>, tail: seq<byte>)
    requires EncodeAll(chunks, entries) && !Whole(tail, 0)
    ensures Records(Flatten(chunks) + tail, 0) == entries
  {
    if chunks == [] {
      assert Flatten(chunks) + tail == tail;
    } else {
      var rest := Flatten(chunks[1..]) + tail;
      assert Flatten(chunks) + tail == chunks[0] + rest;
      FirstOfEncoded(chunks[0], entries[0], rest);
      RecordsSame(chunks[0] + rest, |chunks[0]|, rest, 0);
      RecordsOfEncoded(chunks[1..], entries[1..], tail);
    }
  }

  /** A record as the controller lays it out: instance, type, size, three dimensions, name length, name. */
  function Laid(instance: seq<byte>, symbolType: u16, elemSize: u16, dims: seq<u32>, name: seq<byte>): seq<byte>
    requires |instance| == 4 && |dims| == 3 && |name| < 0x1_0000
  {
    instance + Least16(symbolType) + Least16(elemSize) + Least32(dims[0]) + Least32(dims[1]) + Least32(dims[2]) +
    Least16(|name|) + name
  }

  /** The least significant byte first. */
  function Least16(n: u16): seq<byte> {
    [n % 256, n / 256]
  }

  function Least32(n: u32): seq<byte> {
    [n % 256, n / 256 % 256, n / 65536 % 256, n / 16777216]
  }

  lemma Read16(b: seq<byte>, at: nat, n: u16)
    requires at + 2 <= |b| && b[at..at + 2] == Least16(n)
    ensures Little16(b, at) == n
  {
    assert b[at..at + 2][0] == b[at] && b[at..at + 2][1] == b[at + 1];
  }

  lemma Read32(b: seq<byte>, at: nat, n: u32)
    requires at + 4 <= |b| && b[at..at + 4] == Least32(n)
    ensures Little32(b, at) == n
  {
    var s := b[at..at + 4];
    assert s[0] == b[at] && s[1] == b[at + 1] && s[2] == b[at + 2] && s[3] == b[at + 3];
    FromLeast32(n);
  }

  lemma FromLeast32(n: u32)
    ensures var s := Least32(n); FromBytes([s[3], s[2], s[1], s[0]]) == n
  {
    var n1, n2 := n / 256, n / 65536;
    assert n1 / 256 == n2 && n2 / 256 == n / 16777216;
    FromFour(n / 16777216, n2 % 256, n1 % 256, n % 256);
  }

  lemma FromFour(x: byte, y: byte, z: byte, w: byte)
    ensures FromBytes([x, y, z, w]) == ((x * 256 + y) * 256 + z) * 256 + w
  {
    assert [x, y, z, w][..3] == [x, y, z] && [x, y, z][..2] == [x, y] && [x, y][..1] == [x] && [x][..0] == [];
    assert FromBytes([x]) == x && FromBytes([x, y]) == FromBytes([x]) * 256 + y;
    assert FromBytes([x, y, z]) == FromBytes([x, y]) * 256 + z;
  }

  /** The parser's reading of a record is what the record was laid out from. */
  lemma LaidEncodes(instance: seq<byte>, symbolType: u16, elemSize: u16, dims: seq<u32>, name: seq<byte>)
    requires |instance| == 4 && |dims| == 3 && |name| < 0x1_0000
    ensures Encodes(Laid(instance, symbolType, elemSize, dims, name),
                    TagEntry(name, symbolType, elemSize, [dims[0], dims[1], dims[2]]))
  {
    var b := Laid(instance, symbolType, elemSize, dims, name);
    assert b[4..6] == Least16(symbolType) && b[6..8] == Least16(elemSize);
    assert b[8..12] == Least32(dims[0]) && b[12..16] == Least32(dims[1]) && b[16..20] == Least32(dims[2]);
    assert b[20..22] == Least16(|name|) && b[22..] == name;
    Read16(b, 4, symbolType);
    Read16(b, 6, elemSize);
    Read32(b, 8, dims[0]);
    Read32(b, 12, dims[1]);
    Read32(b, 16, dims[2]);
    Read16(b, 20, |name|);
  }

  lemma RecordEncoded(b: seq<byte>)
    requires Whole(b, 0)
    ensures Encodes(b[..End(b, 0)], Record(b, 0))
  {
    var first := b[..End(b, 0)];
    assert forall i | 0 <= i < |first| :: first[i] == b[i];
    assert first[HEADER..] == b[HEADER..End(b, 0)];
  }

  lemma SplitFlattens(b: seq<byte>, end: nat, others: seq<seq<byte>>, tail: seq<byte>)
    requires end <= |b| && Flatten(others) + tail == b[end..]
    ensures Flatten([b[..end]] + others) + tail == b
  {
    assert ([b[..end]] + others)[1..] == others;
    assert b[..end] + Flatten(others) + tail == b[..end] + (Flatten(others) + tail);
  }

  lemma SplitEncodes(b: seq<byte>, others: seq<seq<byte>>)
    requires Whole(b, 0) && EncodeAll(others, Records(b[End(b, 0)..], 0))
    ensures EncodeAll([b[..End(b, 0)]] + others, Records(b, 0))
  {
    RecordsSame(b, End(b, 0), b[End(b, 0)..], 0);
    RecordEncoded(b);
    EncodeNext(b[..End(b, 0)], Record(b, 0), others, Records(b, End(b, 0)));
  }

  lemma EncodeNext(first: seq<byte>, e: TagEntry, others: seq<seq<byte>>, entries: seq<TagEntry>)
    requires Encodes(first, e) && EncodeAll(others, entries)
    ensures EncodeAll([first] + others, [e] + entries)
  {
  }

  /** Every reply is made of the records read from it and a rest that is no whole record. */
  lemma {:induction false} RecordsSplit(b: seq<byte>) returns (chunks: seq<seq<byte>>, tail: seq<byte>)
    ensures EncodeAll(chunks, Records(b, 0)) && !Whole(tail, 0) && Flatten(chunks) + tail == b
    decreases |b|
  {
    if !Whole(b, 0) {
      return [], b;
    }
    var others;
    others, tail := RecordsSplit(b[End(b, 0)..]);
    chunks := [b[..End(b, 0)]] + others;
    SplitEncodes(b, others);
    SplitFlattens(b, End(b, 0), others, tail);
  }

  /** A reply cut short anywhere gives a prefix of the records, never a wrong one. */
  lemma {:induction false} TruncatedPrefix(b: seq<byte>, n: nat, at: nat)
    requires n <= |b|
    ensures Records(b[..n], at) <= Records(b, at)
    decreases |b| - at
  {
    var short := b[..n];
    if Whole(short, at) {
      assert Record(short, at) == Record(b, at) && End(short, at) == End(b, at) by {
        assert forall i | 0 <= i < n :: short[i] == b[i];
        assert short[at + HEADER..End(short, at)] == b[at + HEADER..End(short, at)];
      }
      TruncatedPrefix(b, n, End(b, at));
    }
  }

  // ----- tags and programs -----

  /** "Program:" */
  const PROGRAM_PREFIX: seq<byte> := [80, 114, 111, 103, 114, 97, 109, 58]

  /** What a record adds to the tags. */
  function TagOf(e: TagEntry): seq<TagEntry> {
    if IsSystem(e.symbolType) then [] else [e]
  }

  /** What a record adds to the programs: a system record named after one adds its name. */
  function ProgramOf(e: TagEntry): seq<seq<byte>> {
    if IsSystem(e.symbolType) && PROGRAM_PREFIX <= e.name then [e.name[|PROGRAM_PREFIX|..]] else []
  }

  function Tags(rs: seq<TagEntry>): seq<TagEntry> {
    if rs == [] then [] else Tags(rs[..|rs| - 1]) + TagOf(rs[|rs| - 1])
  }

  function Programs(rs: seq<TagEntry>): seq<seq<byte>> {
    if rs == [] then [] else Programs(rs[..|rs| - 1]) + ProgramOf(rs[|rs| - 1])
  }

  lemma ListsNext(done: seq<TagEntry>, e: TagEntry)
    ensures Tags(done + [e]) == Tags(done) + TagOf(e)
    ensures Programs(done + [e]) == Programs(done) + ProgramOf(e)
  {
    assert (done + [e])[..|done|] == done;
  }

  /** The system bit is not set. */
  predicate Plain(e: TagEntry) {
    e.symbolType / 0x1000 % 2 == 0
  }

  /** The positions are in order, they are those of the records without the system bit, and the tags stand there. */
  ghost predicate TagsAt(tags: seq<TagEntry>, at: seq<nat>, rs: seq<TagEntry>) {
    |tags| == |at| && (forall k | 0 <= k < |at| :: at[k] < |rs| && tags[k] == rs[at[k]]) &&
    (forall k, l | 0 <= k < l < |at| :: at[k] < at[l]) &&
    forall i: nat | i < |rs| :: i in at <==> Plain(rs[i])
  }

  /** The tags are the records without the system bit, all of them, in order. */
  lemma {:induction false} TagsAre(rs: seq<TagEntry>) returns (at: seq<nat>)
    ensures TagsAt(Tags(rs), at, rs)
    decreases |rs|
  {
    at := [];
    if rs != [] {
      var init, last := rs[..|rs| - 1], rs[|rs| - 1];
      at := TagsAre(init);
      TagsNext(Tags(init), at, init, last);
      assert rs == init + [last];
      TagOfPlain(last);
      if Plain(last) {
        at := at + [|init|];
      } else {
        assert Tags(init) + [] == Tags(init);
      }
    }
  }

  lemma TagOfPlain(e: TagEntry)
    ensures TagOf(e) == if Plain(e) then [e] else []
  {
  }

  lemma TagsNext(tags: seq<TagEntry>, at: seq<nat>, rs: seq<TagEntry>, e: TagEntry)
    requires TagsAt(tags, at, rs)
    ensures if Plain(e) then TagsAt(tags + [e], at + [|rs|], rs + [e]) else TagsAt(tags, at, rs + [e])
  {
    var more, longer := at + [|rs|], rs + [e];
    assert forall i: nat | i < |rs| :: longer[i] == rs[i] && (i in more <==> i in at);
  }

  /** A program is listed exactly when a record with the system bit is named after it. */
  lemma {:induction false} ProgramIff(rs: seq<TagEntry>, program: seq<byte>)
    ensures program in Programs(rs) <==>
            exists i | 0 <= i < |rs| :: rs[i].symbolType / 0x1000 % 2 == 1 && rs[i].name == PROGRAM_PREFIX + program
  {
    if rs != [] {
      var init, last := rs[..|rs| - 1], rs[|rs| - 1];
      ProgramIff(init, program);
      ProgramOfIff(last, program);
      assert forall i | 0 <= i < |init| :: init[i] == rs[i];
    }
  }

  lemma ProgramOfIff(e: TagEntry, program: seq<byte>)
    ensures program in ProgramOf(e) <==> e.symbolType / 0x1000 % 2 == 1 && e.name == PROGRAM_PREFIX + program
  {
    if PROGRAM_PREFIX <= e.name {
      assert e.name == PROGRAM_PREFIX + e.name[|PROGRAM_PREFIX|..];
    }
  }

  lemma Advance(b: seq<byte>, at: nat, done: seq<TagEntry>)
    requires Whole(b, at) && Records(b, 0) == done + Records(b, at)
    ensures Records(b, 0) == done + [Record(b, at)] + Records(b, End(b, at))
  {
  }

  method ParseRecord(b: seq<byte>, offset: nat) returns (e: Option<TagEntry>, next: nat)
    ensures if Whole(b, offset) then e == Some(Record(b, offset)) && next == End(b, offset) else e == None
  {
    e, next := None, offset;
    if offset + HEADER <= |b| {
      var symbolType, elemSize := Little16(b, offset + 4), Little16(b, offset + 6);
      var dims := [Little32(b, offset + 8), Little32(b, offset + 12), Little32(b, offset + 16)];
      var name := offset + HEADER;
      next := name + Little16(b, offset + 20);
      if next <= |b| {
        e := Some(TagEntry(b[name..next], symbolType, elemSize, dims));
      }
    }
  }

  method ParseTagList(b: seq<byte>) returns (tags: seq<TagEntry>, programs: seq<seq<byte>>)
    ensures tags == Tags(Records(b, 0)) && programs == Programs(Records(b, 0))
  {
    var offset := 0;
    tags, programs := [], [];
    ghost var done: seq<TagEntry> := [];
    while offset < |b|
      invariant 0 <= offset <= |b| && Records(b, 0) == done + Records(b, offset)
      invariant tags == Tags(done) && programs == Programs(done)
    {
      var r, next := ParseRecord(b, offset);
      if r.None? {
        break;
      }
      var e := r.value;
      Advance(b, offset, done);
      ListsNext(done, e);
      offset, done := next, done + [e];
      if IsSystem(e.symbolType) {
        if PROGRAM_PREFIX <= e.name {
          programs := programs + [e.name[|PROGRAM_PREFIX|..]];
        }
      } else {
        tags := tags + [e];
      }
    }
    assert Records(b, 0) == done;
  }
}
