/**
One bucket of the in-process key-value store of internal/bus/channel.go, with expiry and watchers.
Each section under the bucket's lock is one action; the notifications it gives rise to are owed to
the watchers in that order. Times are those of a clock that never goes back, read under the lock;
only a sweep reads it before it takes the lock, so its time may be an earlier one.
*/
module KvModel {
  import opened Common

  datatype Entry = Entry(value: string, revision: nat, expires: Option<int>)

  datatype Note = PutNote(key: string, value: string) | DeleteNote(key: string)

  /** A registered watcher; the empty key watches all. */
  datatype Watcher = Watcher(id: nat, key: string, owed: seq<Note>)

  datatype Bucket = Bucket(ttl: int, entries: map<string, Entry>, revision: nat, watchers: seq<Watcher>, nextId: nat, clock: int)

  /** `order` is the order in which the entry map is walked, up to the language's map iteration. */
  datatype Action =
    | Put(key: string, value: string, now: int)
    | Delete(key: string, now: int)
    | Watch(key: string, order: seq<string>, now: int)
    | Unwatch(id: nat, now: int)
    | Sweep(order: seq<string>, now: int)

  predicate Expired(e: Entry, now: int) {
    e.expires.Some? && now > e.expires.value
  }

  predicate Matches(watched: string, key: string) {
    watched == "" || watched == key
  }

  /** The value and revision under a key, if it is there and has not expired. */
  function Get(b: Bucket, key: string, now: int): Option<(string, nat)> {
    if key in b.entries && !Expired(b.entries[key], now)
    then Some((b.entries[key].value, b.entries[key].revision)) else None
  }

  function Keys(b: Bucket, now: int): set<string> {
    set k | k in b.entries && !Expired(b.entries[k], now)
  }

  function ExpiredKeys(b: Bucket, now: int): set<string> {
    set k | k in b.entries && Expired(b.entries[k], now)
  }

  function Elements(keys: seq<string>): set<string> {
    set k | k in keys
  }

  /** Every watcher of the key is owed the note. */
  function Notify(ws: seq<Watcher>, n: Note): (r: seq<Watcher>)
    ensures |r| == |ws|
  {
    seq(|ws|, i requires 0 <= i < |ws| => if Matches(ws[i].key, n.key) then ws[i].(owed := ws[i].owed + [n]) else ws[i])
  }

  function NotifyDeletes(ws: seq<Watcher>, keys: seq<string>): (r: seq<Watcher>)
    ensures |r| == |ws|
  {
    if keys == [] then ws
    else Notify(NotifyDeletes(ws, keys[..|keys| - 1]), DeleteNote(keys[|keys| - 1]))
  }

  /** The current entries a new watcher is told of: those it watches that have not expired. */
  function Replayed(b: Bucket, watched: string, order: seq<string>, now: int): seq<Note>
    requires forall i | 0 <= i < |order| :: order[i] in b.entries
  {
    if order == [] then []
    else
      var k := order[|order| - 1];
      Replayed(b, watched, order[..|order| - 1], now) +
      if !Expired(b.entries[k], now) && Matches(watched, k) then [PutNote(k, b.entries[k].value)] else []
  }

  lemma ReplayedNext(b: Bucket, watched: string, order: seq<string>, i: nat, now: int)
    requires i < |order| && forall k | 0 <= k < |order| :: order[k] in b.entries
    ensures Replayed(b, watched, order[..i + 1], now) ==
            Replayed(b, watched, order[..i], now) +
            if !Expired(b.entries[order[i]], now) && Matches(watched, order[i])
            then [PutNote(order[i], b.entries[order[i]].value)] else []
  {
    assert order[..i + 1][..i] == order[..i];
  }

  ghost predicate Walks(order: seq<string>, keys: set<string>) {
    Elements(order) == keys && forall i, j | 0 <= i < j < |order| :: order[i] != order[j]
  }

  lemma WalksNext(order: seq<string>, keys: set<string>, k: string)
    requires Walks(order, keys) && k !in keys
    ensures Walks(order + [k], keys + {k})
  {
    assert forall i | 0 <= i < |order| :: order[i] in Elements(order);
    assert Elements(order + [k]) == Elements(order) + {k};
  }

  ghost predicate Enabled(b: Bucket, a: Action) {
    match a
    case Watch(_, order, now) => b.clock <= now && Walks(order, b.entries.Keys)
    case Sweep(order, now) => b.ttl > 0 && Walks(order, ExpiredKeys(b, now))
    case _ => b.clock <= a.now
  }

  /** All watchers but the first with the given identity. */
  function Without(ws: seq<Watcher>, id: nat): seq<Watcher> {
    if ws == [] then [] else if ws[0].id == id then ws[1..] else [ws[0]] + Without(ws[1..], id)
  }

  lemma WithoutNext(ws: seq<Watcher>, id: nat, i: nat)
    requires i < |ws| && Without(ws, id) == ws[..i] + Without(ws[i..], id)
    ensures Without(ws, id) == if ws[i].id == id then ws[..i] + ws[i + 1..] else ws[..i + 1] + Without(ws[i + 1..], id)
  {
    assert ws[i..][1..] == ws[i + 1..];
    if ws[i].id != id {
      assert ws[..i + 1] == ws[..i] + [ws[i]];
      assert ws[..i] + ([ws[i]] + Without(ws[i + 1..], id)) == ws[..i] + [ws[i]] + Without(ws[i + 1..], id);
    }
  }

  ghost function Step(b: Bucket, a: Action): Bucket
    requires Enabled(b, a)
  {
    match a
    case Put(key, value, now) =>
      var e := Entry(value, b.revision + 1, if b.ttl > 0 then Some(now + b.ttl) else None);
      b.(revision := b.revision + 1, entries := b.entries[key := e],
         watchers := Notify(b.watchers, PutNote(key, value)), clock := now)
    case Delete(key, now) =>
      b.(entries := b.entries - {key}, watchers := Notify(b.watchers, DeleteNote(key)), clock := now)
    case Watch(key, order, now) =>
      b.(watchers := b.watchers + [Watcher(b.nextId, key, Replayed(b, key, order, now))], nextId := b.nextId + 1, clock := now)
    case Unwatch(id, now) => b.(watchers := Without(b.watchers, id), clock := now)
    case Sweep(order, now) =>
      b.(entries := b.entries - Elements(order), watchers := NotifyDeletes(b.watchers, order), clock := Later(b.clock, now))
  }

  function Later(s: int, t: int): int {
    if s < t then t else s
  }

  function Empty(ttl: int, now: int): Bucket {
    Bucket(ttl, map[], 0, [], 0, now)
  }
}

/** What holds in every run of a bucket. */
module KvRuns {
  import opened Common
  import opened KvModel

  datatype Run = Run(actions: seq<Action>, states: seq<Bucket>) {
    ghost predicate Valid() {
      |states| == |actions| + 1 && states[0] == Empty(states[0].ttl, states[0].clock) &&
      forall i | 0 <= i < |actions| :: StepAt(i)
    }

    ghost predicate StepAt(i: nat)
      requires i < |actions| < |states|
    {
      Enabled(states[i], actions[i]) && states[i + 1] == Step(states[i], actions[i])
    }
  }

  // ----- a watcher that applies what it is owed holds the bucket's content -----

  /** The map a watcher arrives at by applying its notifications to an empty one. */
  function Applied(notes: seq<Note>): map<string, string> {
    if notes == [] then map[] else Apply(Applied(notes[..|notes| - 1]), notes[|notes| - 1])
  }

  function Apply(m: map<string, string>, n: Note): map<string, string> {
    if n.PutNote? then m[n.key := n.value] else m - {n.key}
  }

  /** The map holds only current entries the watcher watches, and all of those that have not expired. */
  ghost predicate InStep(m: map<string, string>, watched: string, entries: map<string, Entry>, now: int) {
    (forall k | k in m :: Matches(watched, k) && k in entries && m[k] == entries[k].value) &&
    forall k | k in entries && Matches(watched, k) && !Expired(entries[k], now) :: k in m
  }

  lemma AppliedNext(notes: seq<Note>, n: Note)
    ensures Applied(notes + [n]) == Apply(Applied(notes), n)
  {
    assert (notes + [n])[..|notes|] == notes;
  }

  lemma {:induction false} ReplayedApplied(b: Bucket, watched: string, order: seq<string>, now: int)
    requires forall i | 0 <= i < |order| :: order[i] in b.entries
    ensures var m := Applied(Replayed(b, watched, order, now));
      (forall k | k in m :: Matches(watched, k) && k in b.entries && m[k] == b.entries[k].value) &&
      forall i | 0 <= i < |order| && Matches(watched, order[i]) && !Expired(b.entries[order[i]], now) :: order[i] in m
    decreases |order|
  {
    if order != [] {
      var init, k := order[..|order| - 1], order[|order| - 1];
      ReplayedApplied(b, watched, init, now);
      var notes := Replayed(b, watched, init, now);
      assert forall i | 0 <= i < |init| :: order[i] == init[i];
      if !Expired(b.entries[k], now) && Matches(watched, k) {
        AppliedNext(notes, PutNote(k, b.entries[k].value));
      } else {
        assert Replayed(b, watched, order, now) == notes;
      }
    }
  }

  function Watched(keys: seq<string>, watched: string): set<string> {
    set k | k in keys && Matches(watched, k)
  }

  lemma {:induction false} DeletesApplied(ws: seq<Watcher>, keys: seq<string>, i: nat)
    requires i < |ws|
    ensures var w := NotifyDeletes(ws, keys)[i];
      w.key == ws[i].key && w.id == ws[i].id &&
      Applied(w.owed) == Applied(ws[i].owed) - Watched(keys, ws[i].key)
    decreases |keys|
  {
    if keys != [] {
      var init, k := keys[..|keys| - 1], keys[|keys| - 1];
      DeletesApplied(ws, init, i);
      assert keys == init + [k];
      AppliedNext(NotifyDeletes(ws, init)[i].owed, DeleteNote(k));
    }
  }

  ghost predicate AllInStep(b: Bucket) {
    forall i | 0 <= i < |b.watchers| :: InStep(Applied(b.watchers[i].owed), b.watchers[i].key, b.entries, b.clock)
  }

  lemma {:induction false} WithoutIsPart(ws: seq<Watcher>, id: nat)
    ensures forall w | w in Without(ws, id) :: w in ws
  {
    if ws != [] {
      WithoutIsPart(ws[1..], id);
    }
  }

  lemma PutInStep(b: Bucket, a: Action, i: nat)
    requires a.Put? && Enabled(b, a) && AllInStep(b) && i < |b.watchers|
    ensures var b' := Step(b, a); InStep(Applied(b'.watchers[i].owed), b'.watchers[i].key, b'.entries, a.now)
  {
    AppliedNext(b.watchers[i].owed, PutNote(a.key, a.value));
  }

  lemma DeleteInStep(b: Bucket, a: Action, i: nat)
    requires a.Delete? && Enabled(b, a) && AllInStep(b) && i < |b.watchers|
    ensures var b' := Step(b, a); InStep(Applied(b'.watchers[i].owed), b'.watchers[i].key, b'.entries, a.now)
  {
    AppliedNext(b.watchers[i].owed, DeleteNote(a.key));
  }

  lemma SweepInStep(b: Bucket, a: Action, i: nat)
    requires a.Sweep? && Enabled(b, a) && AllInStep(b) && i < |b.watchers|
    ensures var b' := Step(b, a); InStep(Applied(b'.watchers[i].owed), b'.watchers[i].key, b'.entries, b'.clock)
  {
    DeletesApplied(b.watchers, a.order, i);
  }

  lemma WatchInStep(b: Bucket, a: Action)
    requires a.Watch? && Enabled(b, a)
    ensures InStep(Applied(Replayed(b, a.key, a.order, a.now)), a.key, b.entries, a.now)
  {
    ReplayedApplied(b, a.key, a.order, a.now);
  }

  lemma StepInStep(b: Bucket, a: Action)
    requires Enabled(b, a) && AllInStep(b)
    ensures AllInStep(Step(b, a))
  {
    var b' := Step(b, a);
    forall i | 0 <= i < |b'.watchers|
      ensures InStep(Applied(b'.watchers[i].owed), b'.watchers[i].key, b'.entries, b'.clock)
    {
      match a
      case Put(_, _, _) => PutInStep(b, a, i);
      case Delete(_, _) => DeleteInStep(b, a, i);
      case Sweep(_, _) => SweepInStep(b, a, i);
      case Watch(_, _, _) =>
        if i == |b.watchers| {
          WatchInStep(b, a);
        }
      case Unwatch(id, _) =>
        WithoutIsPart(b.watchers, id);
        assert b'.watchers[i] in b'.watchers;
    }
  }

  /**
  In every run, every registered watcher that applies what it is owed, in order, to an empty map holds
  exactly the current entries it watches, except that entries already expired may be missing.
  */
  lemma {:induction false} WatchersConverge(r: Run, i: nat)
    requires r.Valid() && i <= |r.actions|
    ensures AllInStep(r.states[i])
  {
    if i > 0 {
      WatchersConverge(r, i - 1);
      assert r.StepAt(i - 1);
      StepInStep(r.states[i - 1], r.actions[i - 1]);
    }
  }

  // ----- notifications delivered in another order -----

  /** The last of the notes about a key, if there is one. */
  function LastNote(notes: seq<Note>, key: string): Option<Note> {
    if notes == [] then None
    else if notes[|notes| - 1].key == key then Some(notes[|notes| - 1])
    else LastNote(notes[..|notes| - 1], key)
  }

  /** The value a key has after a note about it. */
  function Effect(n: Option<Note>): Option<string> {
    if n.Some? && n.value.PutNote? then Some(n.value.value) else None
  }

  function Lookup(m: map<string, string>, key: string): Option<string> {
    if key in m then Some(m[key]) else None
  }

  lemma {:induction false} AppliedByLast(notes: seq<Note>, key: string)
    ensures Lookup(Applied(notes), key) == Effect(LastNote(notes, key))
  {
    if notes != [] {
      AppliedByLast(notes[..|notes| - 1], key);
    }
  }

  lemma SameMap(m: map<string, string>, n: map<string, string>)
    requires forall key :: Lookup(m, key) == Lookup(n, key)
    ensures m == n
  {
    forall key
      ensures (key in m <==> key in n) && (key in m ==> m[key] == n[key])
    {
      assert Lookup(m, key) == Lookup(n, key);
    }
  }

  /** All notes about one key would leave it alike. */
  ghost predicate OneEffectPerKey(notes: seq<Note>) {
    forall i, j | 0 <= i < |notes| && 0 <= j < |notes| && notes[i].key == notes[j].key ::
      Effect(Some(notes[i])) == Effect(Some(notes[j]))
  }

  /** Whatever order the notes arrive in, they lead to the same map. */
  ghost predicate AnyOrderAgrees(owed: seq<Note>) {
    forall delivered | multiset(delivered) == multiset(owed) :: Applied(delivered) == Applied(owed)
  }

  lemma {:induction false} LastNoteIsNote(notes: seq<Note>, key: string) returns (i: int)
    ensures LastNote(notes, key).Some? ==> 0 <= i < |notes| && notes[i].key == key && LastNote(notes, key) == Some(notes[i])
    ensures LastNote(notes, key).None? ==> forall k | 0 <= k < |notes| :: notes[k].key != key
    decreases |notes|
  {
    i := -1;
    if notes != [] {
      if notes[|notes| - 1].key == key {
        i := |notes| - 1;
      } else {
        i := LastNoteIsNote(notes[..|notes| - 1], key);
      }
    }
  }

  lemma NoteIn(notes: seq<Note>, others: seq<Note>, i: nat) returns (j: nat)
    requires multiset(notes) == multiset(others) && i < |notes|
    ensures j < |others| && others[j] == notes[i]
  {
    assert notes[i] in multiset(notes) && notes[i] in multiset(others);
    j :| j < |others| && others[j] == notes[i];
  }

  lemma SameEffect(owed: seq<Note>, delivered: seq<Note>, key: string)
    requires OneEffectPerKey(owed) && multiset(delivered) == multiset(owed)
    ensures Lookup(Applied(delivered), key) == Lookup(Applied(owed), key)
  {
    AppliedByLast(owed, key);
    AppliedByLast(delivered, key);
    var i := LastNoteIsNote(owed, key);
    var j := LastNoteIsNote(delivered, key);
    if LastNote(delivered, key).Some? {
      var k := NoteIn(delivered, owed, j);
    }
    if LastNote(owed, key).Some? {
      var k := NoteIn(owed, delivered, i);
    }
  }

  /** The notes with the i-th delivered last. */
  ghost function Delayed(notes: seq<Note>, i: nat): (r: seq<Note>)
    requires i < |notes|
    ensures multiset(r) == multiset(notes)
  {
    assert notes == notes[..i] + [notes[i]] + notes[i + 1..];
    notes[..i] + notes[i + 1..] + [notes[i]]
  }

  lemma DelayedWins(notes: seq<Note>, i: nat)
    requires i < |notes|
    ensures Lookup(Applied(Delayed(notes, i)), notes[i].key) == Effect(Some(notes[i]))
  {
    AppliedByLast(Delayed(notes, i), notes[i].key);
  }

  /**
  Notifications handed to goroutines may arrive in any order. Every order leads a watcher to the same map
  exactly when, of all the notes it is owed about one key, each would leave the key alike.
  */
  lemma AnyOrderAgreesIff(owed: seq<Note>)
    ensures AnyOrderAgrees(owed) <==> OneEffectPerKey(owed)
  {
    if OneEffectPerKey(owed) {
      forall delivered | multiset(delivered) == multiset(owed)
        ensures Applied(delivered) == Applied(owed)
      {
        forall key
          ensures Lookup(Applied(delivered), key) == Lookup(Applied(owed), key)
        {
          SameEffect(owed, delivered, key);
        }
        SameMap(Applied(delivered), Applied(owed));
      }
    } else {
      var i, j :| 0 <= i < |owed| && 0 <= j < |owed| && owed[i].key == owed[j].key &&
                  Effect(Some(owed[i])) != Effect(Some(owed[j]));
      DelayedWins(owed, i);
      DelayedWins(owed, j);
      assert Applied(Delayed(owed, i)) != Applied(Delayed(owed, j));
    }
  }

  lemma Extended(r: Run, a: Action) returns (r': Run)
    requires r.Valid() && Enabled(r.states[|r.actions|], a)
    ensures r' == Run(r.actions + [a], r.states + [Step(r.states[|r.actions|], a)]) && r'.Valid()
  {
    r' := Run(r.actions + [a], r.states + [Step(r.states[|r.actions|], a)]);
    forall i | 0 <= i < |r'.actions|
      ensures r'.StepAt(i)
    {
      assert i < |r.actions| ==> r.StepAt(i);
    }
  }

  /**
  A run in which one watcher is owed a put and the delete after it: delivered the other way round they
  leave it with an entry the bucket does not hold.
  */
  lemma DeletedEntryStays(key: string, value: string) returns (r: Run, delivered: seq<Note>)
    ensures r.Valid() && |r.actions| == 3 && |r.states[3].watchers| == 1 && r.states[3].entries == map[]
    ensures multiset(delivered) == multiset(r.states[3].watchers[0].owed) && Applied(delivered) == map[key := value]
  {
    r := Run([], [Empty(0, 0)]);
    r := Extended(r, Watch("", [], 0));
    r := Extended(r, Put(key, value, 0));
    r := Extended(r, Delete(key, 0));
    var owed := r.states[3].watchers[0].owed;
    assert owed == [PutNote(key, value), DeleteNote(key)];
    delivered := [DeleteNote(key), PutNote(key, value)];
    assert delivered == [DeleteNote(key)] + [PutNote(key, value)];
    AppliedNext([DeleteNote(key)], PutNote(key, value));
    AppliedNext([], DeleteNote(key));
    assert [] + [DeleteNote(key)] == [DeleteNote(key)];
  }

  // ----- who watches, and what -----

  /** WatchersConverge written out: a watcher of a key hears of that key alone, one of the empty key of all. */
  lemma WatcherHolds(r: Run, i: nat, n: nat, key: string)
    requires r.Valid() && i <= |r.actions| && n < |r.states[i].watchers|
    ensures var b, w := r.states[i], r.states[i].watchers[n]; var m := Applied(w.owed);
      (key in m ==> (w.key == "" || w.key == key) && key in b.entries && m[key] == b.entries[key].value) &&
      ((w.key == "" || w.key == key) && Get(b, key, b.clock).Some? ==> key in m && Get(b, key, b.clock).value.0 == m[key])
  {
    WatchersConverge(r, i);
  }

  /** The identities and keys of the watchers. */
  ghost function Roster(ws: seq<Watcher>): set<(nat, string)> {
    set n | 0 <= n < |ws| :: (ws[n].id, ws[n].key)
  }

  /** No two watchers have one identity, and the next is new. */
  ghost predicate Apart(ws: seq<Watcher>, nextId: nat) {
    (forall n | 0 <= n < |ws| :: ws[n].id < nextId) && forall m, n | 0 <= m < n < |ws| :: ws[m].id != ws[n].id
  }

  /** The same watchers, whatever they are owed. */
  ghost predicate SameWatchers(ws: seq<Watcher>, vs: seq<Watcher>) {
    |ws| == |vs| && forall n | 0 <= n < |ws| :: ws[n].id == vs[n].id && ws[n].key == vs[n].key
  }

  lemma {:induction false} DeletesKeepWatchers(ws: seq<Watcher>, keys: seq<string>)
    ensures SameWatchers(ws, NotifyDeletes(ws, keys))
    decreases |keys|
  {
    if keys != [] {
      DeletesKeepWatchers(ws, keys[..|keys| - 1]);
    }
  }

  lemma SameRoster(ws: seq<Watcher>, vs: seq<Watcher>, nextId: nat)
    requires SameWatchers(ws, vs) && Apart(ws, nextId)
    ensures Roster(ws) == Roster(vs) && Apart(vs, nextId)
  {
    assert forall n | 0 <= n < |ws| :: (ws[n].id, ws[n].key) == (vs[n].id, vs[n].key);
  }

  lemma RosterNext(ws: seq<Watcher>, w: Watcher)
    requires Apart(ws, w.id)
    ensures Roster(ws + [w]) == Roster(ws) + {(w.id, w.key)} && Apart(ws + [w], w.id + 1)
  {
    var vs := ws + [w];
    assert forall n | 0 <= n < |ws| :: vs[n] == ws[n];
    assert vs[|ws|] == w;
  }

  lemma {:induction false} RosterWithout(ws: seq<Watcher>, id: nat, nextId: nat)
    requires Apart(ws, nextId)
    ensures Apart(Without(ws, id), nextId)
    ensures forall x :: x in Roster(Without(ws, id)) <==> x in Roster(ws) && x.0 != id
  {
    if ws != [] {
      var w, rest := ws[0], ws[1..];
      RosterWithout(rest, id, nextId);
      assert ws == [w] + rest;
      RosterFirst(w, rest);
      assert forall x | x in Roster(rest) :: x.0 != w.id;
      if w.id != id {
        RosterFirst(w, Without(rest, id));
        ApartFirst(w, Without(rest, id), nextId);
      }
    }
  }

  lemma ApartFirst(w: Watcher, ws: seq<Watcher>, nextId: nat)
    requires w.id < nextId && Apart(ws, nextId) && forall x | x in Roster(ws) :: x.0 != w.id
    ensures Apart([w] + ws, nextId)
  {
    forall n | 0 <= n < |ws|
      ensures ws[n].id != w.id
    {
      assert (ws[n].id, ws[n].key) in Roster(ws);
    }
  }

  lemma RosterFirst(w: Watcher, ws: seq<Watcher>)
    ensures Roster([w] + ws) == {(w.id, w.key)} + Roster(ws)
  {
    var vs := [w] + ws;
    assert forall n | 0 <= n < |ws| :: vs[n + 1] == ws[n];
    assert forall n | 0 < n < |vs| :: vs[n] == ws[n - 1];
    assert vs[0] == w;
  }

  /** Action j registered a watcher that has not been taken off before i. */
  ghost predicate Registered(r: Run, j: int, i: int)
    requires r.Valid()
  {
    0 <= j < i <= |r.actions| && r.actions[j].Watch? &&
    forall k | j < k < i :: r.actions[k] != Unwatch(r.states[j].nextId, r.actions[k].now)
  }

  /** That watcher. */
  ghost function Registration(r: Run, j: nat): (nat, string)
    requires r.Valid() && j < |r.actions| && r.actions[j].Watch?
  {
    (r.states[j].nextId, r.actions[j].key)
  }

  /** How one action changes who watches. */
  lemma StepRoster(r: Run, i: nat)
    requires r.Valid() && i < |r.actions| && Apart(r.states[i].watchers, r.states[i].nextId)
    ensures Apart(r.states[i + 1].watchers, r.states[i + 1].nextId)
    ensures var a, was := r.actions[i], Roster(r.states[i].watchers);
      forall x :: x in Roster(r.states[i + 1].watchers) <==>
        (x in was && !(a.Unwatch? && a.id == x.0)) || (a.Watch? && x == (r.states[i].nextId, a.key))
  {
    assert r.StepAt(i);
    var b, b', a := r.states[i], r.states[i + 1], r.actions[i];
    match a
    case Put(_, _, _) => SameRoster(b.watchers, b'.watchers, b.nextId);
    case Delete(_, _) => SameRoster(b.watchers, b'.watchers, b.nextId);
    case Sweep(order, _) =>
      DeletesKeepWatchers(b.watchers, order);
      SameRoster(b.watchers, b'.watchers, b.nextId);
    case Watch(_, _, _) => RosterNext(b.watchers, b'.watchers[|b.watchers|]);
    case Unwatch(id, _) => RosterWithout(b.watchers, id, b.nextId);
  }

  /** In every run the watchers are those registered and not taken off since, each once. */
  lemma {:induction false} WatchersAreRegistered(r: Run, i: nat)
    requires r.Valid() && i <= |r.actions|
    ensures Apart(r.states[i].watchers, r.states[i].nextId)
    ensures forall x :: x in Roster(r.states[i].watchers) <==> exists j: nat :: Registered(r, j, i) && Registration(r, j) == x
  {
    if i > 0 {
      WatchersAreRegistered(r, i - 1);
      StepRoster(r, i - 1);
      forall x
        ensures x in Roster(r.states[i].watchers) <==> exists j: nat :: Registered(r, j, i) && Registration(r, j) == x
      {
        RegisteredNext(r, i, x);
      }
    }
  }

  lemma RegisteredNext(r: Run, i: nat, x: (nat, string))
    requires r.Valid() && 0 < i <= |r.actions|
    ensures var a := r.actions[i - 1];
      (exists j: nat :: Registered(r, j, i) && Registration(r, j) == x) <==>
      ((exists j: nat :: Registered(r, j, i - 1) && Registration(r, j) == x) && !(a.Unwatch? && a.id == x.0)) ||
      (a.Watch? && Registration(r, i - 1) == x)
  {
    var a := r.actions[i - 1];
    if j: nat :| Registered(r, j, i) && Registration(r, j) == x {
      assert j < i - 1 ==> Registered(r, j, i - 1);
    }
    if !(a.Unwatch? && a.id == x.0) {
      if j: nat :| Registered(r, j, i - 1) && Registration(r, j) == x {
        assert Registered(r, j, i);
      }
    }
    if a.Watch? && Registration(r, i - 1) == x {
      assert Registered(r, i - 1, i);
    }
  }

  /** What one action owes a watcher of the key. */
  ghost function NotesOf(a: Action, watched: string): seq<Note> {
    match a
    case Put(key, value, _) => if watched == "" || watched == key then [PutNote(key, value)] else []
    case Delete(key, _) => if watched == "" || watched == key then [DeleteNote(key)] else []
    case Sweep(order, _) => DeleteNotes(order, watched)
    case _ => []
  }

  ghost function DeleteNotes(keys: seq<string>, watched: string): seq<Note> {
    if keys == [] then []
    else
      var k := keys[|keys| - 1];
      DeleteNotes(keys[..|keys| - 1], watched) + if watched == "" || watched == k then [DeleteNote(k)] else []
  }

  /** What actions [j, i) owe a watcher of the key, in order. */
  ghost function NotesIn(actions: seq<Action>, watched: string, j: nat, i: nat): seq<Note>
    requires i <= |actions|
  {
    if i <= j then [] else NotesIn(actions, watched, j, i - 1) + NotesOf(actions[i - 1], watched)
  }

  lemma {:induction false} DeletesOwed(ws: seq<Watcher>, keys: seq<string>, n: nat)
    requires n < |ws|
    ensures NotifyDeletes(ws, keys)[n] == ws[n].(owed := ws[n].owed + DeleteNotes(keys, ws[n].key))
    decreases |keys|
  {
    if keys == [] {
      assert ws[n].owed + [] == ws[n].owed;
    } else {
      var init, k := keys[..|keys| - 1], keys[|keys| - 1];
      DeletesOwed(ws, init, n);
      var more := if ws[n].key == "" || ws[n].key == k then [DeleteNote(k)] else [];
      assert ws[n].owed + DeleteNotes(init, ws[n].key) + more == ws[n].owed + (DeleteNotes(init, ws[n].key) + more);
    }
  }

  /** A watcher after an action was there before it, and is owed what the action owes it; or the action registered it. */
  lemma StepOwes(r: Run, i: nat, n: nat) returns (m: int)
    requires r.Valid() && i < |r.actions| && n < |r.states[i + 1].watchers|
    ensures var b, w, a := r.states[i], r.states[i + 1].watchers[n], r.actions[i];
      if a.Watch? && n == |b.watchers| then
        m == -1 && r.StepAt(i) && w == Watcher(b.nextId, a.key, Replayed(b, a.key, a.order, a.now))
      else
        0 <= m < |b.watchers| && w == b.watchers[m].(owed := b.watchers[m].owed + NotesOf(a, w.key))
  {
    assert r.StepAt(i);
    var b, w, a := r.states[i], r.states[i + 1].watchers[n], r.actions[i];
    m := if a.Watch? && n == |b.watchers| then -1 else n;
    match a
    case Put(_, _, _) => assert b.watchers[n].owed + [] == b.watchers[n].owed;
    case Delete(_, _) => assert b.watchers[n].owed + [] == b.watchers[n].owed;
    case Sweep(order, _) => DeletesOwed(b.watchers, order, n);
    case Watch(_, _, _) => assert n < |b.watchers| ==> b.watchers[n].owed + [] == b.watchers[n].owed;
    case Unwatch(id, _) =>
      WithoutIsPart(b.watchers, id);
      assert w in b.watchers;
      m :| 0 <= m < |b.watchers| && b.watchers[m] == w;
      assert w.owed + [] == w.owed;
  }

  /**
  In every run a watcher is owed, in this order and nothing else: the entries current when it was registered,
  and one note for each put, delete and swept key since that it watches.
  */
  lemma {:induction false} WatcherIsOwed(r: Run, i: nat, n: nat) returns (j: nat)
    requires r.Valid() && i <= |r.actions| && n < |r.states[i].watchers|
    ensures j < i && r.actions[j].Watch? && r.StepAt(j)
    ensures var w, a := r.states[i].watchers[n], r.actions[j];
      (w.id, w.key) == Registration(r, j) &&
      w.owed == Replayed(r.states[j], a.key, a.order, a.now) + NotesIn(r.actions, w.key, j + 1, i)
    decreases i
  {
    assert i > 0;
    var w := r.states[i].watchers[n];
    var m := StepOwes(r, i - 1, n);
    if m == -1 {
      j := i - 1;
      assert w.owed + [] == w.owed;
    } else {
      j := WatcherIsOwed(r, i - 1, m);
      var a := r.actions[j];
      JoinNotes(Replayed(r.states[j], a.key, a.order, a.now), NotesIn(r.actions, w.key, j + 1, i - 1), NotesOf(r.actions[i - 1], w.key));
    }
  }

  lemma JoinNotes(a: seq<Note>, b: seq<Note>, c: seq<Note>)
    ensures a + b + c == a + (b + c)
  {
  }

  /** The entries a new watcher is told of are the ones it watches that can be read, each with its value. */
  lemma {:induction false} ReplayedIff(b: Bucket, watched: string, order: seq<string>, now: int, note: Note)
    requires forall i | 0 <= i < |order| :: order[i] in b.entries
    ensures note in Replayed(b, watched, order, now) <==>
            note.PutNote? && note.key in order && (watched == "" || watched == note.key) &&
            Get(b, note.key, now).Some? && Get(b, note.key, now).value.0 == note.value
    decreases |order|
  {
    if order != [] {
      var init, k := order[..|order| - 1], order[|order| - 1];
      ReplayedIff(b, watched, init, now, note);
      assert order == init + [k];
    }
  }

  // ----- sweeps -----

  /** No watcher that has applied what it is owed holds the key. */
  ghost predicate HeldByNone(b: Bucket, key: string) {
    forall n | 0 <= n < |b.watchers| :: key !in Applied(b.watchers[n].owed)
  }

  /**
  A sweep leaves no entry whose lifetime is over at its time, in the bucket or with any watcher, and takes
  no other.
  */
  lemma SweepClears(r: Run, i: nat, key: string) returns (p: int)
    requires r.Valid() && i < |r.actions| && r.actions[i].Sweep?
    ensures p == -1 || LatestPut(r, key, p, i)
    ensures p == -1 ==> key !in r.states[i + 1].entries
    ensures p >= 0 ==> var over := r.actions[p].now + r.states[0].ttl < r.actions[i].now;
      (over ==> key !in r.states[i + 1].entries) &&
      (!over && key in r.states[i].entries ==> key in r.states[i + 1].entries)
    ensures key !in r.states[i + 1].entries ==> HeldByNone(r.states[i + 1], key)
  {
    p := EntryIsLatestPut(r, key, i);
    assert r.StepAt(i);
    assert key in r.states[i].entries ==>
      (key in Elements(r.actions[i].order) <==> Expired(r.states[i].entries[key], r.actions[i].now));
    WatchersConverge(r, i + 1);
  }

  /** A sweep changes no answer, at its own time or later. */
  lemma SweepInvisible(b: Bucket, a: Action, key: string, now: int)
    requires a.Sweep? && Enabled(b, a) && now >= a.now
    ensures Get(Step(b, a), key, now) == Get(b, key, now)
    ensures Keys(Step(b, a), now) == Keys(b, now)
  {
  }

  // ----- a read sees the last write -----

  /** Action p put the key and nothing has put or deleted it since. */
  ghost predicate LatestPut(r: Run, key: string, p: int, i: nat) {
    0 <= p < i <= |r.actions| && r.actions[p].Put? && r.actions[p].key == key &&
    forall k | p < k < i :: !(r.actions[k].Put? && r.actions[k].key == key) && !(r.actions[k].Delete? && r.actions[k].key == key)
  }

  ghost predicate NeverPut(r: Run, key: string, i: nat) {
    forall q :: !LatestPut(r, key, q, i)
  }

  /** The number of puts among the first i actions: the bucket's revision. */
  ghost function Puts(actions: seq<Action>, i: nat): nat
    requires i <= |actions|
  {
    if i == 0 then 0 else Puts(actions, i - 1) + if actions[i - 1].Put? then 1 else 0
  }

  ghost function Lifetime(ttl: int, put: Action): Option<int>
    requires put.Put?
  {
    if ttl > 0 then Some(put.now + ttl) else None
  }

  lemma {:induction false} EntryIsLatestPut(r: Run, key: string, i: nat) returns (p: int)
    requires r.Valid() && i <= |r.actions|
    ensures r.states[i].ttl == r.states[0].ttl && r.states[i].revision == Puts(r.actions, i)
    ensures p == -1 || LatestPut(r, key, p, i)
    ensures p == -1 ==> key !in r.states[i].entries && NeverPut(r, key, i)
    ensures p >= 0 && key in r.states[i].entries ==>
              r.states[i].entries[key] ==
              Entry(r.actions[p].value, Puts(r.actions, p) + 1, Lifetime(r.states[0].ttl, r.actions[p]))
    ensures p >= 0 && key !in r.states[i].entries ==>
              r.states[0].ttl > 0 && r.states[i].clock > r.actions[p].now + r.states[0].ttl
  {
    if i == 0 {
      return -1;
    }
    p := EntryIsLatestPut(r, key, i - 1);
    assert r.StepAt(i - 1);
    var a := r.actions[i - 1];
    assert forall q | LatestPut(r, key, q, i) :: q == i - 1 || LatestPut(r, key, q, i - 1);
    if a.Put? && a.key == key {
      p := i - 1;
    } else if a.Delete? && a.key == key {
      p := -1;
    }
  }

  /**
  At any time from the last action on, a read of a key yields the value and revision of its latest put,
  unless the key was deleted since or the put's lifetime is over; revisions count the puts.
  */
  lemma GetIsLatestPut(r: Run, key: string, i: nat, now: int) returns (p: int)
    requires r.Valid() && i <= |r.actions| && r.states[i].clock <= now
    ensures p == -1 || LatestPut(r, key, p, i)
    ensures p == -1 ==> NeverPut(r, key, i)
    ensures Get(r.states[i], key, now) ==
            if p == -1 || (r.states[0].ttl > 0 && now > r.actions[p].now + r.states[0].ttl) then None
            else Some((r.actions[p].value, Puts(r.actions, p) + 1))
  {
    p := EntryIsLatestPut(r, key, i);
  }

  /** What is listed is what can be read. */
  lemma ListedIffRead(b: Bucket, key: string, now: int)
    ensures key in Keys(b, now) <==> Get(b, key, now).Some?
  {
  }

  /** In terms of the puts: a key is listed exactly when its latest put was not deleted and its lifetime is not over. */
  lemma ListedIffLatestPutLives(r: Run, key: string, i: nat, now: int)
    requires r.Valid() && i <= |r.actions| && r.states[i].clock <= now
    ensures key in Keys(r.states[i], now) <==>
            exists p :: LatestPut(r, key, p, i) && (r.states[0].ttl <= 0 || now <= r.actions[p].now + r.states[0].ttl)
  {
    var p := GetIsLatestPut(r, key, i, now);
    ListedIffRead(r.states[i], key, now);
  }

  // ----- what reads see depends on the writes alone -----

  /** The puts and deletes among the first i actions. */
  function Writes(actions: seq<Action>, i: nat): seq<Action>
    requires i <= |actions|
  {
    if i == 0 then []
    else if actions[i - 1].Put? || actions[i - 1].Delete? then Writes(actions, i - 1) + [actions[i - 1]]
    else Writes(actions, i - 1)
  }

  /** The put that the first i actions leave in force for a key, with its revision. */
  ghost function InForce(actions: seq<Action>, i: nat, key: string): Option<(Action, nat)>
    requires i <= |actions|
  {
    if i == 0 then None
    else if actions[i - 1].Put? && actions[i - 1].key == key then Some((actions[i - 1], Puts(actions, i)))
    else if actions[i - 1].Delete? && actions[i - 1].key == key then None
    else InForce(actions, i - 1, key)
  }

  lemma {:induction false} InForceIsLatestPut(r: Run, key: string, p: int, i: nat)
    requires i <= |r.actions| && if p == -1 then NeverPut(r, key, i) else LatestPut(r, key, p, i)
    ensures InForce(r.actions, i, key) == if p == -1 then None else Some((r.actions[p], Puts(r.actions, p) + 1))
    decreases i
  {
    if i > 0 && p < i - 1 {
      var a, j: nat := r.actions[i - 1], i - 1;
      assert a.Put? && a.key == key ==> LatestPut(r, key, j, i);
      if !(a.Delete? && a.key == key) {
        assert forall q | LatestPut(r, key, q, j) :: LatestPut(r, key, q, i);
        InForceIsLatestPut(r, key, p, j);
      }
    }
  }

  lemma {:induction false} PrefixInForce(s: seq<Action>, t: seq<Action>, i: nat, key: string)
    requires i <= |s| && s <= t
    ensures InForce(t, i, key) == InForce(s, i, key) && Puts(t, i) == Puts(s, i)
  {
    if i > 0 {
      PrefixInForce(s, t, i - 1, key);
      assert s[i - 1] == t[i - 1];
    }
  }

  lemma {:induction false} InForceOfWrites(actions: seq<Action>, i: nat, key: string)
    requires i <= |actions|
    ensures var ws := Writes(actions, i);
      InForce(ws, |ws|, key) == InForce(actions, i, key) && Puts(ws, |ws|) == Puts(actions, i)
  {
    if i > 0 {
      InForceOfWrites(actions, i - 1, key);
      PrefixInForce(Writes(actions, i - 1), Writes(actions, i), |Writes(actions, i - 1)|, key);
    }
  }

  /** What a read finds, from the put in force alone. */
  ghost function Answer(ttl: int, put: Option<(Action, nat)>, now: int): Option<(string, nat)>
    requires put.Some? ==> put.value.0.Put?
  {
    if put.None? || (ttl > 0 && now > put.value.0.now + ttl) then None else Some((put.value.0.value, put.value.1))
  }

  lemma {:induction false} InForceIsPut(actions: seq<Action>, i: nat, key: string)
    requires i <= |actions|
    ensures InForce(actions, i, key).Some? ==> InForce(actions, i, key).value.0.Put?
  {
    if i > 0 {
      InForceIsPut(actions, i - 1, key);
    }
  }

  lemma GetByWrites(r: Run, key: string, now: int)
    requires r.Valid() && r.states[|r.actions|].clock <= now
    ensures var ws := Writes(r.actions, |r.actions|);
      (InForce(ws, |ws|, key).Some? ==> InForce(ws, |ws|, key).value.0.Put?) &&
      Get(r.states[|r.actions|], key, now) == Answer(r.states[0].ttl, InForce(ws, |ws|, key), now)
  {
    var p := GetIsLatestPut(r, key, |r.actions|, now);
    InForceIsLatestPut(r, key, p, |r.actions|);
    InForceOfWrites(r.actions, |r.actions|, key);
    InForceIsPut(r.actions, |r.actions|, key);
  }

  /**
  Two runs with the same puts and deletes, whatever sweeps and watches come between them, give every read
  and every key listing the same answer from then on.
  */
  lemma WritesDecide(r: Run, s: Run, now: int)
    requires r.Valid() && s.Valid() && r.states[0].ttl == s.states[0].ttl
    requires Writes(r.actions, |r.actions|) == Writes(s.actions, |s.actions|)
    requires r.states[|r.actions|].clock <= now && s.states[|s.actions|].clock <= now
    ensures forall key :: Get(r.states[|r.actions|], key, now) == Get(s.states[|s.actions|], key, now)
    ensures Keys(r.states[|r.actions|], now) == Keys(s.states[|s.actions|], now)
  {
    forall key
      ensures Get(r.states[|r.actions|], key, now) == Get(s.states[|s.actions|], key, now)
    {
      GetByWrites(r, key, now);
      GetByWrites(s, key, now);
    }
    forall key
      ensures key in Keys(r.states[|r.actions|], now) <==> key in Keys(s.states[|s.actions|], now)
    {
      assert Get(r.states[|r.actions|], key, now) == Get(s.states[|s.actions|], key, now);
    }
  }
}

/** The bucket as the source keeps it. */
module KeyValueBus {
  import opened Common
  import opened KvModel

  class KvBucket {
    const ttl: int
    var entries: map<string, Entry>
    var revision: nat
    var watchers: seq<Watcher>
    var nextId: nat
    ghost var clock: int

    ghost function View(): Bucket
      reads this
    {
      Bucket(ttl, entries, revision, watchers, nextId, clock)
    }

    constructor (timeToLive: int, ghost now: int)
      ensures View() == Empty(timeToLive, now)
    {
      ttl, entries, revision, watchers, nextId, clock := timeToLive, map[], 0, [], 0, now;
    }

    method Get(key: string, now: int) returns (r: Option<(string, nat)>)
      ensures r == KvModel.Get(View(), key, now)
    {
      if key !in entries {
        return None;
      }
      var e := entries[key];
      if e.expires.Some? && now > e.expires.value {
        return None;
      }
      return Some((e.value, e.revision));
    }

    method Keys(now: int) returns (keys: seq<string>)
      ensures Elements(keys) == KvModel.Keys(View(), now)
      ensures forall i, j | 0 <= i < j < |keys| :: keys[i] != keys[j]
    {
      keys := [];
      var todo := entries.Keys;
      while todo != {}
        invariant todo <= entries.Keys
        invariant forall k | k in keys :: k in entries && !Expired(entries[k], now) && k !in todo
        invariant forall k | k in entries && k !in todo && !Expired(entries[k], now) :: k in keys
        invariant forall i, j | 0 <= i < j < |keys| :: keys[i] != keys[j]
        decreases |todo|
      {
        var k :| k in todo;
        todo := todo - {k};
        if !Expired(entries[k], now) {
          keys := keys + [k];
        }
      }
    }

    method Put(key: string, value: string, now: int) returns (rev: nat)
      requires clock <= now
      modifies this
      ensures View() == Step(old(View()), Action.Put(key, value, now)) && rev == revision
    {
      revision := revision + 1;
      rev := revision;
      var expires := if ttl > 0 then Some(now + ttl) else None;
      entries := entries[key := Entry(value, rev, expires)];
      clock := now;
      NotifyAll(PutNote(key, value));
    }

    method Delete(key: string, now: int)
      requires clock <= now
      modifies this
      ensures View() == Step(old(View()), Action.Delete(key, now))
    {
      entries := entries - {key};
      clock := now;
      NotifyAll(DeleteNote(key));
    }

    method NotifyAll(n: Note)
      modifies this`watchers
      ensures watchers == Notify(old(watchers), n)
    {
      for i := 0 to |watchers|
        invariant |watchers| == |old(watchers)|
        invariant forall k | 0 <= k < |watchers| ::
          watchers[k] == if k < i then Notify(old(watchers), n)[k] else old(watchers)[k]
      {
        var w := watchers[i];
        if w.key == "" || w.key == n.key {
          watchers := watchers[i := w.(owed := w.owed + [n])];
        }
      }
    }

    /** The keys in the order the map happens to be walked. */
    method Walk() returns (order: seq<string>)
      ensures Walks(order, entries.Keys)
    {
      order := [];
      var todo := entries.Keys;
      while todo != {}
        invariant todo <= entries.Keys && Walks(order, entries.Keys - todo)
        decreases |todo|
      {
        var k :| k in todo;
        WalksNext(order, entries.Keys - todo, k);
        assert entries.Keys - todo + {k} == entries.Keys - (todo - {k});
        todo := todo - {k};
        order := order + [k];
      }
    }

    /** The snapshot replayed to a new watcher of `key`. */
    method Existing(key: string, order: seq<string>, now: int) returns (existing: seq<Note>)
      requires forall i | 0 <= i < |order| :: order[i] in entries
      ensures existing == Replayed(View(), key, order, now)
    {
      existing := [];
      for i := 0 to |order|
        invariant existing == Replayed(View(), key, order[..i], now)
      {
        ReplayedNext(View(), key, order, i, now);
        var e := entries[order[i]];
        if e.expires.Some? && now > e.expires.value {
          continue;
        }
        if key == "" || key == order[i] {
          existing := existing + [PutNote(order[i], e.value)];
        }
      }
      assert order[..|order|] == order;
    }

    method Watch(key: string, now: int) returns (id: nat, ghost order: seq<string>)
      requires clock <= now
      modifies this
      ensures id == old(nextId) && Walks(order, old(entries).Keys)
      ensures View() == Step(old(View()), Action.Watch(key, order, now))
    {
      var keys := Walk();
      order := keys;
      assert forall i | 0 <= i < |keys| :: keys[i] in Elements(keys);
      var existing := Existing(key, keys, now);
      id := nextId;
      watchers := watchers + [Watcher(id, key, existing)];
      nextId := nextId + 1;
      clock := now;
    }

    method Unwatch(id: nat, now: int)
      requires clock <= now
      modifies this
      ensures View() == Step(old(View()), Action.Unwatch(id, now))
    {
      clock := now;
      ghost var ws := watchers;
      for i := 0 to |watchers|
        invariant View() == old(View()).(clock := now) && Without(ws, id) == ws[..i] + Without(ws[i..], id)
      {
        WithoutNext(ws, id, i);
        if watchers[i].id == id {
          watchers := watchers[..i] + watchers[i + 1..];
          return;
        }
      }
    }

    /** The keys a sweep removes, gathered in the order the map is walked. */
    method Overdue(now: int) returns (expired: seq<string>)
      ensures Walks(expired, ExpiredKeys(View(), now))
    {
      expired := [];
      var todo := entries.Keys;
      while todo != {}
        invariant todo <= entries.Keys && Walks(expired, ExpiredKeys(View(), now) - todo)
        decreases |todo|
      {
        var k :| k in todo;
        ghost var found := ExpiredKeys(View(), now) - todo;
        todo := todo - {k};
        assert ExpiredKeys(View(), now) - todo == if Expired(entries[k], now) then found + {k} else found;
        if Expired(entries[k], now) {
          WalksNext(expired, found, k);
          expired := expired + [k];
        }
      }
    }

    /** One bucket's part of expireTTL, which leaves buckets without a lifetime alone. */
    method Sweep(now: int) returns (expired: seq<string>)
      modifies this
      ensures ttl <= 0 ==> View() == old(View())
      ensures ttl > 0 ==> Walks(expired, ExpiredKeys(old(View()), now)) &&
                          View() == Step(old(View()), Action.Sweep(expired, now))
    {
      expired := [];
      if ttl <= 0 {
        return;
      }
      expired := Overdue(now);
      ghost var before := View();
      for i := 0 to |expired|
        invariant View() == before.(entries := before.entries - Elements(expired[..i]))
      {
        assert Elements(expired[..i + 1]) == Elements(expired[..i]) + {expired[i]};
        entries := entries - {expired[i]};
      }
      clock := Later(clock, now);
      for i := 0 to |expired|
        invariant View() == before.(entries := before.entries - Elements(expired[..|expired|]), clock := Later(before.clock, now),
                                    watchers := NotifyDeletes(before.watchers, expired[..i]))
      {
        assert expired[..i + 1][..i] == expired[..i];
        NotifyAll(DeleteNote(expired[i]));
      }
      assert expired[..|expired|] == expired;
    }
  }

  // ----- subjects -----

  /** The position of the first `>`, or the number of tokens. */
  function FirstTail(pattern: seq<string>): (i: nat)
    ensures i <= |pattern| && ">" !in pattern[..i] && (i < |pattern| ==> pattern[i] == ">")
  {
    if pattern == [] || pattern[0] == ">" then 0 else
      var i := FirstTail(pattern[1..]);
      assert pattern[..i + 1] == [pattern[0]] + pattern[1..][..i];
      i + 1
  }

  predicate TokenMatches(p: string, s: string) {
    p == "*" || p == s
  }

  /** Token by token up to `>`, which stands for one or more; without `>` the lengths agree. */
  ghost predicate SubjectMatches(pattern: seq<string>, subject: seq<string>) {
    var tail := FirstTail(pattern);
    (if tail < |pattern| then tail < |subject| else |subject| == |pattern|) &&
    forall i | 0 <= i < tail :: TokenMatches(pattern[i], subject[i])
  }

  /** Read off the front: `>` takes all that is left, if anything is, `*` takes one token, and a word itself. */
  predicate Takes(pattern: seq<string>, subject: seq<string>) {
    if pattern == [] || subject == [] then pattern == subject
    else pattern[0] == ">" || ((pattern[0] == "*" || pattern[0] == subject[0]) && Takes(pattern[1..], subject[1..]))
  }

  /** Both readings of a pattern agree. */
  lemma {:induction false} MatchesIffTakes(pattern: seq<string>, subject: seq<string>)
    ensures SubjectMatches(pattern, subject) <==> Takes(pattern, subject)
    decreases |pattern|
  {
    if pattern != [] && subject != [] && pattern[0] != ">" {
      MatchesIffTakes(pattern[1..], subject[1..]);
      FirstToken(pattern, subject);
    }
  }

  lemma FirstToken(pattern: seq<string>, subject: seq<string>)
    requires pattern != [] && subject != [] && pattern[0] != ">"
    ensures SubjectMatches(pattern, subject) <==>
            TokenMatches(pattern[0], subject[0]) && SubjectMatches(pattern[1..], subject[1..])
  {
    var tail := FirstTail(pattern);
    assert tail == FirstTail(pattern[1..]) + 1;
    if SubjectMatches(pattern, subject) {
      forall i | 0 <= i < tail - 1
        ensures TokenMatches(pattern[1..][i], subject[1..][i])
      {
        assert TokenMatches(pattern[i + 1], subject[i + 1]);
      }
    }
    if TokenMatches(pattern[0], subject[0]) && SubjectMatches(pattern[1..], subject[1..]) {
      forall i | 0 <= i < tail
        ensures TokenMatches(pattern[i], subject[i])
      {
        assert i > 0 ==> TokenMatches(pattern[1..][i - 1], subject[1..][i - 1]);
      }
    }
  }

  function Join(tokens: seq<string>): string {
    if tokens == [] then ""
    else if |tokens| == 1 then tokens[0]
    else Join(tokens[..|tokens| - 1]) + "." + tokens[|tokens| - 1]
  }

  predicate AreTokens(tokens: seq<string>) {
    tokens != [] && forall i | 0 <= i < |tokens| :: '.' !in tokens[i]
  }

  /** The string cut at its dots. */
  function Split(s: string): (tokens: seq<string>)
    ensures AreTokens(tokens) && Join(tokens) == s
  {
    if s == "" then [""]
    else
      var tokens, c := Split(s[..|s| - 1]), s[|s| - 1];
      assert s == s[..|s| - 1] + [c];
      JoinDot(tokens);
      JoinChar(tokens, c);
      if c == '.' then tokens + [""] else tokens[..|tokens| - 1] + [tokens[|tokens| - 1] + [c]]
  }

  lemma JoinDot(tokens: seq<string>)
    requires tokens != []
    ensures Join(tokens + [""]) == Join(tokens) + "."
  {
    assert (tokens + [""])[..|tokens|] == tokens;
    assert Join(tokens) + "." + "" == Join(tokens) + ".";
  }

  lemma JoinChar(tokens: seq<string>, c: char)
    requires tokens != []
    ensures Join(tokens[..|tokens| - 1] + [tokens[|tokens| - 1] + [c]]) == Join(tokens) + [c]
  {
    var init, last := tokens[..|tokens| - 1], tokens[|tokens| - 1];
    assert (init + [last + [c]])[..|init|] == init;
    if init != [] {
      Regroup(Join(init) + ".", last, [c]);
    }
  }

  lemma Regroup(a: string, b: string, c: string)
    ensures a + (b + c) == a + b + c
  {
  }

  method MatchSubject(pattern: string, subject: string) returns (r: bool)
    ensures r <==> SubjectMatches(Split(pattern), Split(subject))
  {
    r := MatchTokens(Split(pattern), Split(subject));
  }

  /** matchSubject on the tokens of pattern and subject. */
  method MatchTokens(pattern: seq<string>, subject: seq<string>) returns (r: bool)
    ensures r <==> SubjectMatches(pattern, subject)
  {
    ghost var tail := FirstTail(pattern);
    for i := 0 to |pattern|
      invariant i <= tail && i <= |subject|
      invariant forall k | 0 <= k < i :: TokenMatches(pattern[k], subject[k])
    {
      assert i < tail ==> pattern[i] == pattern[..tail][i];
      if pattern[i] == ">" {
        return i < |subject|;
      }
      if i >= |subject| {
        return false;
      }
      if pattern[i] != "*" && pattern[i] != subject[i] {
        return false;
      }
    }
    return |pattern| == |subject|;
  }
}
