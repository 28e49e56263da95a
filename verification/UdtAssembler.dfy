/**
The debounced UDT assembler of internal/gateway/udt.go: member updates restart a timer whose callback
publishes the assembled object, subject to report by exception. Times are milliseconds.

Timers belong to the environment: `armed` holds those still running and `waiting` counts callbacks
that have started and wait for the lock, so every interleaving of updates and callbacks is a run.
*/
module UdtModel {
  import opened Common

  const DEBOUNCE: int := 100

  /**
  A Go value: its type, whether values of that type can be compared, its JSON text unless it has none, and
  its float64 if it has one.
  */
  datatype Value = Value(kind: string, comparable: bool, json: Option<string>, float: Option<real>)

  datatype Deadband = Deadband(value: real, minTime: int, maxTime: int)

  datatype Config = Config(
    members: seq<string>,
    deadband: Option<Deadband>,
    memberDeadbands: map<string, real>,
    disableRbe: bool)

  /**
  `lastValues` is absent and `lastPubTime` is 0 before the first publish; `lastJson` is absent until an
  object that has a JSON text is recorded.
  */
  datatype Assembler = Assembler(
    values: map<string, Value>,
    dirty: bool,
    timer: Option<nat>,
    lastJson: Option<map<string, string>>,
    lastValues: Option<map<string, Value>>,
    lastPubTime: int,
    armed: map<nat, int>,
    waiting: nat,
    nextTimer: nat,
    crashed: bool)

  const NEW: Assembler := Assembler(map[], false, None, None, None, 0, map[], 0, 0, false)

  /**
  A callback is told whether the bus accepts what it publishes, and `order` is the order in which the map
  of the assembled members is walked.
  */
  datatype Action =
    | SetMember(name: string, value: Value, now: int)
    | Fire(id: nat, now: int)
    | Callback(now: int, delivered: bool, order: seq<string>)
    | Stop

  function Assembled(c: Config, values: map<string, Value>): map<string, Value> {
    map m | m in values && m in c.members :: values[m]
  }

  predicate Encodes(obj: map<string, Value>) {
    forall m | m in obj :: obj[m].json.Some?
  }

  /** The JSON text of an object is given by the text of each member; it has none when a member has none. */
  function Json(obj: map<string, Value>): Option<map<string, string>> {
    if Encodes(obj) then Some(map m | m in obj :: obj[m].json.value) else None
  }

  /** What looking at one member tells: no change to publish, one, or a comparison that panics. */
  datatype Check = Same | Changed | Clash

  /** Go compares two values of one type that cannot be compared by panicking. */
  function CheckMember(c: Config, m: string, cur: Value, last: map<string, Value>): Check {
    if m !in last then Changed
    else if m in c.memberDeadbands && cur.float.Some? && last[m].float.Some? then
      if Abs(cur.float.value - last[m].float.value) > c.memberDeadbands[m] then Changed else Same
    else if cur.kind == last[m].kind && !cur.comparable then Clash
    else if cur != last[m] then Changed
    else Same
  }

  /** The members are looked at in order, up to the first that is not the same. */
  function Scan(c: Config, order: seq<string>, cur: map<string, Value>, last: map<string, Value>): Check
    requires forall m | m in order :: m in cur
  {
    if order == [] then if last.Keys <= cur.Keys then Same else Changed
    else if CheckMember(c, order[0], cur[order[0]], last) != Same then CheckMember(c, order[0], cur[order[0]], last)
    else Scan(c, order[1..], cur, last)
  }

  ghost predicate Walks(order: seq<string>, keys: set<string>) {
    (forall m :: m in order <==> m in keys) && forall i, j | 0 <= i < j < |order| :: order[i] != order[j]
  }

  /** Starts a timer and remembers it as the current one. */
  function Arm(a: Assembler, deadline: int): Assembler {
    a.(timer := Some(a.nextTimer), armed := a.armed[a.nextTimer := deadline], nextTimer := a.nextTimer + 1)
  }

  /** Cancels the current timer if it is still running. */
  function Disarm(a: Assembler): Assembler {
    if a.timer.Some? then a.(armed := a.armed - {a.timer.value}) else a
  }

  /** `Abandon` is the way out when the object to compare has no JSON text. */
  datatype Verdict = Publish | Defer(deadline: int) | Suppress | Abandon | Panic

  function OfCheck(check: Check): Verdict {
    match check
    case Same => Suppress
    case Changed => Publish
    case Clash => Panic
  }

  /** What a callback does with a dirty assembler. */
  function Judge(c: Config, a: Assembler, now: int, order: seq<string>): Verdict
    requires forall m | m in order :: m in Assembled(c, a.values)
  {
    if c.disableRbe || a.lastPubTime <= 0 then Publish
    else
      var elapsed := now - a.lastPubTime;
      var cur := Assembled(c, a.values);
      if c.deadband.Some? && c.deadband.value.maxTime > 0 && elapsed >= c.deadband.value.maxTime then Publish
      else if c.deadband.Some? && c.deadband.value.minTime > 0 && elapsed < c.deadband.value.minTime then
        Defer(now + (c.deadband.value.minTime - elapsed))
      else if c.memberDeadbands != map[] && a.lastValues.Some? then
        OfCheck(Scan(c, order, cur, a.lastValues.value))
      else if !Encodes(cur) then Abandon
      else if a.lastJson == Json(cur) then Suppress
      else Publish
  }

  function Apply(c: Config, a: Assembler, verdict: Verdict, now: int): Assembler {
    match verdict
    case Panic => a.(dirty := false, crashed := true)
    case Suppress => a.(dirty := false)
    case Abandon => a.(dirty := false)
    case Defer(deadline) => Arm(a, deadline)
    case Publish =>
      var cur := Assembled(c, a.values);
      a.(dirty := false, lastJson := Json(cur), lastValues := Some(cur), lastPubTime := now)
  }

  /** A timer fires only once it is due, a callback runs only once started, and nothing runs after a panic. */
  ghost predicate Enabled(c: Config, a: Assembler, x: Action) {
    !a.crashed &&
    match x
    case Fire(id, now) => id in a.armed && a.armed[id] <= now
    case Callback(_, _, order) => a.waiting > 0 && Walks(order, Assembled(c, a.values).Keys)
    case _ => true
  }

  ghost function Step(c: Config, a: Assembler, x: Action): Assembler
    requires Enabled(c, a, x)
  {
    match x
    case SetMember(name, value, now) => Arm(Disarm(a.(values := a.values[name := value], dirty := true)), now + DEBOUNCE)
    case Fire(id, _) => a.(armed := a.armed - {id}, waiting := a.waiting + 1)
    case Callback(now, _, order) =>
      var a' := a.(waiting := a.waiting - 1);
      if a.dirty then Apply(c, a', Judge(c, a, now, order), now) else a'
    case Stop => Disarm(a).(timer := None)
  }

  /** The object the action records as published, if it does. */
  ghost function Recorded(c: Config, a: Assembler, x: Action): Option<map<string, Value>>
    requires Enabled(c, a, x)
  {
    if x.Callback? && a.dirty && Judge(c, a, x.now, x.order) == Publish then Some(Assembled(c, a.values)) else None
  }

  /** The object the action gets out: the one it records, if that has a JSON text and the bus accepts it. */
  ghost function Sent(c: Config, a: Assembler, x: Action): Option<map<string, Value>>
    requires Enabled(c, a, x)
  {
    if x.Callback? && x.delivered && Encodes(Assembled(c, a.values)) then Recorded(c, a, x) else None
  }
}

/** What holds in every run. */
module UdtRuns {
  import opened Common
  import opened UdtModel

  datatype Run = Run(config: Config, actions: seq<Action>, states: seq<Assembler>) {
    ghost predicate Valid() {
      |states| == |actions| + 1 && states[0] == NEW && forall i | 0 <= i < |actions| :: StepAt(i)
    }

    ghost predicate StepAt(i: nat)
      requires i < |actions| < |states|
    {
      Enabled(config, states[i], actions[i]) && states[i + 1] == Step(config, states[i], actions[i]) &&
      (actions[i].Callback? ==> actions[i].now > 0)
    }

    /** Action i publishes. */
    ghost predicate Publishes(i: int)
      requires Valid()
    {
      0 <= i < |actions| && StepAt(i) && Sent(config, states[i], actions[i]).Some?
    }

    /** Action i records a publish, sent or not. */
    ghost predicate Records(i: int)
      requires Valid()
    {
      0 <= i < |actions| && StepAt(i) && Recorded(config, states[i], actions[i]).Some?
    }
  }

  // ----- an unpublished change always has a callback coming -----

  ghost predicate PublishPending(a: Assembler) {
    a.waiting > 0 || (a.timer.Some? && a.timer.value in a.armed)
  }

  ghost predicate TimersKnown(a: Assembler) {
    (forall id | id in a.armed :: id < a.nextTimer) && (a.timer.Some? ==> a.timer.value < a.nextTimer)
  }

  lemma {:induction false} DirtyIsPending(r: Run, i: nat)
    requires r.Valid() && i <= |r.actions| && forall k | 0 <= k < i :: !r.actions[k].Stop?
    ensures TimersKnown(r.states[i]) && (r.states[i].dirty ==> PublishPending(r.states[i]))
  {
    if i > 0 {
      DirtyIsPending(r, i - 1);
      assert r.StepAt(i - 1);
    }
  }

  // ----- a clean assembler has published what it holds -----

  /** The current member is the published one, up to its deadband or its JSON text. */
  predicate Agrees(c: Config, m: string, cur: Value, prev: Value) {
    cur == prev ||
    (m in c.memberDeadbands && cur.float.Some? && prev.float.Some? &&
     Abs(cur.float.value - prev.float.value) <= c.memberDeadbands[m]) ||
    (c.memberDeadbands == map[] && cur.json == prev.json)
  }

  /** The same members, each in agreement. */
  ghost predicate AllAgree(c: Config, cur: map<string, Value>, last: map<string, Value>) {
    cur.Keys == last.Keys && forall m | m in cur :: m in last && Agrees(c, m, cur[m], last[m])
  }

  /** Nothing recorded yet and nothing to publish, or agreement with what was recorded last. */
  ghost predicate UpToDate(c: Config, a: Assembler) {
    match a.lastValues
    case None => a.values == map[]
    case Some(last) => AllAgree(c, Assembled(c, a.values), last)
  }

  /** The three records of the last publish go together. */
  ghost predicate Consistent(a: Assembler) {
    (a.lastValues.Some? <==> a.lastPubTime > 0) && a.lastPubTime >= 0 &&
    (a.lastValues.Some? ==> a.lastJson == Json(a.lastValues.value))
  }

  lemma {:induction false} ScanSame(c: Config, order: seq<string>, cur: map<string, Value>, last: map<string, Value>)
    requires (forall m | m in order :: m in cur) && Scan(c, order, cur, last) == Same
    ensures last.Keys <= cur.Keys && forall m | m in order :: CheckMember(c, m, cur[m], last) == Same
  {
    if order != [] {
      ScanSame(c, order[1..], cur, last);
    }
  }

  lemma SuppressAgrees(c: Config, a: Assembler, now: int, order: seq<string>)
    requires Consistent(a) && Walks(order, Assembled(c, a.values).Keys) && Judge(c, a, now, order) == Suppress
    ensures a.lastValues.Some? && AllAgree(c, Assembled(c, a.values), a.lastValues.value)
  {
    var cur, last := Assembled(c, a.values), a.lastValues.value;
    if c.memberDeadbands == map[] {
      JsonAgrees(c, cur, last);
    } else {
      ScanSame(c, order, cur, last);
      forall m | m in cur
        ensures m in last && Agrees(c, m, cur[m], last[m])
      {
        assert m in order && CheckMember(c, m, cur[m], last) == Same;
      }
    }
  }

  lemma JsonAgrees(c: Config, cur: map<string, Value>, last: map<string, Value>)
    requires c.memberDeadbands == map[] && Encodes(cur) && Json(cur) == Json(last)
    ensures AllAgree(c, cur, last)
  {
    assert Json(cur).value.Keys == cur.Keys && Json(last).value.Keys == last.Keys;
    forall m | m in cur
      ensures m in last && Agrees(c, m, cur[m], last[m])
    {
      assert Json(cur).value[m] == Json(last).value[m];
    }
  }

  /** A clean assembler is up to date, unless what it holds has no JSON text or the process has panicked. */
  lemma {:induction false} CleanIsUpToDate(r: Run, i: nat)
    requires r.Valid() && i <= |r.actions|
    ensures Consistent(r.states[i])
    ensures !r.states[i].dirty && !r.states[i].crashed ==>
              UpToDate(r.config, r.states[i]) || !Encodes(Assembled(r.config, r.states[i].values))
  {
    if i > 0 {
      CleanIsUpToDate(r, i - 1);
      assert r.StepAt(i - 1);
      var a, x := r.states[i - 1], r.actions[i - 1];
      if x.Callback? && a.dirty && Judge(r.config, a, x.now, x.order) == Suppress {
        SuppressAgrees(r.config, a, x.now, x.order);
      }
    }
  }

  // ----- the last publish -----

  /** lastValues and lastPubTime are those of the latest recorded publish. */
  lemma {:induction false} LastRecord(r: Run, i: nat) returns (p: int)
    requires r.Valid() && i <= |r.actions|
    ensures -1 <= p < i && forall k | p < k < i :: !r.Records(k)
    ensures p == -1 ==> r.states[i].lastValues == None && r.states[i].lastPubTime == 0
    ensures p >= 0 ==> r.Records(p) && r.states[i].lastPubTime == r.actions[p].now
    ensures p >= 0 ==> r.states[i].lastValues == Recorded(r.config, r.states[p], r.actions[p])
  {
    if i == 0 {
      return -1;
    }
    p := LastRecord(r, i - 1);
    assert r.StepAt(i - 1);
    if r.Records(i - 1) {
      p := i - 1;
    }
  }

  /** Every value set so far has a JSON text. */
  ghost predicate AllEncode(r: Run, i: nat)
    requires i <= |r.actions|
  {
    forall k | 0 <= k < i && r.actions[k].SetMember? :: r.actions[k].value.json.Some?
  }

  lemma {:induction false} ValuesEncode(r: Run, i: nat)
    requires r.Valid() && i <= |r.actions| && AllEncode(r, i)
    ensures Encodes(r.states[i].values)
  {
    if i > 0 {
      ValuesEncode(r, i - 1);
      assert r.StepAt(i - 1);
    }
  }

  /** The bus has accepted everything so far. */
  ghost predicate AllDelivered(r: Run, i: nat)
    requires i <= |r.actions|
  {
    forall k | 0 <= k < i && r.actions[k].Callback? :: r.actions[k].delivered
  }

  /** Then what is recorded is sent. */
  lemma RecordsArePublished(r: Run, i: nat, k: int)
    requires r.Valid() && i <= |r.actions| && AllEncode(r, i) && AllDelivered(r, i) && 0 <= k < i
    ensures r.Records(k) <==> r.Publishes(k)
    ensures r.Records(k) ==> Recorded(r.config, r.states[k], r.actions[k]) == Sent(r.config, r.states[k], r.actions[k])
  {
    ValuesEncode(r, k);
    assert r.StepAt(k);
  }

  /**
  Before Stop, as long as every value set has a JSON text, the bus accepts what it is given and the process
  has not panicked, an assembler that is not dirty agrees, member by member, with the last object sent, and
  one that is dirty has a callback coming.
  */
  lemma NoLostUpdate(r: Run, i: nat) returns (p: int)
    requires r.Valid() && i <= |r.actions| && (forall k | 0 <= k < i :: !r.actions[k].Stop?)
    requires AllEncode(r, i) && AllDelivered(r, i)
    ensures r.states[i].dirty ==> PublishPending(r.states[i])
    ensures -1 <= p < i && forall k | p < k < i :: !r.Publishes(k)
    ensures !r.states[i].dirty && !r.states[i].crashed && p == -1 ==> r.states[i].values == map[]
    ensures !r.states[i].dirty && !r.states[i].crashed && p >= 0 ==>
              r.Publishes(p) &&
              AllAgree(r.config, Assembled(r.config, r.states[i].values), Sent(r.config, r.states[p], r.actions[p]).value)
  {
    DirtyIsPending(r, i);
    CleanIsUpToDate(r, i);
    ValuesEncode(r, i);
    p := LastRecord(r, i);
    forall k | p < k < i
      ensures !r.Publishes(k)
    {
      RecordsArePublished(r, i, k);
    }
    if p >= 0 {
      RecordsArePublished(r, i, p);
    }
  }

  // ----- when an update is lost -----

  /** The run sets members only to these values, is never stopped, and the bus may refuse only if it says so. */
  ghost predicate Uses(r: Run, values: set<Value>, mayFail: bool) {
    forall k | 0 <= k < |r.actions| ::
      !r.actions[k].Stop? && (r.actions[k].SetMember? ==> r.actions[k].value in values) &&
      (r.actions[k].Callback? ==> mayFail || r.actions[k].delivered)
  }

  /** An object that is not sent is lost: the assembler is clean, nothing is pending and nothing was sent. */
  lemma UnsentIsLost(c: Config, m: string, v: Value, delivered: bool) returns (r: Run)
    requires m in c.members && (v.json.None? || !delivered)
    ensures r.Valid() && r.config == c && |r.actions| == 3 && Uses(r, {v}, !delivered) && forall k :: !r.Publishes(k)
    ensures !r.states[3].dirty && !PublishPending(r.states[3]) && r.states[3].values == map[m := v]
  {
    r := Run(c, [], [NEW]);
    r := Then(r, SetMember(m, v, 1));
    r := Then(r, Fire(0, 101));
    r := Then(r, Callback(101, delivered, [m]));
    assert r.StepAt(0) && r.StepAt(1) && r.StepAt(2);
    assert Assembled(c, r.states[2].values)[m] == v;
  }

  /** Every value is lost when the bus refuses the publish, whose error is discarded. */
  lemma RefusedIsLost(c: Config, m: string, v: Value) returns (r: Run)
    requires m in c.members
    ensures r.Valid() && r.config == c && |r.actions| == 3 && Uses(r, {v}, true) && forall k :: !r.Publishes(k)
    ensures !r.states[3].dirty && !PublishPending(r.states[3]) && r.states[3].values == map[m := v]
  {
    r := UnsentIsLost(c, m, v, false);
  }

  /** A value without a JSON text is lost even when it does not. */
  lemma UnencodableIsLost(c: Config, m: string, v: Value) returns (r: Run)
    requires m in c.members && v.json.None?
    ensures r.Valid() && r.config == c && |r.actions| == 3 && Uses(r, {v}, false) && forall k :: !r.Publishes(k)
    ensures !r.states[3].dirty && !PublishPending(r.states[3]) && r.states[3].values == map[m := v]
  {
    r := UnsentIsLost(c, m, v, true);
  }

  // ----- when a callback panics -----

  /** The callback gets to comparing members: it is neither forced by MaxTime nor deferred by MinTime. */
  predicate ComparesAt(c: Config, a: Assembler, now: int) {
    !c.disableRbe && a.lastPubTime > 0 && c.memberDeadbands != map[] && a.lastValues.Some? &&
    (c.deadband.Some? ==>
       !(c.deadband.value.maxTime > 0 && now - a.lastPubTime >= c.deadband.value.maxTime) &&
       !(c.deadband.value.minTime > 0 && now - a.lastPubTime < c.deadband.value.minTime))
  }

  lemma {:induction false} ScanClash(c: Config, order: seq<string>, cur: map<string, Value>, last: map<string, Value>)
    returns (m: string)
    requires (forall x | x in order :: x in cur) && Scan(c, order, cur, last) == Clash
    ensures m in order && CheckMember(c, m, cur[m], last) == Clash
  {
    m := order[0];
    if CheckMember(c, m, cur[m], last) != Clash {
      m := ScanClash(c, order[1..], cur, last);
    }
  }

  lemma {:induction false} WalkOf(keys: set<string>) returns (order: seq<string>)
    ensures Walks(order, keys)
    decreases |keys|
  {
    order := [];
    if k :| k in keys {
      var rest := WalkOf(keys - {k});
      order := [k] + rest;
    }
  }

  lemma WalkFrom(keys: set<string>, m: string) returns (order: seq<string>)
    requires m in keys
    ensures Walks(order, keys) && order != [] && order[0] == m
  {
    var rest := WalkOf(keys - {m});
    order := [m] + rest;
  }

  /** A callback can panic, for some order of walking the members, exactly when it compares and a member clashes. */
  lemma CallbackMayPanicIff(c: Config, a: Assembler, now: int)
    ensures var cur := Assembled(c, a.values);
      (exists order :: Walks(order, cur.Keys) && Judge(c, a, now, order) == Panic) <==>
      ComparesAt(c, a, now) && exists m :: m in cur && CheckMember(c, m, cur[m], a.lastValues.value) == Clash
  {
    var cur := Assembled(c, a.values);
    if order :| Walks(order, cur.Keys) && Judge(c, a, now, order) == Panic {
      var m := ScanClash(c, order, cur, a.lastValues.value);
    }
    if ComparesAt(c, a, now) {
      if m :| m in cur && CheckMember(c, m, cur[m], a.lastValues.value) == Clash {
        var order := WalkFrom(cur.Keys, m);
        assert Judge(c, a, now, order) == Panic;
      }
    }
  }

  /** The configuration lets some callback compare: MaxTime does not force whatever MinTime lets through. */
  predicate Compares(c: Config) {
    !c.disableRbe && c.memberDeadbands != map[] &&
    (c.deadband.Some? && c.deadband.value.maxTime > 0 ==> c.deadband.value.minTime < c.deadband.value.maxTime)
  }

  /** Two of the values, one after the other in one member, cannot be compared. */
  ghost predicate MemberClash(c: Config, m: string, v: Value, w: Value) {
    m in c.members && CheckMember(c, m, v, map[m := w]) == Clash
  }

  ghost predicate MayPanic(c: Config, values: set<Value>) {
    Compares(c) && exists m, v, w :: v in values && w in values && MemberClash(c, m, v, w)
  }

  ghost predicate HoldsOnly(a: Assembler, values: set<Value>) {
    (forall m | m in a.values :: a.values[m] in values) &&
    (a.lastValues.Some? ==> forall m | m in a.lastValues.value :: a.lastValues.value[m] in values)
  }

  lemma {:induction false} HoldsUsed(r: Run, values: set<Value>, mayFail: bool, i: nat)
    requires r.Valid() && Uses(r, values, mayFail) && i <= |r.actions|
    ensures HoldsOnly(r.states[i], values)
  {
    if i > 0 {
      HoldsUsed(r, values, mayFail, i - 1);
      StepValues(r, i - 1);
    }
  }

  /** An action sets one member or none, and records the members or nothing. */
  lemma StepValues(r: Run, i: nat)
    requires r.Valid() && i < |r.actions|
    ensures var a, a', x := r.states[i], r.states[i + 1], r.actions[i];
      a'.values == (if x.SetMember? then a.values[x.name := x.value] else a.values) &&
      (a'.lastValues == a.lastValues || a'.lastValues == Some(Assembled(r.config, a.values)))
  {
    assert r.StepAt(i);
  }

  lemma PanicHasClash(c: Config, a: Assembler, now: int, order: seq<string>, values: set<Value>)
    requires Walks(order, Assembled(c, a.values).Keys) && Judge(c, a, now, order) == Panic && HoldsOnly(a, values)
    ensures MayPanic(c, values)
  {
    var cur := Assembled(c, a.values);
    var m := ScanClash(c, order, cur, a.lastValues.value);
    assert MemberClash(c, m, cur[m], a.lastValues.value[m]);
  }

  lemma {:induction false} NeverPanics(r: Run, values: set<Value>, mayFail: bool, i: nat)
    requires r.Valid() && Uses(r, values, mayFail) && i <= |r.actions| && !MayPanic(r.config, values)
    ensures !r.states[i].crashed
  {
    if i > 0 {
      NeverPanics(r, values, mayFail, i - 1);
      assert r.StepAt(i - 1);
      var a, x := r.states[i - 1], r.actions[i - 1];
      if x.Callback? && a.dirty && Judge(r.config, a, x.now, x.order) == Panic {
        HoldsUsed(r, values, mayFail, i - 1);
        PanicHasClash(r.config, a, x.now, x.order, values);
      }
    }
  }

  /** A first publish, and the callback of a second update started. */
  lemma SecondStarted(c: Config, m: string, v: Value, w: Value) returns (r: Run)
    ensures r.Valid() && r.config == c && |r.actions| == 5 && Uses(r, {v, w}, false)
    ensures var a := r.states[5];
      a.dirty && !a.crashed && a.waiting == 1 && a.values == map[m := v] &&
      a.lastValues == Some(Assembled(c, map[m := w])) && a.lastPubTime == 101
  {
    r := FirstPublish(c, m, w);
    r := Then(r, SetMember(m, v, 101));
    r := Then(r, Fire(1, 201));
  }

  /** Two values that cannot be compared, set one after the other with a publish between, are enough. */
  lemma ClashPanics(c: Config, m: string, v: Value, w: Value) returns (r: Run)
    requires Compares(c) && MemberClash(c, m, v, w)
    ensures r.Valid() && r.config == c && |r.actions| == 6 && Uses(r, {v, w}, false) && r.states[6].crashed
  {
    var now := 101 + if c.deadband.Some? && c.deadband.value.minTime > 0 then c.deadband.value.minTime else 0;
    var s := SecondStarted(c, m, v, w);
    ClashJudged(c, s.states[5], m, v, w, now);
    r := Then(s, Callback(now, true, [m]));
  }

  lemma ClashJudged(c: Config, a: Assembler, m: string, v: Value, w: Value, now: int)
    requires MemberClash(c, m, v, w) && a.values == map[m := v]
    requires a.lastValues == Some(Assembled(c, map[m := w])) && ComparesAt(c, a, now)
    ensures Walks([m], Assembled(c, a.values).Keys) && Judge(c, a, now, [m]) == Panic
  {
    assert Assembled(c, a.values) == map[m := v] && Assembled(c, map[m := w]) == map[m := w];
    assert Scan(c, [m], map[m := v], map[m := w]) == Clash;
  }

  /** A set of values never makes a run panic exactly when it holds no two that may meet in a comparison that panics. */
  lemma NeverPanicsIff(c: Config, values: set<Value>, mayFail: bool)
    ensures !MayPanic(c, values) <==>
            forall r: Run, i: nat | r.Valid() && r.config == c && Uses(r, values, mayFail) && i <= |r.actions| :: !r.states[i].crashed
  {
    if MayPanic(c, values) {
      var m, v, w :| v in values && w in values && MemberClash(c, m, v, w);
      var r := ClashPanics(c, m, v, w);
      assert Uses(r, values, mayFail);
    } else {
      forall r: Run, i: nat | r.Valid() && r.config == c && Uses(r, values, mayFail) && i <= |r.actions|
        ensures !r.states[i].crashed
      {
        NeverPanics(r, values, mayFail, i);
      }
    }
  }

  // ----- when nothing is lost -----

  /** What the assembler holds agrees with what action p sent, and nothing was sent since. */
  ghost predicate AgreesWith(r: Run, p: int, i: nat)
    requires r.Valid() && i <= |r.actions|
  {
    0 <= p < i && r.Publishes(p) && (forall k | p < k < i :: !r.Publishes(k)) &&
    AllAgree(r.config, Assembled(r.config, r.states[i].values), Sent(r.config, r.states[p], r.actions[p]).value)
  }

  /** The process lives, and a publish is coming, there is nothing to publish, or the last object sent agrees. */
  ghost predicate NothingLost(r: Run, i: nat)
    requires r.Valid() && i <= |r.actions|
  {
    !r.states[i].crashed &&
    if r.states[i].dirty then PublishPending(r.states[i])
    else Assembled(r.config, r.states[i].values) == map[] || exists p :: AgreesWith(r, p, i)
  }

  ghost predicate NeverLoses(c: Config, values: set<Value>, mayFail: bool) {
    forall r: Run, i: nat | r.Valid() && r.config == c && Uses(r, values, mayFail) && i <= |r.actions| :: NothingLost(r, i)
  }

  /** Without an update nothing ever runs. */
  lemma IdleRun(r: Run, mayFail: bool)
    requires r.Valid() && Uses(r, {}, mayFail)
    ensures r.actions == []
  {
    assert r.actions != [] ==> r.StepAt(0);
  }

  lemma KeepsAll(c: Config, values: set<Value>)
    requires (forall v | v in values :: v.json.Some?) && !MayPanic(c, values)
    ensures NeverLoses(c, values, false)
  {
    forall r: Run, i: nat | r.Valid() && r.config == c && Uses(r, values, false) && i <= |r.actions|
      ensures NothingLost(r, i)
    {
      NeverPanics(r, values, false, i);
      var p := NoLostUpdate(r, i);
      assert !r.states[i].dirty && p >= 0 ==> AgreesWith(r, p, i);
    }
  }

  /** Of a template without members nothing is ever to be published. */
  lemma NothingToLose(c: Config, values: set<Value>, mayFail: bool)
    requires c.members == []
    ensures NeverLoses(c, values, mayFail)
  {
    forall r: Run, i: nat | r.Valid() && r.config == c && Uses(r, values, mayFail) && i <= |r.actions|
      ensures NothingLost(r, i)
    {
      NeverPanics(r, values, mayFail, i);
      DirtyIsPending(r, i);
      assert Assembled(c, r.states[i].values) == map[];
    }
  }

  lemma LosesOne(c: Config, m: string, v: Value, values: set<Value>, mayFail: bool, delivered: bool)
    requires m in c.members && v in values && (v.json.None? || !delivered) && (mayFail || delivered)
    ensures !NeverLoses(c, values, mayFail)
  {
    var r := UnsentIsLost(c, m, v, delivered);
    assert Uses(r, values, mayFail);
    assert m in Assembled(c, r.states[3].values) && !NothingLost(r, 3);
  }

  /**
  Runs over a set of values lose nothing exactly when there are none, the template has no members, or the bus
  never refuses, each value has a JSON text, and no two of them can meet in a comparison that panics.
  */
  lemma NothingLostIff(c: Config, values: set<Value>, mayFail: bool)
    ensures NeverLoses(c, values, mayFail) <==>
            values == {} || c.members == [] ||
            (!mayFail && (forall v | v in values :: v.json.Some?) && !MayPanic(c, values))
  {
    if c.members == [] {
      NothingToLose(c, values, mayFail);
    } else if values == {} {
      forall r: Run, i: nat | r.Valid() && r.config == c && Uses(r, values, mayFail) && i <= |r.actions|
        ensures NothingLost(r, i)
      {
        IdleRun(r, mayFail);
      }
    } else if mayFail {
      var v :| v in values;
      LosesOne(c, c.members[0], v, values, true, false);
    } else if v :| v in values && v.json.None? {
      LosesOne(c, c.members[0], v, values, false, true);
    } else if MayPanic(c, values) {
      var m, v, w :| v in values && w in values && MemberClash(c, m, v, w);
      var r := ClashPanics(c, m, v, w);
      assert Uses(r, values, false) && !NothingLost(r, 6);
    } else {
      KeepsAll(c, values);
    }
  }

  // ----- how often -----

  predicate RateLimited(c: Config) {
    !c.disableRbe && c.deadband.Some? && c.deadband.value.minTime > 0 &&
    (c.deadband.value.maxTime <= 0 || c.deadband.value.maxTime >= c.deadband.value.minTime)
  }

  lemma {:induction false} RecordsApart(r: Run, p: nat, i: nat)
    requires r.Valid() && RateLimited(r.config) && p < i && r.Records(p) && r.Records(i)
    ensures r.actions[i].now - r.actions[p].now >= r.config.deadband.value.minTime
  {
    assert r.StepAt(p) && r.StepAt(i);
    var q := LastRecord(r, i);
    assert r.StepAt(q);
    if p < q {
      RecordsApart(r, p, q);
    }
  }

  /** Any two publishes are at least MinTime apart, whatever the clock does. */
  lemma PublishesApart(r: Run, p: nat, i: nat)
    requires r.Valid() && RateLimited(r.config) && p < i && r.Publishes(p) && r.Publishes(i)
    ensures r.actions[i].now - r.actions[p].now >= r.config.deadband.value.minTime
  {
    RecordsApart(r, p, i);
  }

  lemma Then(r: Run, x: Action) returns (r': Run)
    requires r.Valid() && Enabled(r.config, r.states[|r.actions|], x) && (x.Callback? ==> x.now > 0)
    ensures r' == Run(r.config, r.actions + [x], r.states + [Step(r.config, r.states[|r.actions|], x)]) && r'.Valid()
  {
    r' := Run(r.config, r.actions + [x], r.states + [Step(r.config, r.states[|r.actions|], x)]);
    forall i | 0 <= i < |r'.actions|
      ensures r'.StepAt(i)
    {
      assert i < |r.actions| ==> r.StepAt(i);
    }
  }

  /** The one order of walking an object that holds at most member m. */
  ghost function Only(c: Config, m: string): seq<string> {
    if m in c.members then [m] else []
  }

  lemma OnlyWalks(c: Config, m: string, v: Value)
    ensures Walks(Only(c, m), Assembled(c, map[m := v]).Keys)
  {
    assert Assembled(c, map[m := v]).Keys == if m in c.members then {m} else {};
  }

  /** Two callbacks started and one of them run, which published. */
  lemma TwoStarted(c: Config, v: Value) returns (r: Run)
    requires v.json.Some?
    ensures r.Valid() && r.config == c && |r.actions| == 5 && r.actions[4] == Callback(201, true, Only(c, "m")) && r.Publishes(4)
    ensures var a := r.states[5]; !a.dirty && !a.crashed && a.waiting == 1 && a.lastPubTime == 201 && a.values == map["m" := v]
  {
    r := Run(c, [], [NEW]);
    r := Then(r, SetMember("m", v, 1));
    r := Then(r, Fire(0, 101));
    r := Then(r, SetMember("m", v, 101));
    r := Then(r, Fire(1, 201));
    assert r.states[4].values == map["m" := v];
    OnlyWalks(c, "m", v);
    r := Then(r, Callback(201, true, Only(c, "m")));
    assert r.StepAt(4);
  }

  /** With a MaxTime below MinTime two publishes can be just MaxTime apart: a callback left waiting forces the second. */
  lemma MaxTimeBeatsMinTime(c: Config, v: Value) returns (r: Run)
    requires v.json.Some? && !c.disableRbe && c.deadband.Some? && 0 < c.deadband.value.maxTime < c.deadband.value.minTime
    ensures r.Valid() && r.config == c && |r.actions| == 7 && r.Publishes(4) && r.Publishes(6)
    ensures r.actions[6].now - r.actions[4].now == c.deadband.value.maxTime
  {
    var s := TwoStarted(c, v);
    r := Then(s, SetMember("m", v, 201));
    assert r.states[6].values == map["m" := v];
    OnlyWalks(c, "m", v);
    r := Then(r, Callback(201 + c.deadband.value.maxTime, true, Only(c, "m")));
    assert r.actions[4] == s.actions[4] && r.states[4] == s.states[4] && r.states[5] == s.states[5];
    assert r.StepAt(4) && r.StepAt(5) && r.StepAt(6);
    assert Encodes(r.states[6].values);
  }

  /** With report by exception on and a MinTime set, every run keeps it exactly when MaxTime is off or no shorter. */
  lemma MinTimeKeptIff(c: Config)
    requires !c.disableRbe && c.deadband.Some? && c.deadband.value.minTime > 0
    ensures c.deadband.value.maxTime <= 0 || c.deadband.value.maxTime >= c.deadband.value.minTime <==>
            forall r: Run, p: nat, i: nat | r.Valid() && r.config == c && p < i && r.Publishes(p) && r.Publishes(i) ::
              r.StepAt(p) && r.StepAt(i) && r.actions[i].now - r.actions[p].now >= c.deadband.value.minTime
  {
    if RateLimited(c) {
      forall r: Run, p: nat, i: nat | r.Valid() && r.config == c && p < i && r.Publishes(p) && r.Publishes(i)
        ensures r.StepAt(p) && r.StepAt(i) && r.actions[i].now - r.actions[p].now >= c.deadband.value.minTime
      {
        PublishesApart(r, p, i);
      }
    } else {
      var r := MaxTimeBeatsMinTime(c, Value("int", true, Some("1"), None));
    }
  }

  /** A deferred publish settles: a callback that runs once MinTime has passed leaves nothing dirty. */
  lemma DeferralSettles(r: Run, i: nat)
    requires r.Valid() && i < |r.actions| && r.actions[i].Callback?
    requires MinTimeCounts(r.config) ==> r.actions[i].now >= r.states[i].lastPubTime + r.config.deadband.value.minTime
    ensures !r.states[i + 1].dirty
  {
    assert r.StepAt(i);
  }

  /** A timer set by a deferral is due exactly when MinTime after the last publish has passed. */
  lemma DeferralDeadline(r: Run, i: nat)
    requires r.Valid() && i < |r.actions| && r.actions[i].Callback? && r.states[i].dirty && r.states[i + 1].dirty
    ensures r.config.deadband.Some? && r.states[i + 1].timer == Some(r.states[i].nextTimer)
    ensures r.states[i].nextTimer in r.states[i + 1].armed &&
            r.states[i + 1].armed[r.states[i].nextTimer] == r.states[i].lastPubTime + r.config.deadband.value.minTime
  {
    assert r.StepAt(i);
  }

  // ----- how long a change can wait -----

  /** By time t every due timer has fired and every callback has run. */
  ghost predicate CaughtUp(a: Assembler, t: int) {
    a.waiting == 0 && forall id | id in a.armed :: a.armed[id] > t
  }

  /** Since update i there was no other, and the assembler was not stopped. */
  ghost predicate Quiet(r: Run, i: nat, j: nat) {
    i < j <= |r.actions| && r.actions[i].SetMember? &&
    (forall k | 0 <= k < j :: !r.actions[k].Stop?) && forall k | i < k < j :: !r.actions[k].SetMember?
  }

  /** A callback may be deferred to the end of MinTime. */
  predicate MinTimeCounts(c: Config) {
    !c.disableRbe && c.deadband.Some?
  }

  /** While the update waits, the current timer is the debounce timer or the end of MinTime after the last publish. */
  lemma {:induction false} WaitsFor(r: Run, i: nat, j: nat)
    requires r.Valid() && Quiet(r, i, j)
    ensures var a := r.states[j];
      a.dirty ==>
        a.lastPubTime == r.states[i].lastPubTime && a.timer.Some? &&
        (a.timer.value in a.armed ==>
           a.armed[a.timer.value] == r.actions[i].now + DEBOUNCE ||
           (MinTimeCounts(r.config) && a.armed[a.timer.value] == a.lastPubTime + r.config.deadband.value.minTime))
    decreases j
  {
    assert r.StepAt(j - 1);
    if i < j - 1 {
      WaitsFor(r, i, j - 1);
    }
  }

  /**
  A quiet gap settles an update: once timers due by t have fired and callbacks have run, and t is past
  both the debounce time of the last update and, with report by exception on, MinTime after the last
  publish, nothing is dirty.
  */
  lemma SettledBy(r: Run, i: nat, j: nat, t: int)
    requires r.Valid() && Quiet(r, i, j) && CaughtUp(r.states[j], t)
    requires t >= r.actions[i].now + DEBOUNCE
    requires MinTimeCounts(r.config) ==> t >= r.states[i].lastPubTime + r.config.deadband.value.minTime
    ensures !r.states[j].dirty
  {
    WaitsFor(r, i, j);
    DirtyIsPending(r, j);
  }

  /** A first publish at 101. */
  lemma FirstPublish(c: Config, m: string, v: Value) returns (r: Run)
    ensures r.Valid() && r.config == c && |r.actions| == 3 && Uses(r, {v}, false)
    ensures var a := r.states[3];
      !a.dirty && !a.crashed && a.waiting == 0 && a.armed == map[] && a.timer == Some(0) && a.nextTimer == 1 &&
      a.values == map[m := v] && a.lastValues == Some(Assembled(c, map[m := v])) && a.lastPubTime == 101
  {
    r := Run(c, [], [NEW]);
    r := Then(r, SetMember(m, v, 1));
    r := Then(r, Fire(0, 101));
    OnlyWalks(c, m, v);
    r := Then(r, Callback(101, true, Only(c, m)));
  }

  /** No earlier bound holds: until that time a run can be caught up and the update still wait. */
  lemma SettledNoSooner(c: Config, m: string, v: Value, w: Value) returns (r: Run)
    requires !c.disableRbe && c.deadband.Some? && c.deadband.value.minTime > DEBOUNCE && c.deadband.value.maxTime <= 0
    ensures r.Valid() && r.config == c && |r.actions| == 6 && Quiet(r, 3, 6) && r.actions[3] == SetMember(m, w, 101)
    ensures r.states[3].lastPubTime == 101 && r.states[6].dirty
    ensures forall t | t < 101 + c.deadband.value.minTime :: CaughtUp(r.states[6], t)
    ensures r.states[4].dirty && forall t | t < 101 + DEBOUNCE :: CaughtUp(r.states[4], t)
  {
    r := FirstPublish(c, m, v);
    r := Then(r, SetMember(m, w, 101));
    r := Then(r, Fire(1, 201));
    OnlyWalks(c, m, w);
    assert r.states[5].values == map[m := w];
    r := Then(r, Callback(201, true, Only(c, m)));
  }

  /**
  Without a quiet gap there is no bound at all: updates less than DEBOUNCE apart postpone the publish as
  long as they go on, MaxTime or not, however promptly timers fire.
  */
  lemma {:induction false} Starves(c: Config, m: string, v: Value, gap: nat, n: nat) returns (r: Run)
    requires gap < DEBOUNCE
    ensures r.Valid() && r.config == c && |r.actions| == n
    ensures forall k | 0 <= k < n :: r.actions[k] == SetMember(m, v, gap * k)
    ensures forall k | 0 <= k <= n :: CaughtUp(r.states[k], gap * k) && (k > 0 ==> r.states[k].dirty)
    ensures forall k :: !r.Publishes(k)
    ensures !r.states[n].crashed && (r.states[n].timer.None? ==> r.states[n].armed == map[])
    ensures r.states[n].timer.Some? ==> r.states[n].armed.Keys == {r.states[n].timer.value}
  {
    if n == 0 {
      return Run(c, [], [NEW]);
    }
    var s := Starves(c, m, v, gap, n - 1);
    r := Then(s, SetMember(m, v, gap * (n - 1)));
    assert gap * n == gap * (n - 1) + gap;
    assert r.StepAt(n - 1);
    forall k: nat | k <= n
      ensures CaughtUp(r.states[k], gap * k) && (k > 0 ==> r.states[k].dirty)
    {
      assert k < n ==> r.states[k] == s.states[k];
    }
  }
}

/** The assembler as the source keeps it. */
module UdtAssembler {
  import opened Common
  import opened UdtModel

  class UdtAssembler {
    const config: Config
    var values: map<string, Value>
    var dirty: bool
    var timer: Option<nat>
    var lastJson: Option<map<string, string>>
    var lastValues: Option<map<string, Value>>
    var lastPubTime: int
    var armed: map<nat, int>
    var waiting: nat
    var nextTimer: nat
    var crashed: bool
    var outbox: seq<map<string, Value>>  // every object published

    ghost function View(): Assembler
      reads this
    {
      Assembler(values, dirty, timer, lastJson, lastValues, lastPubTime, armed, waiting, nextTimer, crashed)
    }

    constructor (c: Config)
      ensures config == c && View() == NEW && outbox == []
    {
      config, values, dirty, timer, lastJson, lastValues, lastPubTime := c, map[], false, None, None, None, 0;
      armed, waiting, nextTimer, crashed, outbox := map[], 0, 0, false, [];
    }

    method StartTimer(deadline: int)
      modifies this`timer, this`armed, this`nextTimer
      ensures View() == Arm(old(View()), deadline)
    {
      timer := Some(nextTimer);
      armed := armed[nextTimer := deadline];
      nextTimer := nextTimer + 1;
    }

    method StopTimer()
      modifies this`armed
      ensures View() == Disarm(old(View()))
    {
      if timer.Some? {
        armed := armed - {timer.value};
      }
    }

    method SetMember(name: string, value: Value, now: int)
      requires !crashed
      modifies this
      ensures View() == Step(config, old(View()), Action.SetMember(name, value, now)) && outbox == old(outbox)
    {
      values := values[name := value];
      dirty := true;
      StopTimer();
      StartTimer(now + DEBOUNCE);
    }

    /** The environment: a running timer comes due and its callback starts. */
    method Fire(id: nat, now: int)
      requires Enabled(config, View(), Action.Fire(id, now))
      modifies this
      ensures View() == Step(config, old(View()), Action.Fire(id, now)) && outbox == old(outbox)
    {
      armed := armed - {id};
      waiting := waiting + 1;
    }

    /** The members in the order the map happens to be walked. */
    method Walk(obj: map<string, Value>) returns (order: seq<string>)
      ensures Walks(order, obj.Keys)
    {
      order := [];
      var todo := obj.Keys;
      while todo != {}
        invariant todo <= obj.Keys && Walks(order, obj.Keys - todo)
        decreases |todo|
      {
        var m :| m in todo;
        todo := todo - {m};
        order := order + [m];
      }
    }

    /** The report-by-exception part of publish. */
    method CheckRbe(assembled: map<string, Value>, now: int, order: seq<string>) returns (verdict: Verdict)
      requires assembled == Assembled(config, values) && Walks(order, assembled.Keys)
      ensures verdict == Judge(config, View(), now, order)
    {
      if config.disableRbe || lastPubTime <= 0 {
        return Verdict.Publish;
      }
      var elapsed := now - lastPubTime;
      if config.deadband.Some? && config.deadband.value.maxTime > 0 && elapsed >= config.deadband.value.maxTime {
        return Verdict.Publish;
      }
      if config.deadband.Some? && config.deadband.value.minTime > 0 && elapsed < config.deadband.value.minTime {
        return Defer(now + (config.deadband.value.minTime - elapsed));
      }
      if config.memberDeadbands != map[] && lastValues.Some? {
        var check := AnyMemberExceedsDeadband(assembled, lastValues.value, order);
        return OfCheck(check);
      }
      if !Encodes(assembled) {
        return Abandon;
      }
      return if lastJson == Json(assembled) then Suppress else Verdict.Publish;
    }

    /** The body of a timer callback. `delivered` says whether the bus accepts what it is given. */
    method Publish(now: int, delivered: bool) returns (ghost order: seq<string>)
      requires !crashed && waiting > 0
      modifies this
      ensures Walks(order, Assembled(config, old(values)).Keys)
      ensures View() == Step(config, old(View()), Callback(now, delivered, order))
      ensures outbox == old(outbox) +
                        match Sent(config, old(View()), Callback(now, delivered, order)) case None => [] case Some(o) => [o]
    {
      var assembled := Assemble();
      var walk := Walk(assembled);
      order := walk;
      if !dirty {
        waiting := waiting - 1;
        return;
      }
      var verdict := CheckRbe(assembled, now, walk);
      waiting := waiting - 1;
      Act(assembled, verdict, now, delivered);
    }

    /** Carries out what the check decided. */
    method Act(assembled: map<string, Value>, verdict: Verdict, now: int, delivered: bool)
      requires assembled == Assembled(config, values)
      modifies this
      ensures View() == Apply(config, old(View()), verdict, now)
      ensures outbox == old(outbox) + if verdict == Verdict.Publish && delivered && Encodes(assembled) then [assembled] else []
    {
      if verdict.Defer? {
        StartTimer(verdict.deadline);
        return;
      }
      dirty := false;
      if verdict.Panic? {
        crashed := true;
      } else if verdict.Publish? {
        Send(assembled, now, delivered);
      }
    }

    /** Records the object and hands it to the bus if it has a JSON text; an error of the bus is discarded. */
    method Send(assembled: map<string, Value>, now: int, delivered: bool)
      modifies this`lastJson, this`lastValues, this`lastPubTime, this`outbox
      ensures View() ==
              old(View()).(lastJson := Json(assembled), lastValues := Some(assembled), lastPubTime := now)
      ensures outbox == old(outbox) + if delivered && Encodes(assembled) then [assembled] else []
    {
      lastJson, lastValues, lastPubTime := Json(assembled), Some(assembled), now;
      if Encodes(assembled) && delivered {
        outbox := outbox + [assembled];
      }
    }

    /** Also serves Value, which returns the same object. */
    method Assemble() returns (assembled: map<string, Value>)
      ensures assembled == Assembled(config, values)
    {
      assembled := map[];
      for i := 0 to |config.members|
        invariant assembled == map m | m in values && m in config.members[..i] :: values[m]
      {
        var name := config.members[i];
        assert config.members[..i + 1] == config.members[..i] + [name];
        if name in values {
          assembled := assembled[name := values[name]];
        }
      }
      assert config.members[..|config.members|] == config.members;
    }

    method AnyMemberExceedsDeadband(current: map<string, Value>, last: map<string, Value>, order: seq<string>) returns (r: Check)
      requires Walks(order, current.Keys)
      ensures r == Scan(config, order, current, last)
    {
      for i := 0 to |order|
        invariant Scan(config, order, current, last) == Scan(config, order[i..], current, last)
      {
        var m := order[i];
        assert order[i..][0] == m && order[i..][1..] == order[i + 1..];
        if m !in last {
          return Changed;
        }
        if m in config.memberDeadbands && current[m].float.Some? && last[m].float.Some? {
          if Abs(current[m].float.value - last[m].float.value) > config.memberDeadbands[m] {
            return Changed;
          }
          continue;
        }
        if current[m].kind == last[m].kind && !current[m].comparable {
          return Clash;
        }
        if current[m] != last[m] {
          return Changed;
        }
      }
      var todo := last.Keys;
      while todo != {}
        invariant todo <= last.Keys
        invariant forall m | m in last && m !in todo :: m in current
        decreases |todo|
      {
        var m :| m in todo;
        todo := todo - {m};
        if m !in current {
          return Changed;
        }
      }
      return Same;
    }

    method Stop()
      requires !crashed
      modifies this
      ensures View() == Step(config, old(View()), Action.Stop) && outbox == old(outbox)
    {
      if timer.Some? {
        StopTimer();
        timer := None;
      }
    }
  }
}
