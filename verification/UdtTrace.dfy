/**
What the assembler publishes in every run, told from the updates before it: what an object carries, exactly
when a callback publishes it, and what Stop stops.
*/
module UdtTrace {
  import opened Common
  import opened UdtModel
  import opened UdtRuns

  // ----- what an object carries -----

  /** Action k is the latest to set the member. */
  ghost predicate LatestSet(r: Run, m: string, k: int, i: int) {
    0 <= k < i <= |r.actions| && r.actions[k].SetMember? && r.actions[k].name == m &&
    forall l | k < l < i :: !(r.actions[l].SetMember? && r.actions[l].name == m)
  }

  lemma {:induction false} ValueIsLatest(r: Run, m: string, i: nat) returns (k: int)
    requires r.Valid() && i <= |r.actions|
    ensures k >= 0 ==> LatestSet(r, m, k, i) && m in r.states[i].values && r.states[i].values[m] == r.actions[k].value
    ensures k < 0 ==> m !in r.states[i].values && forall l :: !LatestSet(r, m, l, i)
  {
    if i == 0 {
      return -1;
    }
    k := ValueIsLatest(r, m, i - 1);
    StepValues(r, i - 1);
    assert forall l | LatestSet(r, m, l, i) :: l == i - 1 || LatestSet(r, m, l, i - 1);
    if r.actions[i - 1].SetMember? && r.actions[i - 1].name == m {
      k := i - 1;
    }
  }

  /** An object recorded holds, of the template's members, those that were set, each with its latest value. */
  lemma RecordIsCurrent(r: Run, i: nat, m: string) returns (k: int)
    requires r.Valid() && r.Records(i)
    ensures k >= 0 ==> LatestSet(r, m, k, i)
    ensures var obj := Recorded(r.config, r.states[i], r.actions[i]).value;
      (m in obj <==> m in r.config.members && k >= 0) && (m in obj ==> obj[m] == r.actions[k].value)
    ensures k < 0 ==> forall l :: !LatestSet(r, m, l, i)
  {
    k := ValueIsLatest(r, m, i);
  }

  /** It goes out, as it is, exactly when the bus accepts it and each of its values has a JSON text. */
  lemma SentIff(r: Run, i: nat)
    requires r.Valid() && r.Records(i)
    ensures var obj := Recorded(r.config, r.states[i], r.actions[i]).value;
      (r.Publishes(i) <==> r.actions[i].delivered && forall m | m in obj :: obj[m].json.Some?) &&
      (r.Publishes(i) ==> Sent(r.config, r.states[i], r.actions[i]) == Some(obj))
  {
    assert r.StepAt(i);
  }

  // ----- when it is recorded -----

  /** The member left the interval of its deadband or, without one, is another value. */
  ghost predicate MemberMoved(c: Config, m: string, v: Value, was: Value) {
    if c.memberDeadbands == map[] then v.json != was.json
    else if m in c.memberDeadbands && v.float.Some? && was.float.Some?
    then v.float.value < was.float.value - c.memberDeadbands[m] || was.float.value + c.memberDeadbands[m] < v.float.value
    else v != was
  }

  /** A member is new, gone or moved. */
  ghost predicate ObjectMoved(c: Config, obj: map<string, Value>, was: map<string, Value>) {
    obj.Keys != was.Keys || exists m :: m in obj && m in was && MemberMoved(c, m, obj[m], was[m])
  }

  lemma CheckedMember(c: Config, m: string, v: Value, last: map<string, Value>)
    requires c.memberDeadbands != map[]
    ensures CheckMember(c, m, v, last) == Changed ==> m !in last || MemberMoved(c, m, v, last[m])
    ensures CheckMember(c, m, v, last) == Same ==> m in last && !MemberMoved(c, m, v, last[m])
  {
  }

  lemma {:induction false} ScanChanged(c: Config, order: seq<string>, cur: map<string, Value>, last: map<string, Value>)
    requires c.memberDeadbands != map[] && (forall m | m in order :: m in cur) && Scan(c, order, cur, last) == Changed
    ensures ObjectMoved(c, cur, last)
  {
    if order == [] {
      assert cur.Keys != last.Keys;
    } else {
      var m := order[0];
      CheckedMember(c, m, cur[m], last);
      if CheckMember(c, m, cur[m], last) == Same {
        ScanChanged(c, order[1..], cur, last);
      } else {
        assert m in cur.Keys && (m !in last.Keys || MemberMoved(c, m, cur[m], last[m]));
      }
    }
  }

  lemma ScanIff(c: Config, order: seq<string>, cur: map<string, Value>, last: map<string, Value>)
    requires c.memberDeadbands != map[] && Walks(order, cur.Keys) && Scan(c, order, cur, last) != Clash
    ensures Scan(c, order, cur, last) == Changed <==> ObjectMoved(c, cur, last)
  {
    if Scan(c, order, cur, last) == Changed {
      ScanChanged(c, order, cur, last);
    } else {
      ScanSame(c, order, cur, last);
      forall m | m in cur
        ensures m in last && !MemberMoved(c, m, cur[m], last[m])
      {
        assert m in order;
        CheckedMember(c, m, cur[m], last);
      }
      assert cur.Keys == last.Keys;
    }
  }

  lemma SameTexts(c: Config, cur: map<string, Value>, last: map<string, Value>)
    requires c.memberDeadbands == map[] && Encodes(cur) && !ObjectMoved(c, cur, last)
    ensures Json(cur) == Json(last)
  {
    assert cur.Keys == last.Keys;
    forall m | m in cur
      ensures m in last && cur[m].json == last[m].json
    {
      assert m in cur.Keys && m in last.Keys && !MemberMoved(c, m, cur[m], last[m]);
    }
    assert Encodes(last) by {
      assert forall m | m in last :: m in last.Keys && m in cur.Keys;
    }
    assert Json(cur).value.Keys == cur.Keys && Json(last).value.Keys == last.Keys;
    assert Json(cur).value == Json(last).value;
  }

  lemma SameObjects(c: Config, cur: map<string, Value>, last: map<string, Value>)
    requires c.memberDeadbands == map[] && Encodes(cur) && Json(cur) == Json(last)
    ensures !ObjectMoved(c, cur, last)
  {
    var texts := Json(cur).value;
    assert texts.Keys == cur.Keys && texts.Keys == last.Keys;
    forall m | m in cur
      ensures m in last && cur[m].json == last[m].json
    {
      assert texts[m] == cur[m].json.value && texts[m] == last[m].json.value;
    }
  }

  lemma JsonIff(c: Config, cur: map<string, Value>, last: map<string, Value>)
    requires c.memberDeadbands == map[] && Encodes(cur)
    ensures Json(cur) != Json(last) <==> ObjectMoved(c, cur, last)
  {
    if Json(cur) == Json(last) {
      SameObjects(c, cur, last);
    }
    if !ObjectMoved(c, cur, last) {
      SameTexts(c, cur, last);
    }
  }

  lemma JudgeIff(c: Config, a: Assembler, now: int, order: seq<string>)
    requires Consistent(a) && a.lastValues.Some? && !c.disableRbe && Walks(order, Assembled(c, a.values).Keys)
    requires Judge(c, a, now, order) != Panic && (c.memberDeadbands == map[] ==> Encodes(Assembled(c, a.values)))
    ensures Judge(c, a, now, order) == Publish <==>
            Forced(c, now - a.lastPubTime) ||
            (!TooSoon(c, now - a.lastPubTime) && ObjectMoved(c, Assembled(c, a.values), a.lastValues.value))
  {
    var cur := Assembled(c, a.values);
    if c.memberDeadbands == map[] {
      JsonIff(c, cur, a.lastValues.value);
    } else if Scan(c, order, cur, a.lastValues.value) != Clash {
      ScanIff(c, order, cur, a.lastValues.value);
    }
  }

  /** MaxTime is over. */
  ghost predicate Forced(c: Config, elapsed: int) {
    c.deadband.Some? && c.deadband.value.maxTime > 0 && elapsed >= c.deadband.value.maxTime
  }

  /** MinTime is not. */
  ghost predicate TooSoon(c: Config, elapsed: int) {
    c.deadband.Some? && c.deadband.value.minTime > 0 && elapsed < c.deadband.value.minTime
  }

  /**
  The whole rule, on the objects: a callback that finds an update, and neither panics nor lacks the JSON text
  to compare, records the object exactly when report by exception is off, nothing was recorded before, MaxTime
  is over since the latest record, or MinTime is and the object has moved.
  */
  lemma RecordsIff(r: Run, i: nat) returns (p: int)
    requires r.Valid() && i < |r.actions| && r.actions[i].Callback? && r.states[i].dirty && !r.states[i + 1].crashed
    requires r.config.memberDeadbands == map[] ==> Encodes(Assembled(r.config, r.states[i].values))
    ensures -1 <= p < i && (p >= 0 ==> r.Records(p)) && forall k | p < k < i :: !r.Records(k)
    ensures p < 0 || r.config.disableRbe ==> r.Records(i)
    ensures p >= 0 && !r.config.disableRbe ==>
              var elapsed := r.actions[i].now - r.actions[p].now;
              (r.Records(i) <==>
               Forced(r.config, elapsed) ||
               (!TooSoon(r.config, elapsed) &&
                ObjectMoved(r.config, Assembled(r.config, r.states[i].values),
                            Recorded(r.config, r.states[p], r.actions[p]).value)))
  {
    p := LastRecord(r, i);
    CleanIsUpToDate(r, i);
    assert r.StepAt(i);
    if p >= 0 && !r.config.disableRbe {
      JudgeIff(r.config, r.states[i], r.actions[i].now, r.actions[i].order);
    }
  }

  /** A member that stays within its deadband does not make the object go out. */
  lemma WithinDeadbandsIsSilent(r: Run, i: nat, p: nat)
    requires r.Valid() && i < |r.actions| && r.actions[i].Callback? && p < i && r.Records(p)
    requires forall k | p < k < i :: !r.Records(k)
    requires !r.config.disableRbe && r.config.memberDeadbands != map[] && !Forced(r.config, r.actions[i].now - r.actions[p].now)
    requires var obj, was := Assembled(r.config, r.states[i].values), Recorded(r.config, r.states[p], r.actions[p]).value;
      obj.Keys == was.Keys && forall m | m in obj :: m in was && m in r.config.memberDeadbands && Near(obj[m], was[m], r.config.memberDeadbands[m])
    ensures !r.Records(i)
  {
    assert r.StepAt(i);
    if r.Records(i) {
      var q := RecordsIff(r, i);
    }
  }

  /** Two numbers no further apart than that. */
  ghost predicate Near(v: Value, w: Value, distance: real) {
    v.float.Some? && w.float.Some? && w.float.value - distance <= v.float.value <= w.float.value + distance
  }

  // ----- what Stop stops -----

  /** The run goes on as another, with no update after it. */
  ghost predicate GoesOn(r: Run, s: Run) {
    s.Valid() && s.config == r.config && r.actions <= s.actions && r.states <= s.states &&
    forall k | |r.actions| <= k < |s.actions| :: !s.actions[k].SetMember?
  }

  /** No callback is waiting, and no timer runs but the current one. */
  predicate OneTimer(a: Assembler) {
    a.waiting == 0 && forall id | id in a.armed :: a.timer == Some(id)
  }

  ghost predicate RunsCallback(r: Run, s: Run) {
    exists k :: |r.actions| <= k < |s.actions| && s.actions[k].Callback?
  }

  lemma {:induction false} StaysIdle(r: Run, s: Run, i: nat)
    requires r.Valid() && GoesOn(r, s) && |r.actions| <= i <= |s.actions|
    requires r.states[|r.actions|].waiting == 0 && r.states[|r.actions|].armed == map[]
    ensures s.states[i].waiting == 0 && s.states[i].armed == map[]
    ensures forall k | |r.actions| <= k < i :: s.actions[k].Stop?
    decreases i
  {
    assert s.states[|r.actions|] == r.states[|r.actions|];
    if |r.actions| < i {
      StaysIdle(r, s, i - 1);
      assert s.StepAt(i - 1);
    }
  }

  lemma OneMore(r: Run, x: Action) returns (s: Run)
    requires r.Valid() && Enabled(r.config, r.states[|r.actions|], x) && (x.Callback? ==> x.now > 0) && !x.SetMember?
    ensures GoesOn(r, s) && |s.actions| == |r.actions| + 1 && s.actions[|r.actions|] == x
    ensures s.states[|s.actions|] == Step(r.config, r.states[|r.actions|], x)
  {
    s := Then(r, x);
  }

  lemma {:induction false} SomeWalk(keys: set<string>) returns (order: seq<string>)
    ensures Walks(order, keys)
  {
    order := WalkOf(keys);
  }

  lemma CallbackCanRun(r: Run) returns (s: Run)
    requires r.Valid() && !r.states[|r.actions|].crashed && r.states[|r.actions|].waiting > 0
    ensures GoesOn(r, s) && RunsCallback(r, s)
  {
    var order := SomeWalk(Assembled(r.config, r.states[|r.actions|].values).Keys);
    s := OneMore(r, Callback(1, true, order));
    assert s.actions[|r.actions|].Callback?;
  }

  lemma TimerCanFire(r: Run, id: nat) returns (s: Run)
    requires r.Valid() && !r.states[|r.actions|].crashed && id in r.states[|r.actions|].armed
    ensures GoesOn(r, s) && RunsCallback(r, s)
  {
    var t := OneMore(r, Fire(id, r.states[|r.actions|].armed[id]));
    s := CallbackCanRun(t);
    var k :| |t.actions| <= k < |s.actions| && s.actions[k].Callback?;
    assert s.actions[|r.actions|] == t.actions[|r.actions|];
  }

  /**
  After Stop, with no further update, no callback can run exactly when Stop found none waiting and no timer
  running but the current one.
  */
  lemma StopIsFinalIff(r: Run)
    requires r.Valid() && r.actions != [] && r.actions[|r.actions| - 1].Stop?
    ensures (forall s | GoesOn(r, s) :: !RunsCallback(r, s)) <==> OneTimer(r.states[|r.actions| - 1])
  {
    var n := |r.actions|;
    assert r.StepAt(n - 1);
    var a, b := r.states[n - 1], r.states[n];
    if OneTimer(a) {
      assert b.armed == map[];
      forall s | GoesOn(r, s)
        ensures !RunsCallback(r, s)
      {
        StaysIdle(r, s, |s.actions|);
      }
    } else if a.waiting > 0 {
      var s := CallbackCanRun(r);
    } else {
      var id :| id in a.armed && a.timer != Some(id);
      var s := TimerCanFire(r, id);
    }
  }

  /** A deferral forgets the timer of an update made meanwhile: Stop misses it, and the update goes out after it. */
  lemma PublishesAfterStop(c: Config, m: string, v: Value, w: Value) returns (r: Run)
    requires !c.disableRbe && c.deadband.Some? && c.deadband.value.minTime >= 200 && c.deadband.value.maxTime <= 0
    requires c.memberDeadbands == map[] && m in c.members && v.json.Some? && w.json.Some? && v.json != w.json
    ensures r.Valid() && r.config == c && |r.actions| == 10 && r.actions[7].Stop? && r.Publishes(9)
    ensures !OneTimer(r.states[7]) && r.states[7].waiting == 0 && !r.actions[8].SetMember?
  {
    var s := Forgotten(c, m, v, w);
    assert s.states[7].timer != Some(2) && 2 in s.states[7].armed;
    r := Then(s, Stop);
    CleanIsUpToDate(s, 7);
    assert Assembled(c, map[m := v]) == map[m := v];
    r := StoppedThenPublishes(r, m, v, w);
    assert r.states[7] == s.states[7] && r.actions[7] == Stop;
  }

  /** An update arms timer 2 while a callback waits, which then defers and makes timer 3 the current one. */
  lemma Forgotten(c: Config, m: string, v: Value, w: Value) returns (r: Run)
    requires !c.disableRbe && c.deadband.Some? && c.deadband.value.minTime >= 200 && c.deadband.value.maxTime <= 0
    ensures r.Valid() && r.config == c && |r.actions| == 7
    ensures var a := r.states[7];
      !a.crashed && a.dirty && a.waiting == 0 && a.lastPubTime == 101 && a.values == map[m := w] &&
      a.lastValues == Some(Assembled(c, map[m := v])) && a.timer == Some(3) && 2 in a.armed && a.armed[2] == 301
  {
    r := FirstPublish(c, m, v);
    r := Then(r, SetMember(m, w, 101));
    r := Then(r, Fire(1, 201));
    r := Then(r, SetMember(m, w, 201));
    OnlyWalks(c, m, w);
    assert r.states[6].values == map[m := w];
    r := Then(r, Callback(201, true, Only(c, m)));
  }

  lemma StoppedThenPublishes(r: Run, m: string, v: Value, w: Value) returns (s: Run)
    requires r.Valid() && |r.actions| == 8 && !r.config.disableRbe && r.config.memberDeadbands == map[] && m in r.config.members
    requires r.config.deadband.Some? && r.config.deadband.value.minTime >= 200 && r.config.deadband.value.maxTime <= 0
    requires v.json.Some? && w.json.Some? && v.json != w.json
    requires var a := r.states[8];
      !a.crashed && a.dirty && a.lastPubTime == 101 && a.values == map[m := w] && 2 in a.armed && a.armed[2] == 301 &&
      a.lastJson == Json(map[m := v])
    ensures s.Valid() && s.config == r.config && |s.actions| == 10 && s.actions[..8] == r.actions && s.states[..9] == r.states
    ensures s.Publishes(9) && !s.actions[8].SetMember?
  {
    var now := 101 + r.config.deadband.value.minTime;
    var t := Then(r, Fire(2, now));
    OnlyWalks(r.config, m, w);
    s := Then(t, Callback(now, true, Only(r.config, m)));
    assert s.StepAt(9) && s.StepAt(8);
    var cur := Assembled(r.config, map[m := w]);
    assert cur == map[m := w] && Encodes(cur);
    assert Json(map[m := v]).value[m] == v.json.value && Json(cur).value[m] == w.json.value;
  }
}
