/**
How many NBIRTHs a connection sees. A birth is started by one locked section and published by a later
one, so other sections can come between; the comment in onConnect promises exactly one per connect.
*/
module SparkplugBirths {
  import opened Common
  import opened SparkplugModel
  import opened SparkplugRuns

  /** The births started before i whose own section has not run yet. */
  ghost function Pending(r: Run, i: nat): int
    requires r.Valid() && i <= |r.actions|
  {
    if i == 0 || r.actions[i - 1].Restart? then 0
    else
      Pending(r, i - 1) + (if Starts(r, i - 1) then 1 else 0) - if r.actions[i - 1].NodeBirth? then 1 else 0
  }

  ghost predicate Starts(r: Run, k: nat)
    requires r.Valid() && k < |r.actions|
  {
    FollowUpOf(r.config, r.nodes[k], r.actions[k]) == StartBirth
  }

  /** Only a birth that was started runs. */
  ghost predicate Causal(r: Run)
    requires r.Valid()
  {
    forall i | 0 <= i < |r.actions| && r.actions[i].NodeBirth? :: Pending(r, i) > 0
  }

  /** The NBIRTH attempts among actions [lo, i). */
  ghost function Births(r: Run, lo: nat, i: nat): nat
    requires r.Valid() && i <= |r.actions|
  {
    if i <= lo then 0 else Births(r, lo, i - 1) + if IsAttempt(r.events[i - 1], NBirth) then 1 else 0
  }

  /** After NBIRTH j the session goes on to i and the host, when there is one, stays online. */
  ghost predicate Undisturbed(r: Run, j: nat, i: nat)
    requires r.Valid()
  {
    j < i <= |r.actions| && IsAttempt(r.events[j], NBirth) && r.events[j].outcome == Sent &&
    (forall k | j < k < i :: !Breaks(r.actions[k])) &&
    (r.config.primaryHost != "" ==> forall k | j < k < i :: r.nodes[k].hostOnline)
  }

  lemma BornStep(r: Run, i: nat)
    requires r.Valid() && i < |r.actions| && !Breaks(r.actions[i])
    requires r.nodes[i].state == Born && r.nodes[i].client.Some? && r.nodes[i].birthed
    requires r.config.primaryHost == "" || r.nodes[i].hostOnline
    ensures r.nodes[i + 1].state == Born && r.nodes[i + 1].client.Some? && r.nodes[i + 1].birthed
    ensures !Starts(r, i) && (IsAttempt(r.events[i], NBirth) <==> r.actions[i].NodeBirth?)
  {
    assert r.StepAt(i);
  }

  /** In an undisturbed session no birth is started any more, and each one still pending is published. */
  lemma {:induction false} PendingArePublished(r: Run, j: nat, i: nat)
    requires r.Valid() && Undisturbed(r, j, i)
    ensures r.nodes[i].state == Born && r.nodes[i].client.Some? && r.nodes[i].birthed
    ensures Births(r, j + 1, i) == Pending(r, j + 1) - Pending(r, i)
    decreases i
  {
    assert r.StepAt(j);
    if j + 1 < i {
      PendingArePublished(r, j, i - 1);
      BornStep(r, i - 1);
    }
  }

  /**
  Once every birth that was started has run, an undisturbed session has seen no NBIRTH after its first
  exactly when no other birth was pending when that one was sent.
  */
  lemma OneBirthIff(r: Run, j: nat, i: nat)
    requires r.Valid() && Undisturbed(r, j, i) && Pending(r, i) == 0
    ensures Births(r, j + 1, i) == 0 <==> Pending(r, j + 1) == 0
  {
    PendingArePublished(r, j, i);
  }

  // ----- births per CONNECT -----

  /** CONNECT c finds no session: the node's own always does, its client's when the loss was noticed first. */
  ghost predicate OpensAnew(r: Run, c: nat)
    requires r.Valid() && c < |r.actions|
  {
    r.events[c].Will? && (r.actions[c].Connect? || r.nodes[c].state != Born)
  }

  /** onConnect undoes an NBIRTH sent over its own connection exactly when it finds the node born. */
  lemma UndoneIff(r: Run, c: nat, o: nat)
    requires r.Valid() && ConnectedBy(r, c, o) && o < |r.actions| && r.actions[o].OnConnect? && OpensAnew(r, c)
    ensures (exists s :: c < s && LiveSession(r, s, o)) <==> r.nodes[o].state == Born
    ensures r.nodes[o + 1].state == Dead && !r.nodes[o + 1].birthed
  {
    assert r.StepAt(c) && r.StepAt(o);
    BornIff(r, o);
    if s :| LiveSession(r, s, o) && s <= c {
      SessionAt(r, s, c, o);
    }
  }

  lemma SessionAt(r: Run, s: int, c: nat, o: nat)
    requires r.Valid() && LiveSession(r, s, o) && s <= c < o
    ensures r.nodes[c + 1].state == Born
  {
    assert LiveSession(r, s, c + 1);
    LiveIsBorn(r, s, c + 1);
  }

  lemma {:induction false} BirthsSplit(r: Run, lo: nat, m: nat, i: nat)
    requires r.Valid() && lo <= m <= i <= |r.actions|
    ensures Births(r, lo, i) == Births(r, lo, m) + Births(r, m, i)
    decreases i
  {
    if m < i {
      BirthsSplit(r, lo, m, i - 1);
    }
  }

  lemma {:induction false} SomeBirth(r: Run, lo: nat, i: nat)
    requires r.Valid() && lo <= i <= |r.actions|
    ensures Births(r, lo, i) > 0 <==> exists s :: lo <= s < i && IsAttempt(r.events[s], NBirth)
    decreases i
  {
    if lo < i {
      SomeBirth(r, lo, i - 1);
    }
  }

  /**
  One connection: CONNECT c, its onConnect o with no session ended between them, NBIRTH j the first since
  o, and the session of j undisturbed until every started birth has run, at i. Until o publishing works.
  */
  ghost predicate Connection(r: Run, c: nat, o: nat, j: nat, i: nat)
    requires r.Valid()
  {
    c < o < j && Undisturbed(r, j, i) && ConnectedBy(r, c, i) && OpensAnew(r, c) && r.actions[o].OnConnect? &&
    (forall k | c < k < o :: !Breaks(r.actions[k])) &&
    (forall k | c < k < o && IsAttempt(r.events[k], NBirth) :: r.events[k].outcome == Sent) &&
    Births(r, o + 1, j) == 0 && Pending(r, i) == 0
  }

  /** Born at onConnect means an NBIRTH before it; every birth still pending after the first makes one more. */
  lemma BirthsOfConnection(r: Run, c: nat, o: nat, j: nat, i: nat)
    requires r.Valid() && Connection(r, c, o, j, i)
    ensures Births(r, c + 1, i) == Births(r, c + 1, o) + 1 + Pending(r, j + 1)
    ensures Births(r, c + 1, o) > 0 <==> r.nodes[o].state == Born
  {
    assert r.StepAt(o);
    BirthsSplit(r, c + 1, o, i);
    BirthsSplit(r, o, o + 1, i);
    BirthsSplit(r, o + 1, j, i);
    BirthsSplit(r, j, j + 1, i);
    PendingArePublished(r, j, i);
    UndoneIff(r, c, o);
    SomeBirth(r, c + 1, o);
    if s :| c + 1 <= s < o && IsAttempt(r.events[s], NBirth) {
      assert LiveSession(r, s, o);
    }
  }

  /**
  A CONNECT sees exactly one NBIRTH exactly when its onConnect did not find the node born and no other
  birth was pending once the first NBIRTH after onConnect was sent.
  */
  lemma OneBirthPerConnectIff(r: Run, c: nat, o: nat, j: nat, i: nat)
    requires r.Valid() && Connection(r, c, o, j, i)
    ensures Births(r, c + 1, i) == 1 <==> r.nodes[o].state != Born && Pending(r, j + 1) == 0
  {
    BirthsOfConnection(r, c, o, j, i);
    PendingArePublished(r, j, i);
  }

  lemma PendingThen(r: Run, a: Action)
    requires r.Valid() && r.Then(a).Valid()
    ensures Pending(r.Then(a), |r.actions| + 1) ==
            if a.Restart? then 0
            else Pending(r, |r.actions|) + (if FollowUpOf(r.config, r.Last(), a) == StartBirth then 1 else 0)
                 - if a.NodeBirth? then 1 else 0
  {
    PendingPrefix(r, r.Then(a), |r.actions|);
  }

  lemma CausalThen(r: Run, a: Action) returns (r': Run)
    requires r.Valid() && Causal(r) && (a.NodeBirth? ==> Pending(r, |r.actions|) > 0)
    ensures r' == r.Then(a) && r'.Valid() && Causal(r')
    ensures Pending(r', |r'.actions|) ==
            if a.Restart? then 0
            else Pending(r, |r.actions|) + (if FollowUpOf(r.config, r.Last(), a) == StartBirth then 1 else 0)
                 - if a.NodeBirth? then 1 else 0
  {
    r' := After(r, a);
    assert Causal(r') by {
      forall i | 0 <= i < |r'.actions| && r'.actions[i].NodeBirth?
        ensures Pending(r', i) > 0
      {
        PendingPrefix(r, r', i);
      }
    }
    PendingThen(r, a);
  }

  lemma {:induction false} PendingPrefix(r: Run, r': Run, i: nat)
    requires r.Valid() && r'.Valid() && i <= |r.actions| <= |r'.actions|
    requires r'.config == r.config && r.actions == r'.actions[..|r.actions|] && r.nodes == r'.nodes[..|r.nodes|]
    ensures Pending(r', i) == Pending(r, i)
  {
    if i > 0 {
      PendingPrefix(r, r', i - 1);
      assert r'.nodes[i - 1] == r.nodes[i - 1] && r'.actions[i - 1] == r.actions[i - 1];
    }
  }

  /** A Rebirth whose birth has not run when the STATE message comes makes two NBIRTHs in one session. */
  lemma TwoBirths(host: string) returns (r: Run)
    requires host != ""
    ensures r.Valid() && Causal(r) && |r.actions| == 6 && r.config.primaryHost == host
    ensures r.actions[1].OnConnect? && r.actions[2].MarkDead? && forall k | 2 < k < 6 :: !Breaks(r.actions[k])
    ensures forall k | k in {4, 5} :: IsAttempt(r.events[k], NBirth) && r.events[k].outcome == Sent
  {
    r := Start(Config(host, false), None);
    r := CausalThen(r, Connect(true, true, true));
    r := CausalThen(r, OnConnect);
    r := CausalThen(r, MarkDead);
    r := CausalThen(r, HostState(host, true, 1));
    r := CausalThen(r, NodeBirth(Sent));
    r := CausalThen(r, NodeBirth(Sent));
  }

  /** A STATE message between the subscription and the reset makes an NBIRTH that the reset undoes. */
  lemma BirthUndone(host: string) returns (r: Run)
    requires host != ""
    ensures r.Valid() && Causal(r) && |r.actions| == 4 && r.config.primaryHost == host
    ensures r.events[0].Will? && IsAttempt(r.events[2], NBirth) && r.events[2].outcome == Sent
    ensures r.actions[3].OnConnect? && r.Last().state == Dead && !r.Last().birthed
  {
    r := Start(Config(host, false), None);
    r := CausalThen(r, Connect(true, true, true));
    r := CausalThen(r, HostState(host, true, 1));
    r := CausalThen(r, NodeBirth(Sent));
    r := CausalThen(r, OnConnect);
  }
}
