/**
What the broker sees in every run, told from the actions and the events before it alone: when each kind of
message goes out, and what it carries.
*/
module SparkplugTrace {
  import opened Common
  import opened SparkplugModel
  import opened SparkplugRuns

  // ----- the state a run leads to, read off its trace -----

  /** A connection is open or being reopened. */
  ghost predicate Connected(r: Run, i: int) {
    exists c :: ConnectedBy(r, c, i)
  }

  /** A session opened by a sent NBIRTH goes on. */
  ghost predicate Live(r: Run, i: int) {
    exists s :: LiveSession(r, s, i)
  }

  /** The last of the greatest-timestamped STATE messages says online. */
  ghost predicate HostUp(r: Run, i: int) {
    exists j :: Wins(r, j, i) && r.actions[j].online
  }

  lemma {:induction false} ConnectedHasClient(r: Run, c: int, i: nat)
    requires r.Valid() && ConnectedBy(r, c, i)
    ensures r.nodes[i].client.Some?
    decreases i
  {
    StepClient(r, i - 1);
    if c < i - 1 {
      ConnectedHasClient(r, c, i - 1);
    }
  }

  lemma ClientIff(r: Run, i: nat)
    requires r.Valid() && i <= |r.actions|
    ensures r.nodes[i].client.Some? <==> Connected(r, i)
    ensures r.nodes[i].client.Some? ==> r.nodes[i].state != Disconnected
  {
    var c := ClientWill(r, i);
    if c :| ConnectedBy(r, c, i) {
      ConnectedHasClient(r, c, i);
    }
  }

  lemma LiveIff(r: Run, i: nat)
    requires r.Valid() && i <= |r.actions|
    ensures MayPublish(r.nodes[i]) <==> Live(r, i)
  {
    var s := BornSession(r, i);
    BornIff(r, i);
  }

  // ----- node births -----

  /** NBIRTH goes out exactly when a birth runs on a connection whose primary host, if one is needed, is up. */
  lemma NodeBirthIff(r: Run, i: nat)
    requires r.Valid() && i < |r.actions|
    ensures IsAttempt(r.events[i], NBirth) <==>
            r.actions[i].NodeBirth? && Connected(r, i) && (r.config.primaryHost == "" || HostUp(r, i))
  {
    assert r.StepAt(i);
    ClientIff(r, i);
    LastWriterWins(r, i);
  }

  /** Action k is the latest to set the node's metrics in the process running at i. */
  ghost predicate LatestNodeMetrics(r: Run, k: int, i: int) {
    0 <= k < i <= |r.actions| && r.actions[k].SetNodeMetrics? &&
    forall m | k < m < i :: !r.actions[m].Restart? && !r.actions[m].SetNodeMetrics?
  }

  lemma {:induction false} NodeMetricsAre(r: Run, i: nat) returns (k: int)
    requires r.Valid() && i <= |r.actions|
    ensures k >= 0 ==> LatestNodeMetrics(r, k, i) && r.nodes[i].nodeMetrics == r.actions[k].metrics
    ensures k < 0 ==> r.nodes[i].nodeMetrics == [] && forall m :: !LatestNodeMetrics(r, m, i)
  {
    if i == 0 {
      return -1;
    }
    k := NodeMetricsAre(r, i - 1);
    StepNodeMetrics(r, i - 1);
    assert forall m | LatestNodeMetrics(r, m, i) :: m == i - 1 || LatestNodeMetrics(r, m, i - 1);
    if r.actions[i - 1].SetNodeMetrics? {
      k := i - 1;
    } else if r.actions[i - 1].Restart? {
      k := -1;
    }
  }

  lemma StepNodeMetrics(r: Run, i: nat)
    requires r.Valid() && i < |r.actions|
    ensures var a := r.actions[i];
      r.nodes[i + 1].nodeMetrics ==
        if a.SetNodeMetrics? then a.metrics else if a.Restart? then [] else r.nodes[i].nodeMetrics
  {
    assert r.StepAt(i);
  }

  /**
  It carries the number 0, the one metric of its connection's will, the rebirth control and the metrics last
  set for the node.
  */
  lemma NodeBirthCarries(r: Run, i: nat) returns (c: int, k: int)
    requires r.Valid() && i < |r.actions| && IsAttempt(r.events[i], NBirth)
    ensures ConnectedBy(r, c, i) && (k >= 0 ==> LatestNodeMetrics(r, k, i))
    ensures k < 0 ==> forall m :: !LatestNodeMetrics(r, m, i)
    ensures r.actions[i].NodeBirth? && r.events[i].outcome == r.actions[i].outcome && r.events[i].payload.seqNo == Some(0)
    ensures r.events[i].payload.metrics ==
            r.events[c].payload.metrics + [Metric("Node Control/Rebirth", 0)] + if k >= 0 then r.actions[k].metrics else []
  {
    assert r.StepAt(i);
    c := ClientWill(r, i);
    k := NodeMetricsAre(r, i);
    var b := Metric("bdSeq", r.nodes[i].bdSeq);
    assert [b, Metric("Node Control/Rebirth", 0)] == [b] + [Metric("Node Control/Rebirth", 0)];
  }

  // ----- device births and data -----

  ghost predicate Known(r: Run, device: string, i: int) {
    exists k :: LatestMetrics(r, device, k, i)
  }

  lemma {:induction false} KnownIff(r: Run, device: string, i: nat)
    requires r.Valid() && i <= |r.actions|
    ensures device in r.nodes[i].deviceMetrics <==> Known(r, device, i)
  {
    if i > 0 {
      KnownIff(r, device, i - 1);
      StepKnown(r, device, i - 1);
      var a := r.actions[i - 1];
      assert forall k | LatestMetrics(r, device, k, i) :: k == i - 1 || LatestMetrics(r, device, k, i - 1);
      if a.SetDeviceMetrics? && a.device == device {
        assert LatestMetrics(r, device, i - 1, i);
      } else if !a.Restart? && Known(r, device, i - 1) {
        var k :| LatestMetrics(r, device, k, i - 1);
        assert LatestMetrics(r, device, k, i);
      }
    }
  }

  lemma StepKnown(r: Run, device: string, i: nat)
    requires r.Valid() && i < |r.actions|
    ensures var a := r.actions[i];
      device in r.nodes[i + 1].deviceMetrics <==>
      (a.SetDeviceMetrics? && a.device == device) || (!a.Restart? && device in r.nodes[i].deviceMetrics)
  {
    assert r.StepAt(i);
  }

  /** DBIRTH goes out exactly when one is asked for in a live session, for a device that has metrics. */
  lemma DeviceBirthIff(r: Run, i: nat)
    requires r.Valid() && i < |r.actions|
    ensures IsAttempt(r.events[i], DBirth) <==>
            r.actions[i].DeviceBirth? && Live(r, i) && Known(r, r.actions[i].device, i)
    ensures IsAttempt(r.events[i], DBirth) ==>
              r.events[i].device == r.actions[i].device && r.events[i].outcome == r.actions[i].outcome
  {
    assert r.StepAt(i);
    LiveIff(r, i);
    if r.actions[i].DeviceBirth? {
      KnownIff(r, r.actions[i].device, i);
    }
  }

  /** DDATA goes out exactly when it is asked for in a live session. */
  lemma DeviceDataIff(r: Run, i: nat)
    requires r.Valid() && i < |r.actions|
    ensures IsAttempt(r.events[i], DData) <==> r.actions[i].DeviceData? && Live(r, i)
  {
    assert r.StepAt(i);
    LiveIff(r, i);
  }

  /** It carries the metrics it was given, for the device it was given them for. */
  lemma DataCarriesItsMetrics(r: Run, i: nat)
    requires r.Valid() && i < |r.actions| && IsAttempt(r.events[i], DData)
    ensures r.actions[i].DeviceData? && r.events[i].device == r.actions[i].device
    ensures r.events[i].payload.metrics == r.actions[i].metrics && r.events[i].outcome == r.actions[i].outcome
  {
    assert r.StepAt(i);
  }

  // ----- CONNECT and NDEATH -----

  /** NDEATH goes out exactly when a live session is disconnected. */
  lemma NodeDeathIff(r: Run, i: nat)
    requires r.Valid() && i < |r.actions|
    ensures IsAttempt(r.events[i], NDeath) <==> r.actions[i].Disconnect? && Live(r, i)
  {
    assert r.StepAt(i);
    LiveIff(r, i);
  }

  /** A Rebirth or a connection callback ran without a connection, in the process running at i. */
  ghost predicate Stranded(r: Run, i: int) {
    exists k :: StrandedAt(r, k, i)
  }

  ghost predicate StrandedAt(r: Run, k: int, i: int) {
    0 <= k < i <= |r.actions| && SetsDead(r.actions[k]) && !Connected(r, k) && forall m | k < m < i :: !r.actions[m].Restart?
  }

  lemma StrandedIff(r: Run, i: nat)
    requires r.Valid() && i <= |r.actions|
    ensures Stranded(r, i) <==> exists k :: Strands(r, k, i)
  {
    forall k | 0 <= k < i
      ensures StrandedAt(r, k, i) <==> Strands(r, k, i)
    {
      ClientIff(r, k);
    }
    if Stranded(r, i) {
      var k :| StrandedAt(r, k, i);
      assert Strands(r, k, i);
    }
    if k :| Strands(r, k, i) {
      assert StrandedAt(r, k, i);
    }
  }

  /**
  CONNECT goes out exactly when the client library reopens a connection, or Connect succeeds on a node that
  has none and was not left stuck without one.
  */
  lemma ConnectIff(r: Run, i: nat)
    requires r.Valid() && i < |r.actions|
    ensures r.events[i].Will? <==>
            (r.actions[i].Reconnect? && Connected(r, i)) ||
            (r.actions[i].Connect? && r.actions[i].encoded && r.actions[i].connected &&
             !Connected(r, i) && !Stranded(r, i))
  {
    assert r.StepAt(i);
    ClientIff(r, i);
    var c := ClientWill(r, i);
    if r.nodes[i].client.None? {
      StuckIff(r, i);
      StrandedIff(r, i);
    }
  }

  /** The bdSeq a process starts with, from what it finds on disk. */
  ghost function FirstBdSeq(c: Config, file: Option<nat>): nat {
    if c.keepsBdSeqFile && file.Some? then (file.value + 1) % 256 else 0
  }

  lemma {:induction false} UnusedBdSeq(r: Run, i: nat)
    requires r.Valid() && i <= |r.actions| && forall k | 0 <= k < i :: !r.events[k].Will?
    ensures r.nodes[i].client.None? && r.nodes[i].bdSeqFile == r.file && r.nodes[i].bdSeq == FirstBdSeq(r.config, r.file)
  {
    if i > 0 {
      UnusedBdSeq(r, i - 1);
      assert r.StepAt(i - 1);
    }
  }

  /** The first CONNECT of a run uses the bdSeq after the one found on disk, or 0. */
  lemma FirstConnect(r: Run, d: nat)
    requires r.Valid() && d < |r.actions| && r.events[d].Will? && forall k | 0 <= k < d :: !r.events[k].Will?
    ensures r.events[d].payload == Payload(None, [Metric("bdSeq", FirstBdSeq(r.config, r.file))])
  {
    UnusedBdSeq(r, d);
    WillCarriesBdSeq(r, d);
  }

  // ----- what a STATE message, a connect and a rebirth start -----

  /** A STATE message of the configured host that none heard in this session outdates. */
  ghost predicate Fresh(r: Run, i: nat)
    requires i < |r.actions|
  {
    var a := r.actions[i];
    a.HostState? && (r.config.primaryHost == "" || a.host == r.config.primaryHost) && a.timestamp >= 0 &&
    forall k | Heard(r, k, i) :: r.actions[k].timestamp <= a.timestamp
  }

  lemma FreshIff(r: Run, i: nat)
    requires r.Valid() && i < |r.actions|
    ensures Fresh(r, i) <==> IsStateFor(r.config, r.actions[i]) && r.actions[i].timestamp >= r.nodes[i].hostTimestamp
  {
    var j := Winner(r, i);
  }

  ghost predicate BirthSent(r: Run, i: int) {
    exists s :: BirthSince(r, s, i)
  }

  /**
  A birth is started exactly by a Rebirth, by onConnect where no host is waited for, and by a fresh online
  STATE of the host waited for while no NBIRTH was sent since onConnect.
  */
  lemma StartsBirthIff(r: Run, i: nat)
    requires r.Valid() && i < |r.actions|
    ensures FollowUpOf(r.config, r.nodes[i], r.actions[i]) == StartBirth <==>
            r.actions[i].MarkDead? || (r.actions[i].OnConnect? && r.config.primaryHost == "") ||
            (r.config.primaryHost != "" && Fresh(r, i) && r.actions[i].online && !BirthSent(r, i))
  {
    FreshIff(r, i);
    BirthedIff(r, i);
  }

  /** A disconnect is started exactly by a fresh STATE that takes the host down after an NBIRTH, on a connection. */
  lemma StartsDisconnectIff(r: Run, i: nat)
    requires r.Valid() && i < |r.actions|
    ensures FollowUpOf(r.config, r.nodes[i], r.actions[i]) == StartDisconnect <==>
            r.config.primaryHost != "" && Fresh(r, i) && !r.actions[i].online && HostUp(r, i) && BirthSent(r, i) &&
            Connected(r, i)
  {
    FreshIff(r, i);
    BirthedIff(r, i);
    LastWriterWins(r, i);
    ClientIff(r, i);
  }
}
