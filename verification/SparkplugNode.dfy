/**
The Sparkplug B edge-node session kept by internal/mqtt/node.go.

Every section the source runs under its mutex is one `Action`, so a run of the node, with any
interleaving of its goroutines and of the broker's callbacks, is a sequence of actions.
`Birth` is the one section that publishes several messages: it is a `NodeBirth` action followed by
one `DeviceBirth` action per registered device.
*/
module SparkplugModel {
  import opened Common

  datatype NodeState = Disconnected | Dead | Born

  /** How one encode-and-publish attempt ended. */
  datatype Outcome = Sent | EncodeFailed | PublishFailed

  datatype Kind = NBirth | DBirth | DData | NDeath

  datatype Metric = Metric(name: string, value: int)

  /** `seqNo` is absent on NDEATH, which must not carry a sequence number. */
  datatype Payload = Payload(seqNo: Option<nat>, metrics: seq<Metric>)

  /** The MQTT client of one CONNECT; its will is fixed when it connects. */
  datatype Client = Client(will: Payload)

  /** `primaryHost` is empty when the node does not wait for a host. */
  datatype Config = Config(primaryHost: string, keepsBdSeqFile: bool)

  datatype EdgeNode = EdgeNode(
    state: NodeState,
    client: Option<Client>,
    bdSeq: nat,
    seqNo: nat,
    nodeMetrics: seq<Metric>,
    deviceMetrics: map<string, seq<Metric>>,
    hostOnline: bool,
    hostTimestamp: int,
    birthed: bool,
    bdSeqFile: Option<nat>)

  datatype Action =
    | Connect(encoded: bool, connected: bool, persisted: bool)
    | Reconnect  // a CONNECT of the client library itself, with the client's will
    | OnConnect
    | ConnectionLost
    | MarkDead
    | NodeBirth(outcome: Outcome)
    | DeviceBirth(device: string, outcome: Outcome)
    | DeviceData(device: string, metrics: seq<Metric>, outcome: Outcome)
    | Disconnect(outcome: Outcome)
    | HostState(host: string, online: bool, timestamp: int)
    | SetNodeMetrics(metrics: seq<Metric>)
    | SetDeviceMetrics(device: string, metrics: seq<Metric>)
    | Restart

  /** What an action shows the broker: nothing, a CONNECT with its will, or one publish attempt. */
  datatype Event =
    | Quiet
    | Will(payload: Payload)
    | Attempt(kind: Kind, device: string, payload: Payload, outcome: Outcome)

  function BdSeqMetric(bdSeq: nat): Metric {
    Metric("bdSeq", bdSeq)
  }

  function DeathPayload(bdSeq: nat): Payload {
    Payload(None, [BdSeqMetric(bdSeq)])
  }

  /** Birth starts by resetting the sequence number. */
  function ResetSeq(n: EdgeNode): EdgeNode {
    n.(seqNo := 0)
  }

  function NodeBirthPayload(n: EdgeNode): Payload {
    Payload(Some(n.seqNo), [BdSeqMetric(n.bdSeq), Metric("Node Control/Rebirth", 0)] + n.nodeMetrics)
  }

  function NextSeq(seqNo: nat): nat {
    (seqNo + 1) % 256
  }

  /** A new process: the saved bdSeq is the one used by the previous CONNECT. */
  function Boot(c: Config, file: Option<nat>): EdgeNode {
    EdgeNode(
      Disconnected, None,
      if c.keepsBdSeqFile && file.Some? then (file.value + 1) % 256 else 0,
      0, [], map[], false, 0, false, file)
  }

  predicate MayConnect(n: EdgeNode, a: Action)
    requires a.Connect?
  {
    n.state == Disconnected && a.encoded && a.connected
  }

  /** The guards of Birth: a session exists, and the primary host, when there is one, is online. */
  predicate MayBirth(c: Config, n: EdgeNode) {
    n.state != Disconnected && n.client.Some? && (c.primaryHost == "" || n.hostOnline)
  }

  predicate MayPublish(n: EdgeNode) {
    n.state == Born && n.client.Some?
  }

  predicate IsStateFor(c: Config, a: Action) {
    a.HostState? && (c.primaryHost == "" || a.host == c.primaryHost)
  }

  function Step(c: Config, n: EdgeNode, a: Action): EdgeNode {
    match a
    case Connect(_, _, persisted) =>
      if !MayConnect(n, a) then n else
      n.(client := Some(Client(DeathPayload(n.bdSeq))), state := Dead,
         bdSeqFile := if c.keepsBdSeqFile && persisted then Some(n.bdSeq) else n.bdSeqFile)
    case Reconnect => n
    case OnConnect => n.(state := Dead, birthed := false, hostOnline := false, hostTimestamp := 0)
    case ConnectionLost => n.(state := Dead)
    case MarkDead => n.(state := Dead)
    case NodeBirth(outcome) =>
      if !MayBirth(c, n) then n
      else if outcome != Sent then ResetSeq(n)
      else ResetSeq(n).(state := Born, birthed := true)
    case DeviceBirth(device, _) =>
      if MayPublish(n) && device in n.deviceMetrics then n.(seqNo := NextSeq(n.seqNo)) else n
    case DeviceData(_, _, _) => if MayPublish(n) then n.(seqNo := NextSeq(n.seqNo)) else n
    case Disconnect(_) =>
      if n.client.None? then n else
      n.(bdSeq := if n.state == Born then (n.bdSeq + 1) % 256 else n.bdSeq,
         client := None, state := Disconnected)
    case HostState(_, online, timestamp) =>
      if IsStateFor(c, a) && timestamp >= n.hostTimestamp
      then n.(hostTimestamp := timestamp, hostOnline := online) else n
    case SetNodeMetrics(metrics) => n.(nodeMetrics := metrics)
    case SetDeviceMetrics(device, metrics) => n.(deviceMetrics := n.deviceMetrics[device := metrics])
    case Restart => Boot(c, n.bdSeqFile)
  }

  function Emit(c: Config, n: EdgeNode, a: Action): Event {
    match a
    case Connect(_, _, _) => if MayConnect(n, a) then Will(DeathPayload(n.bdSeq)) else Quiet
    case Reconnect => if n.client.Some? then Will(n.client.value.will) else Quiet
    case NodeBirth(outcome) =>
      if MayBirth(c, n) then Attempt(NBirth, "", NodeBirthPayload(ResetSeq(n)), outcome) else Quiet
    case DeviceBirth(device, outcome) =>
      if MayPublish(n) && device in n.deviceMetrics
      then Attempt(DBirth, device, Payload(Some(NextSeq(n.seqNo)), n.deviceMetrics[device]), outcome) else Quiet
    case DeviceData(device, metrics, outcome) =>
      if MayPublish(n) then Attempt(DData, device, Payload(Some(NextSeq(n.seqNo)), metrics), outcome) else Quiet
    case Disconnect(outcome) =>
      if MayPublish(n) then Attempt(NDeath, "", DeathPayload(n.bdSeq), outcome) else Quiet
    case _ => Quiet
  }

  /** What an action starts once it has let go of the lock. */
  datatype FollowUp = Nothing | StartBirth | StartDisconnect

  /**
  onConnect starts a birth when there is no host to wait for, Rebirth always does. An accepted STATE of
  the primary host starts one when it says online and the session has not birthed; it starts a
  disconnect when it turns a birthed session's host offline.
  */
  function FollowUpOf(c: Config, n: EdgeNode, a: Action): FollowUp {
    match a
    case OnConnect => if c.primaryHost == "" then StartBirth else Nothing
    case MarkDead => StartBirth
    case HostState(_, online, timestamp) =>
      if c.primaryHost == "" || !IsStateFor(c, a) || timestamp < n.hostTimestamp then Nothing
      else if online && !n.birthed then StartBirth
      else if !online && n.hostOnline && n.birthed && n.client.Some? then StartDisconnect
      else Nothing
    case _ => Nothing
  }

  /**
  A run of the node, process restarts included, from a process that found `file` on disk:
  the actions taken, the node before and after each of them, and what each showed the broker.
  */
  datatype Run = Run(config: Config, file: Option<nat>, actions: seq<Action>, nodes: seq<EdgeNode>, events: seq<Event>) {
    ghost predicate Valid() {
      |nodes| == |actions| + 1 && |events| == |actions| && nodes[0] == Boot(config, file) &&
      forall i | 0 <= i < |actions| :: StepAt(i)
    }

    ghost predicate StepAt(i: nat)
      requires i < |actions| == |events| < |nodes|
    {
      nodes[i + 1] == Step(config, nodes[i], actions[i]) && events[i] == Emit(config, nodes[i], actions[i])
    }

    ghost function Last(): EdgeNode
      requires Valid()
    {
      nodes[|actions|]
    }

    /** The run one action longer. */
    ghost function Then(a: Action): Run
      requires Valid()
    {
      Run(config, file, actions + [a], nodes + [Step(config, Last(), a)], events + [Emit(config, Last(), a)])
    }
  }

  ghost function Start(c: Config, file: Option<nat>): (r: Run)
    ensures r.Valid() && r.Last() == Boot(c, file)
  {
    Run(c, file, [], [Boot(c, file)], [])
  }

  lemma ThenIsRun(r: Run, a: Action)
    requires r.Valid()
    ensures r.Then(a).Valid()
    ensures r.Then(a).Last() == Step(r.config, r.Last(), a)
  {
    forall i | 0 <= i < |r.Then(a).actions|
      ensures r.Then(a).StepAt(i)
    {
      assert i < |r.actions| ==> r.StepAt(i);
    }
  }
}

/** What holds in every run of the edge node. */
module SparkplugRuns {
  import opened Common
  import opened SparkplugModel

  // ----- what a run shows, read off its actions and events only -----

  predicate IsAttempt(e: Event, kind: Kind) {
    e.Attempt? && e.kind == kind
  }

  /** A numbered message: DBIRTH or DDATA. */
  predicate IsNumbered(e: Event) {
    IsAttempt(e, DBirth) || IsAttempt(e, DData)
  }

  /** Actions that end a Sparkplug session. */
  predicate Breaks(a: Action) {
    a.ConnectionLost? || a.OnConnect? || a.MarkDead? || a.Disconnect? || a.Restart?
  }

  /** Actions after which no STATE message heard before counts. */
  predicate Resets(a: Action) {
    a.OnConnect? || a.Restart?
  }

  // ----- STATE messages: the last writer by timestamp wins -----

  /** STATE message k is about the configured host and was heard in the session current at i. */
  ghost predicate Heard(r: Run, k: int, i: int) {
    0 <= k < i <= |r.actions| && IsStateFor(r.config, r.actions[k]) &&
    forall m | k < m < i :: !Resets(r.actions[m])
  }

  /** Message j is the last of those with the greatest timestamp heard before i. */
  ghost predicate Wins(r: Run, j: int, i: int) {
    Heard(r, j, i) && r.actions[j].timestamp >= 0 &&
    forall k | Heard(r, k, i) ::
      r.actions[k].timestamp <= r.actions[j].timestamp &&
      (k > j ==> r.actions[k].timestamp < r.actions[j].timestamp)
  }

  /** A message at least as recent as the last accepted one is accepted, and nothing else but a reset counts. */
  lemma StepHost(r: Run, i: nat)
    requires r.Valid() && i < |r.actions|
    ensures var a, n, n' := r.actions[i], r.nodes[i], r.nodes[i + 1];
      if Resets(a) then !n'.hostOnline && n'.hostTimestamp == 0
      else if IsStateFor(r.config, a) && a.timestamp >= n.hostTimestamp
      then n'.hostOnline == a.online && n'.hostTimestamp == a.timestamp
      else n'.hostOnline == n.hostOnline && n'.hostTimestamp == n.hostTimestamp
  {
    assert r.StepAt(i);
  }

  lemma {:induction false} Winner(r: Run, i: nat) returns (j: int)
    requires r.Valid() && i <= |r.actions|
    ensures j == -1 || Wins(r, j, i)
    ensures j == -1 ==> !r.nodes[i].hostOnline && r.nodes[i].hostTimestamp == 0
    ensures j == -1 ==> forall k | Heard(r, k, i) :: r.actions[k].timestamp < 0
    ensures Wins(r, j, i) ==> r.nodes[i].hostOnline == r.actions[j].online
    ensures Wins(r, j, i) ==> r.nodes[i].hostTimestamp == r.actions[j].timestamp
  {
    if i == 0 {
      return -1;
    }
    j := Winner(r, i - 1);
    var a := r.actions[i - 1];
    StepHost(r, i - 1);
    assert forall k :: Heard(r, k, i) <==>
      (k == i - 1 && IsStateFor(r.config, a)) || (Heard(r, k, i - 1) && !Resets(a));
    if Resets(a) {
      j := -1;
    } else if IsStateFor(r.config, a) && a.timestamp >= r.nodes[i - 1].hostTimestamp {
      j := i - 1;
    }
  }

  /** hostOnline is the flag of the last STATE message with the greatest timestamp. */
  lemma LastWriterWins(r: Run, i: nat)
    requires r.Valid() && i <= |r.actions|
    ensures r.nodes[i].hostOnline <==> exists j :: Wins(r, j, i) && r.actions[j].online
  {
    var j := Winner(r, i);
  }

  ghost predicate HeardMessage(r: Run, a: Action, i: int) {
    exists k :: Heard(r, k, i) && r.actions[k] == a
  }

  /** Two messages with one timestamp never disagree. */
  ghost predicate Unambiguous(r: Run, i: int) {
    forall k, l | Heard(r, k, i) && Heard(r, l, i) && r.actions[k].timestamp == r.actions[l].timestamp ::
      r.actions[k].online == r.actions[l].online
  }

  /** Two sessions that heard the same messages, in any order and any number of times, agree. */
  lemma ArrivalOrderIrrelevant(r: Run, i: nat, s: Run, j: nat)
    requires r.Valid() && i <= |r.actions| && s.Valid() && j <= |s.actions|
    requires forall a :: HeardMessage(r, a, i) <==> HeardMessage(s, a, j)
    requires Unambiguous(r, i)
    ensures r.nodes[i].hostOnline == s.nodes[j].hostOnline
    ensures r.nodes[i].hostTimestamp == s.nodes[j].hostTimestamp
  {
    var w := Winner(r, i);
    var v := Winner(s, j);
    if w != -1 {
      assert HeardMessage(s, r.actions[w], j);
    }
    if v != -1 {
      assert HeardMessage(r, s.actions[v], i);
    }
  }

  // ----- births wait for the primary host -----

  /** With a primary host, every NBIRTH, rebirths included, finds that host's winning STATE online. */
  lemma BirthWaitsForHost(r: Run, i: nat)
    requires r.Valid() && i < |r.actions| && IsAttempt(r.events[i], NBirth) && r.config.primaryHost != ""
    ensures exists j :: Wins(r, j, i) && r.actions[j].online && r.actions[j].host == r.config.primaryHost
  {
    assert r.StepAt(i);
    LastWriterWins(r, i);
  }

  /** A reset, or a STATE message recent enough to be accepted. */
  ghost predicate ResetsOrAccepts(r: Run, k: nat)
    requires r.Valid() && k < |r.actions|
  {
    r.actions[k].OnConnect? || (IsStateFor(r.config, r.actions[k]) && r.actions[k].timestamp >= r.nodes[k].hostTimestamp)
  }

  /**
  The STATE an NBIRTH rests on came after its own CONNECT exactly when, since that CONNECT, the
  onConnect section has run or a STATE message was accepted.
  */
  lemma BirthHearsHostInItsSessionIff(r: Run, c: nat, i: nat)
    requires r.Valid() && i < |r.actions| && IsAttempt(r.events[i], NBirth) && r.config.primaryHost != ""
    requires ConnectedBy(r, c, i)
    ensures (exists j :: c < j && Wins(r, j, i)) <==> exists k :: c < k < i && ResetsOrAccepts(r, k)
  {
    BirthWaitsForHost(r, i);
    var j :| Wins(r, j, i) && r.actions[j].online;
    var w := Winner(r, i);
    assert w == j;
    if c < j {
      AcceptedWhenHeard(r, j, i);
      assert ResetsOrAccepts(r, j);
    } else if k :| c < k < i && ResetsOrAccepts(r, k) {
      LaterAccepted(r, j, k, i);
      assert false;
    }
  }

  /** The winning message was accepted when it came. */
  lemma AcceptedWhenHeard(r: Run, j: nat, i: nat)
    requires r.Valid() && i <= |r.actions| && Wins(r, j, i)
    ensures r.actions[j].timestamp >= r.nodes[j].hostTimestamp
  {
    var w := Winner(r, j);
    if w != -1 {
      assert Heard(r, w, i);
    }
  }

  /** No message from before a reset or an accepted message wins after it. */
  lemma LaterAccepted(r: Run, j: nat, k: nat, i: nat)
    requires r.Valid() && j < k < i <= |r.actions| && ResetsOrAccepts(r, k)
    ensures !Wins(r, j, i)
  {
    if Wins(r, j, i) {
      assert Resets(r.actions[k]) || Heard(r, k, i);
      WinnerOf(r, j, k);
    }
  }

  /** A message that wins later wins already. */
  lemma WinnerOf(r: Run, j: nat, k: nat)
    requires r.Valid() && j < k <= |r.actions| && Wins(r, j, k)
    ensures r.nodes[k].hostTimestamp == r.actions[j].timestamp
  {
    var w := Winner(r, k);
    assert w == j;
  }

  /** Without either, an NBIRTH may rest on a STATE heard over the previous connection. */
  lemma BirthOnStaleState(host: string) returns (r: Run)
    requires host != ""
    ensures r.Valid() && r.config.primaryHost == host && |r.actions| == 6
    ensures r.events[4].Will? && IsAttempt(r.events[5], NBirth)
    ensures Wins(r, 2, 5) && forall j | Wins(r, j, 5) :: j == 2
  {
    r := Start(Config(host, false), None);
    r := After(r, Connect(true, true, true));
    r := After(r, OnConnect);
    r := After(r, HostState(host, true, 1));
    r := After(r, Disconnect(Sent));
    r := After(r, Connect(true, true, true));
    r := After(r, NodeBirth(Sent));
    assert Heard(r, 2, 5);
  }

  lemma After(r: Run, a: Action) returns (r': Run)
    requires r.Valid()
    ensures r' == r.Then(a) && r'.Valid()
  {
    r' := r.Then(a);
    ThenIsRun(r, a);
  }

  /** `birthed` says whether an NBIRTH was sent since the last onConnect or restart. */
  lemma {:induction false} BirthedIff(r: Run, i: nat)
    requires r.Valid() && i <= |r.actions|
    ensures r.nodes[i].birthed <==> exists s :: BirthSince(r, s, i)
  {
    if i > 0 {
      BirthedIff(r, i - 1);
      assert r.StepAt(i - 1);
      assert forall s :: BirthSince(r, s, i) <==>
        (s == i - 1 && IsAttempt(r.events[i - 1], NBirth) && r.events[i - 1].outcome == Sent) ||
        (BirthSince(r, s, i - 1) && !Resets(r.actions[i - 1]));
      if IsAttempt(r.events[i - 1], NBirth) && r.events[i - 1].outcome == Sent {
        assert BirthSince(r, i - 1, i);
      } else if r.nodes[i - 1].birthed && !Resets(r.actions[i - 1]) {
        var s :| BirthSince(r, s, i - 1);
        assert BirthSince(r, s, i);
      }
    }
  }

  ghost predicate BirthSince(r: Run, s: int, i: int) {
    0 <= s < i <= |r.events| == |r.actions| && IsAttempt(r.events[s], NBirth) && r.events[s].outcome == Sent &&
    forall k | s < k < i :: !Resets(r.actions[k])
  }

  // ----- metrics -----

  /** Action k is the latest to register metrics for the device in the process running at i. */
  ghost predicate LatestMetrics(r: Run, device: string, k: int, i: int) {
    0 <= k < i <= |r.actions| && r.actions[k].SetDeviceMetrics? && r.actions[k].device == device &&
    forall m | k < m < i :: !r.actions[m].Restart? && !(r.actions[m].SetDeviceMetrics? && r.actions[m].device == device)
  }

  lemma {:induction false} RegisteredMetrics(r: Run, device: string, i: nat) returns (k: int)
    requires r.Valid() && i <= |r.actions|
    ensures device in r.nodes[i].deviceMetrics ==>
              LatestMetrics(r, device, k, i) && r.nodes[i].deviceMetrics[device] == r.actions[k].metrics
  {
    if i == 0 {
      return -1;
    }
    k := RegisteredMetrics(r, device, i - 1);
    assert r.StepAt(i - 1);
    if r.actions[i - 1].SetDeviceMetrics? && r.actions[i - 1].device == device {
      k := i - 1;
    }
  }

  /** A DBIRTH announces the metrics last registered for its device. */
  lemma DeviceBirthIsCurrent(r: Run, i: nat) returns (k: int)
    requires r.Valid() && i < |r.actions| && IsAttempt(r.events[i], DBirth)
    ensures LatestMetrics(r, r.events[i].device, k, i) && r.events[i].payload.metrics == r.actions[k].metrics
  {
    assert r.StepAt(i);
    k := RegisteredMetrics(r, r.events[i].device, i);
  }

  // ----- sequence numbers -----

  /** NBIRTH attempt b is the latest before i. */
  ghost predicate LatestBirth(r: Run, b: int, i: int) {
    0 <= b < i <= |r.events| && IsAttempt(r.events[b], NBirth) &&
    forall k | b < k < i :: !IsAttempt(r.events[k], NBirth)
  }

  /** NBIRTH s was sent and nothing has ended its session before i. */
  ghost predicate LiveSession(r: Run, s: int, i: int) {
    0 <= s < i <= |r.events| == |r.actions| && IsAttempt(r.events[s], NBirth) && r.events[s].outcome == Sent &&
    forall k | s < k < i :: !Breaks(r.actions[k])
  }

  /** The number of DBIRTH and DDATA attempts among the events. */
  ghost function Numbered(events: seq<Event>): nat {
    if events == [] then 0
    else Numbered(events[..|events| - 1]) + if IsNumbered(events[|events| - 1]) then 1 else 0
  }

  lemma {:induction false} NumberedAppend(es: seq<Event>, fs: seq<Event>)
    ensures Numbered(es + fs) == Numbered(es) + Numbered(fs)
  {
    if fs == [] {
      assert es + fs == es;
    } else {
      assert (es + fs)[..|es + fs| - 1] == es + fs[..|fs| - 1];
      NumberedAppend(es, fs[..|fs| - 1]);
    }
  }

  lemma {:induction false} BornSession(r: Run, i: nat) returns (s: int)
    requires r.Valid() && i <= |r.actions|
    ensures r.nodes[i].state == Born ==> LiveSession(r, s, i) && r.nodes[i].client.Some? && r.nodes[i].birthed
  {
    if i == 0 {
      return -1;
    }
    s := BornSession(r, i - 1);
    assert r.StepAt(i - 1);
    if IsAttempt(r.events[i - 1], NBirth) && r.events[i - 1].outcome == Sent {
      s := i - 1;
    }
  }

  lemma {:induction false} LiveIsBorn(r: Run, s: int, i: nat)
    requires r.Valid() && LiveSession(r, s, i)
    ensures r.nodes[i].state == Born
    decreases i
  {
    assert r.StepAt(i - 1);
    if s < i - 1 {
      LiveIsBorn(r, s, i - 1);
    }
  }

  /** The node counts as born exactly while a session opened by a sent NBIRTH goes on. */
  lemma BornIff(r: Run, i: nat)
    requires r.Valid() && i <= |r.actions|
    ensures r.nodes[i].state == Born <==> exists s :: LiveSession(r, s, i)
  {
    var s := BornSession(r, i);
    if s :| LiveSession(r, s, i) {
      LiveIsBorn(r, s, i);
    }
  }

  lemma CountOneMore(events: seq<Event>, lo: nat, i: nat)
    requires lo < i <= |events|
    ensures Numbered(events[lo..i]) == Numbered(events[lo..i - 1]) + if IsNumbered(events[i - 1]) then 1 else 0
  {
    var es := events[lo..i];
    assert es[..|es| - 1] == events[lo..i - 1];
  }

  lemma CountAround(events: seq<Event>, lo: nat, i: nat, j: nat)
    requires lo <= i < j <= |events| && IsNumbered(events[i])
    ensures Numbered(events[lo..j]) == Numbered(events[lo..i]) + 1 + Numbered(events[i + 1..j])
  {
    CountOneMore(events, lo, i + 1);
    NumberedAppend(events[lo..i + 1], events[i + 1..j]);
    assert events[lo..j] == events[lo..i + 1] + events[i + 1..j];
  }

  lemma AddModulo(n: nat, m: nat)
    ensures (n % 256 + m) % 256 == (n + m) % 256
  {
  }

  lemma GapModulo(before: nat, between: nat)
    ensures (before + 1 + between + 1) % 256 == ((before + 1) % 256 + 1 + between) % 256
  {
    AddModulo(before + 1, between + 1);
  }

  /** The number reached by counting on, modulo 256, from 0 at lo. */
  ghost function SeqAfter(events: seq<Event>, lo: nat, i: nat): nat
    requires i <= |events|
  {
    if i <= lo then 0
    else if IsNumbered(events[i - 1]) then NextSeq(SeqAfter(events, lo, i - 1)) else SeqAfter(events, lo, i - 1)
  }

  lemma {:induction false} SeqAfterCounts(events: seq<Event>, lo: nat, i: nat)
    requires lo <= i <= |events|
    ensures SeqAfter(events, lo, i) == Numbered(events[lo..i]) % 256
    decreases i
  {
    if lo < i {
      SeqAfterCounts(events, lo, i - 1);
      CountOneMore(events, lo, i);
      AddModulo(Numbered(events[lo..i - 1]), 1);
    }
  }

  /** A node that stays born counts the attempts that carry a number. */
  lemma StepNumbers(r: Run, i: nat)
    requires r.Valid() && i < |r.actions| && r.nodes[i + 1].state == Born && !IsAttempt(r.events[i], NBirth)
    ensures r.nodes[i].state == Born
    ensures r.nodes[i + 1].seqNo == if IsNumbered(r.events[i]) then NextSeq(r.nodes[i].seqNo) else r.nodes[i].seqNo
  {
    assert r.StepAt(i);
  }

  lemma BirthNumbers(r: Run, i: nat)
    requires r.Valid() && i < |r.actions| && IsAttempt(r.events[i], NBirth)
    ensures r.nodes[i + 1].seqNo == 0
  {
    assert r.StepAt(i);
  }

  lemma {:induction false} BornSeq(r: Run, i: nat) returns (b: int)
    requires r.Valid() && i <= |r.actions|
    ensures r.nodes[i].state == Born ==> LatestBirth(r, b, i) && r.nodes[i].seqNo == SeqAfter(r.events, b + 1, i)
  {
    if i == 0 {
      return -1;
    }
    b := BornSeq(r, i - 1);
    if IsAttempt(r.events[i - 1], NBirth) {
      BirthNumbers(r, i - 1);
      b := i - 1;
    } else if r.nodes[i].state == Born {
      StepNumbers(r, i - 1);
    }
  }

  /**
  Every DBIRTH and DDATA belongs to a session opened by a sent NBIRTH, and it is numbered by its
  position after the latest NBIRTH attempt, modulo 256.
  */
  lemma NumberedInSession(r: Run, i: nat) returns (s: int, b: int)
    requires r.Valid() && i < |r.actions| && IsNumbered(r.events[i])
    ensures LiveSession(r, s, i) && LatestBirth(r, b, i) && s <= b
    ensures r.events[i].payload.seqNo == Some((Numbered(r.events[b + 1..i]) + 1) % 256)
  {
    assert r.StepAt(i);
    s := BornSession(r, i);
    b := BornSeq(r, i);
    SeqAfterCounts(r.events, b + 1, i);
    AddModulo(Numbered(r.events[b + 1..i]), 1);
  }

  lemma NodeBirthIsZero(r: Run, i: nat)
    requires r.Valid() && i < |r.actions| && IsAttempt(r.events[i], NBirth)
    ensures r.events[i].payload.seqNo == Some(0)
  {
    assert r.StepAt(i);
  }

  lemma NumberAfter(r: Run, b: nat, i: nat)
    requires r.Valid() && i < |r.actions| && IsNumbered(r.events[i]) && LatestBirth(r, b, i)
    ensures r.events[i].payload.seqNo == Some((Numbered(r.events[b + 1..i]) + 1) % 256)
  {
    var s, b' := NumberedInSession(r, i);
    assert b' == b;
  }

  /** Between two messages after one NBIRTH the numbers advance by the attempts made, failed ones included. */
  lemma NumberGap(r: Run, b: nat, i: nat, j: nat)
    requires r.Valid() && LatestBirth(r, b, i) && LatestBirth(r, b, j) && i < j < |r.actions|
    requires IsNumbered(r.events[i]) && IsNumbered(r.events[j])
    ensures r.events[i].payload.seqNo.Some? && r.events[j].payload.seqNo.Some?
    ensures r.events[j].payload.seqNo.value ==
            (r.events[i].payload.seqNo.value + 1 + Numbered(r.events[i + 1..j])) % 256
  {
    NumberAfter(r, b, i);
    NumberAfter(r, b, j);
    CountAround(r.events, b + 1, i, j);
    GapModulo(Numbered(r.events[b + 1..i]), Numbered(r.events[i + 1..j]));
  }

  /**
  Two messages on the wire with only failed attempts between them are consecutive exactly when the
  number of failures is a multiple of 256.
  */
  lemma NoWireGapIff(r: Run, b: nat, i: nat, j: nat)
    requires r.Valid() && LatestBirth(r, b, i) && LatestBirth(r, b, j) && i < j < |r.actions|
    requires IsNumbered(r.events[i]) && IsNumbered(r.events[j])
    requires forall k | i < k < j && IsNumbered(r.events[k]) :: r.events[k].outcome != Sent
    ensures r.events[i].payload.seqNo.Some? && r.events[j].payload.seqNo.Some?
    ensures r.events[j].payload.seqNo.value == (r.events[i].payload.seqNo.value + 1) % 256 <==>
            Numbered(r.events[i + 1..j]) % 256 == 0
  {
    NumberGap(r, b, i, j);
  }

  /** One failed DDATA between two sent ones leaves a gap on the wire. */
  lemma WireGap(device: string) returns (r: Run)
    ensures r.Valid() && |r.actions| == 6 && LatestBirth(r, 2, 3) && LatestBirth(r, 2, 5)
    ensures r.events[3] == Attempt(DData, device, Payload(Some(1), []), Sent)
    ensures r.events[4] == Attempt(DData, device, Payload(Some(2), []), PublishFailed)
    ensures r.events[5] == Attempt(DData, device, Payload(Some(3), []), Sent)
  {
    r := Start(Config("", false), None);
    r := After(r, Connect(true, true, true));
    r := After(r, OnConnect);
    r := After(r, NodeBirth(Sent));
    r := After(r, DeviceData(device, [], Sent));
    r := After(r, DeviceData(device, [], PublishFailed));
    r := After(r, DeviceData(device, [], Sent));
  }

  // ----- connections: NBIRTH before data, bdSeq in will, birth and death -----

  /** CONNECT c, the node's own or one of its client's, opened the connection current at i. */
  ghost predicate ConnectedBy(r: Run, c: int, i: int) {
    0 <= c < i <= |r.events| == |r.actions| && r.events[c].Will? &&
    forall k | c < k < i :: !r.events[k].Will? && !r.actions[k].Disconnect? && !r.actions[k].Restart?
  }

  lemma {:induction false} ClientWill(r: Run, i: nat) returns (c: int)
    requires r.Valid() && i <= |r.actions|
    ensures r.nodes[i].state == Disconnected ==> r.nodes[i].client.None?
    ensures r.nodes[i].client.Some? ==>
              ConnectedBy(r, c, i) && r.events[c].payload == r.nodes[i].client.value.will == DeathPayload(r.nodes[i].bdSeq)
  {
    if i == 0 {
      return -1;
    }
    c := ClientWill(r, i - 1);
    StepClient(r, i - 1);
    if r.events[i - 1].Will? {
      c := i - 1;
    }
  }

  /** A CONNECT shows the will of its client, and but for CONNECTs, disconnects and restarts client and bdSeq stay. */
  lemma StepClient(r: Run, i: nat)
    requires r.Valid() && i < |r.actions|
    ensures var n, n', a, e := r.nodes[i], r.nodes[i + 1], r.actions[i], r.events[i];
      (n'.state == Disconnected ==> n'.client.None? || (n.state == Disconnected && n'.client == n.client)) &&
      if e.Will? then
        n'.client == Some(Client(e.payload)) && n'.bdSeq == n.bdSeq && (n'.client == n.client || e.payload == DeathPayload(n.bdSeq))
      else if a.Disconnect? || a.Restart? then n'.client.None?
      else n'.client == n.client && n'.bdSeq == n.bdSeq
  {
    assert r.StepAt(i);
  }

  /** NBIRTH leads with the bdSeq metric of the will of its own connection; NDEATH is that will. */
  lemma BirthAndDeathMatchWill(r: Run, i: nat) returns (c: int)
    requires r.Valid() && i < |r.actions|
    requires IsAttempt(r.events[i], NBirth) || IsAttempt(r.events[i], NDeath)
    ensures ConnectedBy(r, c, i)
    ensures IsAttempt(r.events[i], NBirth) ==>
              r.events[i].payload.metrics != [] && [r.events[i].payload.metrics[0]] == r.events[c].payload.metrics
    ensures IsAttempt(r.events[i], NDeath) ==> r.events[i].payload == r.events[c].payload
  {
    assert r.StepAt(i);
    c := ClientWill(r, i);
  }

  /** An NBIRTH sent at k, or the session ended there: lost, reset by onConnect, or restarted by Rebirth. */
  ghost predicate BirthsOrBreaks(r: Run, k: nat)
    requires r.Valid() && k < |r.actions|
  {
    Breaks(r.actions[k]) || (IsAttempt(r.events[k], NBirth) && r.events[k].outcome == Sent)
  }

  /**
  A DBIRTH or DDATA goes out over the connection that carried its NBIRTH exactly when, since that
  connection's CONNECT, an NBIRTH was sent or the node has noticed that a session ended.
  */
  lemma DataFollowsItsBirthIff(r: Run, c: nat, i: nat)
    requires r.Valid() && i < |r.actions| && IsNumbered(r.events[i]) && ConnectedBy(r, c, i)
    ensures (exists s :: c < s && LiveSession(r, s, i)) <==> exists k :: c < k < i && BirthsOrBreaks(r, k)
  {
    if s :| c < s && LiveSession(r, s, i) {
      assert BirthsOrBreaks(r, s);
    }
    if k :| c < k < i && BirthsOrBreaks(r, k) {
      var s, b := NumberedInSession(r, i);
      if s <= c {
        assert LiveSession(r, k, i);
      }
    }
  }

  /** After a reconnect that is noticed late, data precedes the NBIRTH of its connection. */
  lemma DataBeforeItsBirth(device: string) returns (r: Run)
    ensures r.Valid() && |r.actions| == 5 && ConnectedBy(r, 3, 4) && r.actions[3].Reconnect?
    ensures r.events[4] == Attempt(DData, device, Payload(Some(1), []), Sent)
    ensures !exists s :: 3 < s && LiveSession(r, s, 4)
  {
    r := Start(Config("", false), None);
    r := After(r, Connect(true, true, true));
    r := After(r, OnConnect);
    r := After(r, NodeBirth(Sent));
    r := After(r, Reconnect);
    r := After(r, DeviceData(device, [], Sent));
  }

  /** CONNECT c is the latest before i and the process has not restarted since. */
  ghost predicate LatestWill(r: Run, c: int, i: int) {
    0 <= c < i <= |r.events| == |r.actions| && r.events[c].Will? &&
    forall k | c < k < i :: !r.events[k].Will? && !r.actions[k].Restart?
  }

  ghost predicate DeathBetween(r: Run, c: int, d: int) {
    exists k :: 0 <= c < k < d <= |r.events| && IsAttempt(r.events[k], NDeath)
  }

  lemma {:induction false} WillCarriesBdSeq(r: Run, c: nat)
    requires r.Valid() && c < |r.actions| && r.events[c].Will?
    ensures r.events[c].payload == DeathPayload(r.nodes[c].bdSeq) && r.nodes[c].bdSeq < 256
  {
    assert r.StepAt(c);
    BdSeqBound(r, c);
    var k := ClientWill(r, c);
  }

  lemma {:induction false} BdSeqBound(r: Run, i: nat)
    requires r.Valid() && i <= |r.actions|
    ensures r.nodes[i].bdSeq < 256
  {
    if i > 0 {
      assert r.StepAt(i - 1);
      BdSeqBound(r, i - 1);
    }
  }

  lemma {:induction false} BdSeqSinceWill(r: Run, c: int, i: nat)
    requires r.Valid() && LatestWill(r, c, i)
    ensures r.nodes[i].bdSeq == (r.nodes[c].bdSeq + if DeathBetween(r, c, i) then 1 else 0) % 256
    ensures DeathBetween(r, c, i) ==> r.nodes[i].client.None?
    decreases i
  {
    assert r.StepAt(i - 1);
    BdSeqBound(r, c);
    if c < i - 1 {
      BdSeqSinceWill(r, c, i - 1);
      assert DeathBetween(r, c, i) <==> DeathBetween(r, c, i - 1) || IsAttempt(r.events[i - 1], NDeath);
    }
  }

  /** From one CONNECT of a process to its next, bdSeq advances by one exactly when an NDEATH was attempted between. */
  lemma ConnectAdvancesBdSeqIff(r: Run, c: nat, d: nat) returns (b: nat)
    requires r.Valid() && LatestWill(r, c, d) && d < |r.actions| && r.events[d].Will?
    ensures b < 256 && r.events[c].payload == DeathPayload(b)
    ensures r.events[d].payload == DeathPayload(if DeathBetween(r, c, d) then (b + 1) % 256 else b)
    ensures r.events[d].payload == DeathPayload((b + 1) % 256) <==> DeathBetween(r, c, d)
  {
    b := r.nodes[c].bdSeq;
    WillCarriesBdSeq(r, c);
    WillCarriesBdSeq(r, d);
    BdSeqSinceWill(r, c, d);
  }

  /** A session dropped before its NBIRTH reuses its bdSeq, whatever the comment on NewSparkplugNode says. */
  lemma ConnectWithoutAdvance() returns (r: Run)
    ensures r.Valid() && |r.actions| == 3 && r.events[0].Will? && r.events[2].Will?
    ensures r.events[0].payload == r.events[2].payload
  {
    r := Start(Config("", false), None);
    r := After(r, Connect(true, true, true));
    r := After(r, Disconnect(Sent));
    r := After(r, Connect(true, true, true));
  }

  /** The client library reconnects with the will it was given, so a lost connection does not advance bdSeq. */
  lemma ReconnectWithoutAdvance() returns (r: Run)
    ensures r.Valid() && |r.actions| == 5 && r.events[0].Will? && r.actions[3].ConnectionLost? && r.events[4].Will?
    ensures IsAttempt(r.events[2], NBirth) && r.events[2].outcome == Sent
    ensures r.events[0].payload == r.events[4].payload
  {
    r := Start(Config("", false), None);
    r := After(r, Connect(true, true, true));
    r := After(r, OnConnect);
    r := After(r, NodeBirth(Sent));
    r := After(r, ConnectionLost);
    r := After(r, Reconnect);
  }

  /** CONNECT c wrote the bdSeq file and no later CONNECT has written it. */
  ghost predicate LatestSaved(r: Run, c: int, i: int) {
    0 <= c < i <= |r.events| == |r.actions| && r.events[c].Will? && r.actions[c].Connect? && r.actions[c].persisted &&
    forall k | c < k < i :: !(r.events[k].Will? && r.actions[k].Connect? && r.actions[k].persisted)
  }

  lemma {:induction false} FileHoldsLastSaved(r: Run, c: int, i: nat)
    requires r.Valid() && LatestSaved(r, c, i) && r.config.keepsBdSeqFile
    ensures r.nodes[i].bdSeqFile == Some(r.nodes[c].bdSeq)
    decreases i
  {
    assert r.StepAt(i - 1);
    if c < i - 1 {
      FileHoldsLastSaved(r, c, i - 1);
    }
  }

  lemma {:induction false} BdSeqUntilWill(r: Run, t: int, i: nat)
    requires r.Valid() && 0 <= t < i <= |r.actions| && r.actions[t].Restart?
    requires forall k | t < k < i :: !r.events[k].Will?
    ensures r.nodes[i].client.None? && r.nodes[i].bdSeqFile == r.nodes[t].bdSeqFile
    ensures r.nodes[i].bdSeq == Boot(r.config, r.nodes[t].bdSeqFile).bdSeq
    decreases i
  {
    assert r.StepAt(i - 1);
    if t < i - 1 {
      BdSeqUntilWill(r, t, i - 1);
    }
  }

  /** The first CONNECT after a restart uses the last saved bdSeq plus one, whatever happened between. */
  lemma RestartAdvancesBdSeq(r: Run, c: nat, t: nat, d: nat) returns (b: nat)
    requires r.Valid() && LatestSaved(r, c, t) && r.config.keepsBdSeqFile
    requires t < d < |r.actions| && r.actions[t].Restart? && r.events[d].Will?
    requires forall k | t < k < d :: !r.events[k].Will?
    ensures b < 256 && r.events[c].payload == DeathPayload(b) && r.events[d].payload == DeathPayload((b + 1) % 256)
  {
    b := r.nodes[c].bdSeq;
    WillCarriesBdSeq(r, c);
    WillCarriesBdSeq(r, d);
    FileHoldsLastSaved(r, c, t);
    assert r.StepAt(t);
    BdSeqUntilWill(r, t, d);
  }

  // ----- a node without a client that is not Disconnected -----

  predicate Stuck(n: EdgeNode) {
    n.client.None? && n.state != Disconnected
  }

  /** Actions that move the node to Dead whether or not it has a client. */
  predicate SetsDead(a: Action) {
    a.OnConnect? || a.ConnectionLost? || a.MarkDead?
  }

  /** A Rebirth before the first CONNECT is enough. */
  lemma RebirthStrands(c: Config) returns (r: Run)
    ensures r.Valid() && |r.actions| == 1 && r.actions[0].MarkDead? && Stuck(r.Last())
  {
    r := Start(c, None);
    r := After(r, MarkDead);
  }

  /** A stuck node stays stuck, connects never and publishes nothing, until the process restarts. */
  lemma {:induction false} StuckUntilRestart(r: Run, i: nat, j: nat)
    requires r.Valid() && i <= j <= |r.actions| && Stuck(r.nodes[i])
    requires forall k | i <= k < j :: !r.actions[k].Restart?
    ensures Stuck(r.nodes[j])
    ensures forall k | i <= k < j :: r.events[k] == Quiet
    decreases j
  {
    if i < j {
      StuckUntilRestart(r, i, j - 1);
      assert r.StepAt(j - 1);
    }
  }

  /** Action k moved the node to Dead while it had no client, and the process has not restarted since. */
  ghost predicate Strands(r: Run, k: int, i: int)
    requires r.Valid()
  {
    0 <= k < i <= |r.actions| && SetsDead(r.actions[k]) && r.nodes[k].client.None? &&
    forall m | k < m < i :: !r.actions[m].Restart?
  }

  /** A clientless node is stuck exactly when Rebirth or a late callback ran while it had no client. */
  lemma {:induction false} StuckIff(r: Run, i: nat)
    requires r.Valid() && i <= |r.actions| && r.nodes[i].client.None?
    ensures Stuck(r.nodes[i]) <==> exists k :: Strands(r, k, i)
  {
    if k :| Strands(r, k, i) {
      assert r.StepAt(k);
      StuckUntilRestart(r, k + 1, i);
    } else if i > 0 && Stuck(r.nodes[i]) {
      assert r.StepAt(i - 1);
      if r.nodes[i - 1].client.None? {
        StuckIff(r, i - 1);
        assert !SetsDead(r.actions[i - 1]) by {
          assert !Strands(r, i - 1, i);
        }
        var k :| Strands(r, k, i - 1);
        assert Strands(r, k, i);
      }
    }
  }
}

/** The node as the source keeps it: one object whose fields its methods update. */
module SparkplugNode {
  import opened Common
  import opened SparkplugModel
  import opened SparkplugRuns

  /** The events that reach the client, silent actions left out. */
  ghost function Loud(events: seq<Event>): seq<Event> {
    if events == [] then []
    else Loud(events[..|events| - 1]) + if events[|events| - 1].Quiet? then [] else [events[|events| - 1]]
  }

  lemma LoudAppend(events: seq<Event>, e: Event)
    ensures Loud(events + [e]) == Loud(events) + if e.Quiet? then [] else [e]
  {
    assert (events + [e])[..|events|] == events;
  }

  /** The DBIRTH attempts that follow an NBIRTH: one a device, numbered from 1. */
  function DeviceBirths(metrics: map<string, seq<Metric>>, births: seq<(string, Outcome)>): seq<Event>
    requires forall b | b in births :: b.0 in metrics
  {
    seq(|births|, k requires 0 <= k < |births| =>
      Attempt(DBirth, births[k].0, Payload(Some((k + 1) % 256), metrics[births[k].0]), births[k].1))
  }

  lemma DeviceBirthsExtend(metrics: map<string, seq<Metric>>, births: seq<(string, Outcome)>, k: nat)
    requires k < |births| && forall b | b in births :: b.0 in metrics
    ensures births[k].0 in metrics && DeviceBirths(metrics, births[..k + 1]) == DeviceBirths(metrics, births[..k]) +
              [Attempt(DBirth, births[k].0, Payload(Some((k % 256 + 1) % 256), metrics[births[k].0]), births[k].1)]
  {
    assert births[k] in births && births[..k + 1] == births[..k] + [births[k]];
    AddModulo(k, 1);
  }

  class SparkplugNode {
    const config: Config
    var state: NodeState
    var client: Option<Client>
    var bdSeq: nat
    var seqNo: nat
    var nodeMetrics: seq<Metric>
    var deviceMetrics: map<string, seq<Metric>>
    var hostOnline: bool
    var hostTimestamp: int
    var birthed: bool
    var bdSeqFile: Option<nat>
    var outbox: seq<Event>  // every CONNECT and publish attempt so far
    ghost var run: Run      // the run that led here

    ghost function Fields(): EdgeNode
      reads this
    {
      EdgeNode(state, client, bdSeq, seqNo, nodeMetrics, deviceMetrics, hostOnline, hostTimestamp, birthed, bdSeqFile)
    }

    ghost predicate Valid()
      reads this
    {
      run.Valid() && run.config == config && run.Last() == Fields() && outbox == Loud(run.events)
    }

    constructor (c: Config, file: Option<nat>)
      ensures Valid() && run == Start(c, file) && config == c
    {
      config := c;
      state, client, seqNo, nodeMetrics, deviceMetrics := Disconnected, None, 0, [], map[];
      hostOnline, hostTimestamp, birthed, bdSeqFile, outbox := false, 0, false, file, [];
      bdSeq := 0;
      if c.keepsBdSeqFile {
        if file.Some? {
          bdSeq := (file.value + 1) % 256;
        }
      }
      run := Start(c, file);
    }

    /** Records that the section just run was action `a`; the fields must show its effect. */
    ghost method Record(a: Action)
      requires run.Valid() && run.config == config
      requires Fields() == Step(config, run.Last(), a)
      requires var e := Emit(config, run.Last(), a); outbox == Loud(run.events) + if e.Quiet? then [] else [e]
      modifies this`run
      ensures Valid() && run == old(run).Then(a)
    {
      LoudAppend(run.events, Emit(config, run.Last(), a));
      ThenIsRun(run, a);
      run := run.Then(a);
    }

    method Connect(encoded: bool, connected: bool, persisted: bool) returns (ok: bool)
      requires Valid()
      modifies this
      ensures Valid() && run == old(run).Then(Action.Connect(encoded, connected, persisted))
      ensures ok <==> old(state) == Disconnected && encoded && connected
    {
      ok := false;
      if state == Disconnected {
        var will := Payload(None, [Metric("bdSeq", bdSeq)]);
        if encoded && connected {
          outbox := outbox + [Will(will)];
          client := Some(Client(will));
          state := Dead;
          if config.keepsBdSeqFile && persisted {
            bdSeqFile := Some(bdSeq);
          }
          ok := true;
        }
      }
      Record(Action.Connect(encoded, connected, persisted));
    }

    /** The client library opens a new connection by itself; the node learns of it in OnConnect. */
    method Reconnect()
      requires Valid()
      modifies this
      ensures Valid() && run == old(run).Then(Action.Reconnect)
    {
      if client.Some? {
        outbox := outbox + [Will(client.value.will)];
      }
      Record(Action.Reconnect);
    }

    /** The locked section of onConnect; the result says whether Birth follows at once. */
    method OnConnect() returns (birthNow: bool)
      requires Valid()
      modifies this
      ensures Valid() && run == old(run).Then(Action.OnConnect)
      ensures birthNow <==> FollowUpOf(config, old(Fields()), Action.OnConnect) == StartBirth
    {
      state := Dead;
      birthed := false;
      hostOnline := false;
      hostTimestamp := 0;
      birthNow := config.primaryHost == "";
      Record(Action.OnConnect);
    }

    method ConnectionLost()
      requires Valid()
      modifies this
      ensures Valid() && run == old(run).Then(Action.ConnectionLost)
    {
      state := Dead;
      Record(Action.ConnectionLost);
    }

    /** The first section of Rebirth; Birth follows in a section of its own. */
    method MarkDead()
      requires Valid()
      modifies this
      ensures Valid() && run == old(run).Then(Action.MarkDead)
    {
      state := Dead;
      Record(Action.MarkDead);
    }

    /** The guards of Birth and its NBIRTH; `born` says whether the DBIRTHs follow. */
    method PublishNodeBirth(outcome: Outcome) returns (born: bool)
      requires Valid()
      modifies this
      ensures Valid() && run == old(run).Then(NodeBirth(outcome))
      ensures born <==> old(MayBirth(config, Fields())) && outcome == Sent
      ensures deviceMetrics == old(deviceMetrics) && (born ==> MayPublish(Fields()) && seqNo == 0)
      ensures outbox == old(outbox) +
                        if old(MayBirth(config, Fields()))
                        then [Attempt(NBirth, "", old(NodeBirthPayload(ResetSeq(Fields()))), outcome)] else []
    {
      born := false;
      if state != Disconnected && client.Some? && !(config.primaryHost != "" && !hostOnline) {
        seqNo := 0;
        var metrics := [Metric("bdSeq", bdSeq), Metric("Node Control/Rebirth", 0)] + nodeMetrics;
        outbox := outbox + [Attempt(NBirth, "", Payload(Some(seqNo), metrics), outcome)];
        if outcome == Sent {
          state := Born;
          birthed := true;
          born := true;
        }
      }
      Record(NodeBirth(outcome));
    }

    /**
    The locked section of Birth. `births` is the order in which the device map is walked, with the
    outcome of each DBIRTH.
    */
    method Birth(outcome: Outcome, births: seq<(string, Outcome)>)
      requires Valid()
      requires forall b | b in births :: b.0 in deviceMetrics
      requires forall d | d in deviceMetrics :: exists k :: 0 <= k < |births| && births[k].0 == d
      requires forall k, l | 0 <= k < l < |births| :: births[k].0 != births[l].0
      modifies this
      ensures Valid() && old(run).actions + [NodeBirth(outcome)] <= run.actions
      ensures deviceMetrics == old(deviceMetrics)
      ensures !old(MayBirth(config, Fields())) ==> outbox == old(outbox)
      ensures old(MayBirth(config, Fields())) ==>
                outbox == old(outbox) + [Attempt(NBirth, "", old(NodeBirthPayload(ResetSeq(Fields()))), outcome)] +
                          if outcome == Sent then DeviceBirths(deviceMetrics, births) else []
    {
      var born := PublishNodeBirth(outcome);
      if born {
        PublishDeviceBirths(births);
      }
    }

    method PublishDeviceBirths(births: seq<(string, Outcome)>)
      requires Valid() && MayPublish(Fields()) && seqNo == 0
      requires forall b | b in births :: b.0 in deviceMetrics
      modifies this
      ensures Valid() && old(run).actions <= run.actions && deviceMetrics == old(deviceMetrics)
      ensures outbox == old(outbox) + DeviceBirths(deviceMetrics, births)
    {
      for k := 0 to |births|
        invariant Valid() && old(run).actions <= run.actions
        invariant MayPublish(Fields()) && deviceMetrics == old(deviceMetrics) && seqNo == k % 256
        invariant outbox == old(outbox) + DeviceBirths(deviceMetrics, births[..k])
      {
        DeviceBirthsExtend(deviceMetrics, births, k);
        PublishNextDeviceBirth(births[k].0, births[k].1, k);
      }
      assert births[..|births|] == births;
    }

    method PublishNextDeviceBirth(device: string, outcome: Outcome, ghost k: nat)
      requires Valid() && MayPublish(Fields()) && device in deviceMetrics && seqNo == k % 256
      modifies this
      ensures Valid() && old(run).actions <= run.actions
      ensures MayPublish(Fields()) && deviceMetrics == old(deviceMetrics) && seqNo == (k + 1) % 256
      ensures outbox == old(outbox) +
                        [Attempt(DBirth, device, Payload(Some((k % 256 + 1) % 256), deviceMetrics[device]), outcome)]
    {
      PublishDeviceBirthLocked(device, deviceMetrics[device], outcome);
      AddModulo(k, 1);
    }

    method PublishDeviceBirthLocked(device: string, metrics: seq<Metric>, outcome: Outcome)
      requires Valid() && MayPublish(Fields()) && device in deviceMetrics && metrics == deviceMetrics[device]
      modifies this
      ensures Valid() && run == old(run).Then(Action.DeviceBirth(device, outcome))
      ensures Fields() == old(Fields()).(seqNo := (old(seqNo) + 1) % 256)
      ensures outbox == old(outbox) + [Attempt(DBirth, device, Payload(Some(seqNo), metrics), outcome)]
    {
      seqNo := (seqNo + 1) % 256;
      outbox := outbox + [Attempt(DBirth, device, Payload(Some(seqNo), metrics), outcome)];
      Record(Action.DeviceBirth(device, outcome));
    }

    /** Serves PublishDeviceData and PublishDeviceDataPayload, which differ in who stamps the payload. */
    method PublishDeviceData(device: string, metrics: seq<Metric>, outcome: Outcome) returns (ok: bool)
      requires Valid()
      modifies this
      ensures Valid() && run == old(run).Then(Action.DeviceData(device, metrics, outcome))
      ensures ok <==> old(MayPublish(Fields())) && outcome == Sent
      ensures outbox == old(outbox) +
                        if old(MayPublish(Fields())) then [Attempt(DData, device, Payload(Some(seqNo), metrics), outcome)] else []
      ensures seqNo == if old(MayPublish(Fields())) then (old(seqNo) + 1) % 256 else old(seqNo)
    {
      ok := false;
      if state == Born && client.Some? {
        seqNo := (seqNo + 1) % 256;
        outbox := outbox + [Attempt(DData, device, Payload(Some(seqNo), metrics), outcome)];
        ok := outcome == Sent;
      }
      Record(Action.DeviceData(device, metrics, outcome));
    }

    method PublishDeviceBirth(device: string, outcome: Outcome)
      requires Valid()
      modifies this
      ensures Valid() && run == old(run).Then(Action.DeviceBirth(device, outcome))
    {
      if state == Born && client.Some? && device in deviceMetrics {
        PublishDeviceBirthLocked(device, deviceMetrics[device], outcome);
      } else {
        Record(Action.DeviceBirth(device, outcome));
      }
    }

    method SetNodeMetrics(metrics: seq<Metric>)
      requires Valid()
      modifies this
      ensures Valid() && run == old(run).Then(Action.SetNodeMetrics(metrics))
    {
      nodeMetrics := metrics;
      Record(Action.SetNodeMetrics(metrics));
    }

    method SetDeviceMetrics(device: string, metrics: seq<Metric>) returns (isNew: bool)
      requires Valid()
      modifies this
      ensures Valid() && run == old(run).Then(Action.SetDeviceMetrics(device, metrics))
      ensures isNew <==> device !in old(deviceMetrics)
    {
      isNew := device !in deviceMetrics;
      deviceMetrics := deviceMetrics[device := metrics];
      Record(Action.SetDeviceMetrics(device, metrics));
    }

    method Disconnect(outcome: Outcome)
      requires Valid()
      modifies this
      ensures Valid() && run == old(run).Then(Action.Disconnect(outcome))
    {
      if client.Some? {
        if state == Born {
          outbox := outbox + [Attempt(NDeath, "", Payload(None, [Metric("bdSeq", bdSeq)]), outcome)];
          bdSeq := (bdSeq + 1) % 256;
        }
        client := None;
        state := Disconnected;
      } else {
        assert state != Born by {
          var s := BornSession(run, |run.actions|);
        }
      }
      Record(Action.Disconnect(outcome));
    }

    method ProcessHostState(host: string, online: bool, timestamp: int) returns (next: FollowUp)
      requires Valid()
      modifies this
      ensures Valid() && run == old(run).Then(Action.HostState(host, online, timestamp))
      ensures next == FollowUpOf(config, old(Fields()), Action.HostState(host, online, timestamp))
    {
      next := Nothing;
      if config.primaryHost == "" || host == config.primaryHost {
        if timestamp >= hostTimestamp {
          hostTimestamp := timestamp;
          var wasOnline := hostOnline;
          hostOnline := online;
          if config.primaryHost != "" {
            if online && !birthed {
              next := StartBirth;
            } else if !online && wasOnline && birthed && client.Some? {
              next := StartDisconnect;
            }
          }
        }
      }
      Record(Action.HostState(host, online, timestamp));
    }
  }
}
