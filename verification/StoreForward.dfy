/**
The store-and-forward buffer of internal/mqtt/storeforward.go: a bounded queue of DDATA records
with counters, a drain mode, and two histories that are trimmed as time passes.
Times are nanoseconds of a clock that never goes back.
*/
module StoreForwardModel {
  import opened Common

  const HOUR: int := 3_600_000_000_000
  const RATE_WINDOW: int := 10_000_000_000

  datatype Mode = Online | Offline | Draining

  datatype Metric = Metric(name: string, value: int, historical: bool)

  /** The payload is absent where the source holds nil. */
  datatype Record = Record(device: string, payload: Option<seq<Metric>>, timestamp: int)

  datatype Entry = Entry(timestamp: int, mode: Mode)

  datatype Buffer = Buffer(
    mode: Mode,
    records: seq<Record>,
    maxCount: nat,
    drainRate: nat,
    totalBuffered: nat,
    totalDrained: nat,
    totalEvicted: nat,
    publishTimes: seq<int>,
    timeline: seq<Entry>)

  datatype Action =
    | SetOnline
    | SetOffline
    | Store(record: Record)
    | Drain
    | RecordPublish(metricCount: int)
    | QueryRate

  function Historical(rec: Record): Record {
    match rec.payload
    case None => rec
    case Some(ms) => rec.(payload := Some(seq(|ms|, i requires 0 <= i < |ms| => ms[i].(historical := true))))
  }

  function AllHistorical(records: seq<Record>): seq<Record> {
    seq(|records|, i requires 0 <= i < |records| => Historical(records[i]))
  }

  /** Drops entries that a later entry from before the cutoff has superseded. */
  function TrimTimeline(entries: seq<Entry>, cutoff: int): seq<Entry> {
    if |entries| > 2 && entries[0].timestamp < cutoff && entries[1].timestamp < cutoff
    then TrimTimeline(entries[1..], cutoff) else entries
  }

  function TrimTimes(times: seq<int>, cutoff: int): seq<int> {
    if times != [] && times[0] < cutoff then TrimTimes(times[1..], cutoff) else times
  }

  /** The entries TrimTimeline drops. */
  ghost function Superseded(entries: seq<Entry>, cutoff: int): (r: seq<Entry>)
    ensures r + TrimTimeline(entries, cutoff) == entries
    ensures var kept := TrimTimeline(entries, cutoff);
      (entries != [] ==> kept != []) && (r != [] ==> kept != [] && kept[0].timestamp < cutoff)
  {
    if |entries| > 2 && entries[0].timestamp < cutoff && entries[1].timestamp < cutoff
    then
      var rest := Superseded(entries[1..], cutoff);
      PrependSplit(entries, rest, TrimTimeline(entries[1..], cutoff));
      [entries[0]] + rest
    else []
  }

  /** The times TrimTimes drops. */
  ghost function Expired(times: seq<int>, cutoff: int): (r: seq<int>)
    ensures r + TrimTimes(times, cutoff) == times
    ensures forall i | 0 <= i < |r| :: r[i] < cutoff
    ensures var kept := TrimTimes(times, cutoff); kept != [] ==> kept[0] >= cutoff
  {
    if times != [] && times[0] < cutoff then
      var rest := Expired(times[1..], cutoff);
      PrependSplit(times, rest, TrimTimes(times[1..], cutoff));
      [times[0]] + rest
    else []
  }

  lemma PrependSplit<T>(all: seq<T>, front: seq<T>, back: seq<T>)
    requires all != [] && front + back == all[1..]
    ensures [all[0]] + front + back == all
  {
    assert [all[0]] + front + back == [all[0]] + (front + back);
  }

  function Enter(b: Buffer, mode: Mode, now: int): Buffer {
    b.(mode := mode, timeline := TrimTimeline(b.timeline + [Entry(now, mode)], now - HOUR))
  }

  function Copies(n: int, now: int): seq<int> {
    seq(if n < 0 then 0 else n, _ => now)
  }

  /** How many of the oldest records a call takes out: by eviction, or as a drained batch. */
  function Removed(b: Buffer, a: Action): (n: nat)
    ensures n <= |b.records|
  {
    match a
    case Store(_) => if |b.records| < b.maxCount then 0 else if b.maxCount == 0 then |b.records| else |b.records| - b.maxCount + 1
    case Drain => if b.mode != Draining then 0 else if b.drainRate > |b.records| then |b.records| else b.drainRate
    case _ => 0
  }

  /** What one call at time `now` leaves, and the records it returns. */
  function Step(b: Buffer, a: Action, now: int): (Buffer, seq<Record>) {
    match a
    case SetOnline =>
      (if b.mode == Online then b
       else if |b.records| > 0 then Enter(b, Draining, now)
       else Enter(b, Online, now), [])
    case SetOffline => (if b.mode == Offline then b else Enter(b, Offline, now), [])
    case Store(record) =>
      var excess := Removed(b, a);
      (b.(records := b.records[excess..] + [record],
          totalEvicted := b.totalEvicted + excess,
          totalBuffered := b.totalBuffered + 1), [])
    case Drain =>
      if b.mode != Draining then (b, [])
      else if b.records == [] then (Enter(b, Online, now), [])
      else
        var n := Removed(b, a);
        (b.(records := b.records[n..], totalDrained := b.totalDrained + n), AllHistorical(b.records[..n]))
    case RecordPublish(metricCount) =>
      (b.(publishTimes := TrimTimes(b.publishTimes + Copies(metricCount, now), now - RATE_WINDOW)), [])
    case QueryRate => (b.(publishTimes := TrimTimes(b.publishTimes + [], now - RATE_WINDOW)), [])
  }

  function New(maxRecords: int, drainRate: int, now: int): Buffer {
    Buffer(Offline, [], if maxRecords <= 0 then 10000 else maxRecords, if drainRate <= 0 then 100 else drainRate,
           0, 0, 0, [], [Entry(now, Offline)])
  }

  /**
  Everything the buffer forgets: all records stored, those of them evicted or drained, all records
  returned with the position each had among the stored, all mode changes, all publish times, and
  the trimmed-off parts of both.
  */
  datatype History = History(
    stored: seq<Record>,
    gone: seq<Record>,
    drained: seq<Record>,
    origin: seq<nat>,
    transitions: seq<Entry>,
    superseded: seq<Entry>,
    published: seq<int>,
    expired: seq<int>,
    clock: int)

  function Begin(now: int): History {
    History([], [], [], [], [Entry(now, Offline)], [], [], [], now)
  }

  ghost function Note(h: History, b: Buffer, a: Action, now: int): History {
    var (b', batch) := Step(b, a, now);
    h.(stored := h.stored + (if a.Store? then [a.record] else []),
       gone := h.gone + b.records[..Removed(b, a)],
       drained := h.drained + batch,
       origin := h.origin + seq(|batch|, i requires 0 <= i < |batch| => |h.gone| + i),
       transitions := h.transitions + (if EntersMode(b, a) then [Entry(now, b'.mode)] else []),
       superseded := h.superseded +
         (if EntersMode(b, a) then Superseded(b.timeline + [Entry(now, b'.mode)], now - HOUR) else []),
       published := h.published + Published(a, now),
       expired := h.expired +
         (if a.RecordPublish? || a.QueryRate? then Expired(b.publishTimes + Published(a, now), now - RATE_WINDOW) else []),
       clock := now)
  }

  function Published(a: Action, now: int): seq<int> {
    if a.RecordPublish? then Copies(a.metricCount, now) else []
  }

  /** The calls that record a mode change. */
  predicate EntersMode(b: Buffer, a: Action) {
    match a
    case SetOnline => b.mode != Online
    case SetOffline => b.mode != Offline
    case Drain => b.mode == Draining && b.records == []
    case _ => false
  }

  /** The mode in force at time t: that of the last entry not after t. */
  function ModeAt(entries: seq<Entry>, t: int): Option<Mode> {
    if entries == [] then None
    else if entries[|entries| - 1].timestamp <= t then Some(entries[|entries| - 1].mode)
    else ModeAt(entries[..|entries| - 1], t)
  }

  function CountSince(times: seq<int>, cutoff: int): nat {
    if times == [] then 0
    else CountSince(times[..|times| - 1], cutoff) + if times[|times| - 1] >= cutoff then 1 else 0
  }
}

/** What holds after every sequence of calls. */
module StoreForwardRuns {
  import opened StoreForwardModel

  ghost predicate Conserved(b: Buffer, h: History) {
    0 < b.maxCount && 0 < b.drainRate && |b.records| <= b.maxCount &&
    b.totalBuffered == |h.stored| && b.totalDrained == |h.drained| &&
    b.totalBuffered == b.totalDrained + b.totalEvicted + |b.records|
  }

  /** The buffer is the newest records stored. */
  ghost predicate HoldsNewest(b: Buffer, h: History) {
    h.stored == h.gone + b.records
  }

  /** What came out is stored records, each at most once, in arrival order, marked historical. */
  ghost predicate DrainedInOrder(h: History) {
    |h.origin| == |h.drained| && |h.gone| <= |h.stored| &&
    (forall k | 0 <= k < |h.origin| :: h.origin[k] < |h.gone|) &&
    (forall k, l | 0 <= k < l < |h.origin| :: h.origin[k] < h.origin[l]) &&
    forall k | 0 <= k < |h.origin| :: h.drained[k] == Historical(h.stored[h.origin[k]])
  }

  /** Entries in time order, none after the clock. */
  ghost predicate SortedEntries(entries: seq<Entry>, clock: int) {
    (forall i, j | 0 <= i < j < |entries| :: entries[i].timestamp <= entries[j].timestamp) &&
    forall i | 0 <= i < |entries| :: entries[i].timestamp <= clock
  }

  /** The timeline is the full history without entries superseded more than an hour ago. */
  ghost predicate Trimmed(timeline: seq<Entry>, transitions: seq<Entry>, superseded: seq<Entry>, clock: int) {
    SortedEntries(transitions, clock) && timeline != [] && transitions == superseded + timeline &&
    (superseded != [] ==> timeline[0].timestamp < clock - HOUR)
  }

  ghost predicate TimelineTrimmed(b: Buffer, h: History) {
    Trimmed(b.timeline, h.transitions, h.superseded, h.clock)
  }

  ghost predicate SortedTimes(times: seq<int>, clock: int) {
    (forall i, j | 0 <= i < j < |times| :: times[i] <= times[j]) && forall i | 0 <= i < |times| :: times[i] <= clock
  }

  ghost predicate AllBefore(times: seq<int>, cutoff: int) {
    forall i | 0 <= i < |times| :: times[i] < cutoff
  }

  /** The publish window is the full list without times more than ten seconds old. */
  ghost predicate TimesTrimmed(b: Buffer, h: History) {
    SortedTimes(h.published, h.clock) && h.published == h.expired + b.publishTimes &&
    AllBefore(h.expired, h.clock - RATE_WINDOW)
  }

  ghost predicate Inv(b: Buffer, h: History) {
    Conserved(b, h) && HoldsNewest(b, h) && DrainedInOrder(h) && TimelineTrimmed(b, h) && TimesTrimmed(b, h)
  }

  // ----- each call keeps each part -----

  lemma StepConserves(b: Buffer, h: History, a: Action, now: int)
    requires Conserved(b, h)
    ensures Conserved(Step(b, a, now).0, Note(h, b, a, now))
  {
    StepRecords(b, a, now);
    StepCounts(b, a, now);
    NoteCounts(h, b, a, now);
  }

  /** A call counts what it stores, what it takes out to make room, and what it drains. */
  lemma StepCounts(b: Buffer, a: Action, now: int)
    ensures var b', n := Step(b, a, now).0, Removed(b, a);
      b'.maxCount == b.maxCount && b'.drainRate == b.drainRate &&
      b'.totalBuffered == b.totalBuffered + (if a.Store? then 1 else 0) &&
      b'.totalEvicted == b.totalEvicted + (if a.Store? then n else 0) &&
      b'.totalDrained == b.totalDrained + if a.Drain? then n else 0
  {
  }

  lemma NoteCounts(h: History, b: Buffer, a: Action, now: int)
    ensures var h' := Note(h, b, a, now);
      |h'.stored| == |h.stored| + (if a.Store? then 1 else 0) &&
      |h'.drained| == |h.drained| + if a.Drain? then Removed(b, a) else 0
  {
  }

  lemma StepHoldsNewest(b: Buffer, h: History, a: Action, now: int)
    requires Conserved(b, h) && HoldsNewest(b, h)
    ensures HoldsNewest(Step(b, a, now).0, Note(h, b, a, now))
  {
    var n := Removed(b, a);
    var added := if a.Store? then [a.record] else [];
    StepRecords(b, a, now);
    MoveAcross(h.gone, b.records, n, added);
  }

  lemma MoveAcross<T>(gone: seq<T>, records: seq<T>, n: nat, added: seq<T>)
    requires n <= |records|
    ensures gone + records + added == gone + records[..n] + (records[n..] + added)
  {
  }

  /** A call takes records off the front and, when it stores, adds one at the end. */
  lemma StepRecords(b: Buffer, a: Action, now: int)
    ensures Step(b, a, now).0.records == b.records[Removed(b, a)..] + if a.Store? then [a.record] else []
  {
  }

  lemma StepDrainsInOrder(b: Buffer, h: History, a: Action, now: int)
    requires Conserved(b, h) && HoldsNewest(b, h) && DrainedInOrder(h)
    ensures DrainedInOrder(Note(h, b, a, now))
  {
  }

  lemma EntryKeepsTrimmed(timeline: seq<Entry>, transitions: seq<Entry>, superseded: seq<Entry>, clock: int, e: Entry)
    requires Trimmed(timeline, transitions, superseded, clock) && clock <= e.timestamp
    ensures var cutoff := e.timestamp - HOUR;
      Trimmed(TrimTimeline(timeline + [e], cutoff), transitions + [e],
              superseded + Superseded(timeline + [e], cutoff), e.timestamp)
  {
    var dropped := Superseded(timeline + [e], e.timestamp - HOUR);
    var kept := TrimTimeline(timeline + [e], e.timestamp - HOUR);
    Regroup(superseded, timeline, [e], dropped, kept);
    SortedAppend(transitions, clock, e);
    if dropped == [] {
      assert kept[0] == timeline[0] && superseded + dropped == superseded;
    }
  }

  lemma SuffixSorted(older: seq<Entry>, kept: seq<Entry>, clock: int)
    requires SortedEntries(older + kept, clock)
    ensures SortedEntries(kept, clock)
  {
    var all := older + kept;
    assert forall i | 0 <= i < |kept| :: kept[i] == all[|older| + i];
  }

  lemma SortedAppend(entries: seq<Entry>, clock: int, e: Entry)
    requires SortedEntries(entries, clock) && clock <= e.timestamp
    ensures SortedEntries(entries + [e], e.timestamp)
  {
  }

  lemma Regroup<T>(a: seq<T>, b: seq<T>, c: seq<T>, d: seq<T>, k: seq<T>)
    requires b + c == d + k
    ensures a + b + c == a + d + k
  {
    assert a + b + c == a + (b + c) && a + d + k == a + (d + k);
  }

  lemma StepTrimsTimeline(b: Buffer, h: History, a: Action, now: int)
    requires TimelineTrimmed(b, h) && h.clock <= now
    ensures TimelineTrimmed(Step(b, a, now).0, Note(h, b, a, now))
  {
    StepTimeline(b, a, now);
    NoteTimeline(b, h, a, now);
    NextTrimmed(b, h, EntersMode(b, a), Entry(now, Step(b, a, now).0.mode), Step(b, a, now).0, Note(h, b, a, now));
  }

  lemma NextTrimmed(b: Buffer, h: History, enters: bool, e: Entry, b': Buffer, h': History)
    requires TimelineTrimmed(b, h) && h.clock <= e.timestamp == h'.clock
    requires b'.timeline == if enters then TrimTimeline(b.timeline + [e], e.timestamp - HOUR) else b.timeline
    requires h'.transitions == if enters then h.transitions + [e] else h.transitions
    requires h'.superseded ==
             if enters then h.superseded + Superseded(b.timeline + [e], e.timestamp - HOUR) else h.superseded
    ensures TimelineTrimmed(b', h')
  {
    if enters {
      EntryKeepsTrimmed(b.timeline, h.transitions, h.superseded, h.clock, e);
    }
  }

  lemma NoteTimeline(b: Buffer, h: History, a: Action, now: int)
    ensures var e, h' := Entry(now, Step(b, a, now).0.mode), Note(h, b, a, now);
      h'.clock == now &&
      (h'.transitions == if EntersMode(b, a) then h.transitions + [e] else h.transitions) &&
      h'.superseded == if EntersMode(b, a) then h.superseded + Superseded(b.timeline + [e], now - HOUR) else h.superseded
  {
    assert h.transitions + [] == h.transitions && h.superseded + [] == h.superseded;
  }

  /** A call that changes the mode records it, and no other touches the timeline. */
  lemma StepTimeline(b: Buffer, a: Action, now: int)
    ensures Step(b, a, now).0.timeline ==
            if EntersMode(b, a) then TrimTimeline(b.timeline + [Entry(now, Step(b, a, now).0.mode)], now - HOUR) else b.timeline
  {
  }

  lemma StepTrimsTimes(b: Buffer, h: History, a: Action, now: int)
    requires TimesTrimmed(b, h) && h.clock <= now
    ensures TimesTrimmed(Step(b, a, now).0, Note(h, b, a, now))
  {
    var b', h' := Step(b, a, now).0, Note(h, b, a, now);
    var added := Published(a, now);
    if a.RecordPublish? || a.QueryRate? {
      assert b'.publishTimes == TrimTimes(b.publishTimes + added, now - RATE_WINDOW);
      TimesKept(h.published, h.expired, b.publishTimes, h.clock, added, now);
    } else {
      assert b'.publishTimes == b.publishTimes && h'.expired == h.expired && h'.published == h.published;
    }
  }

  lemma TimesKept(published: seq<int>, expired: seq<int>, kept: seq<int>, clock: int, added: seq<int>, now: int)
    requires SortedTimes(published, clock) && published == expired + kept && AllBefore(expired, clock - RATE_WINDOW)
    requires clock <= now && forall i | 0 <= i < |added| :: added[i] == now
    ensures SortedTimes(published + added, now)
    ensures AllBefore(expired + Expired(kept + added, now - RATE_WINDOW), now - RATE_WINDOW)
    ensures published + added ==
            expired + Expired(kept + added, now - RATE_WINDOW) + TrimTimes(kept + added, now - RATE_WINDOW)
  {
    TimesSplit(expired, kept, added, now - RATE_WINDOW);
  }

  lemma TimesSplit(older: seq<int>, kept: seq<int>, added: seq<int>, cutoff: int)
    ensures older + kept + added == older + Expired(kept + added, cutoff) + TrimTimes(kept + added, cutoff)
  {
    Regroup(older, kept, added, Expired(kept + added, cutoff), TrimTimes(kept + added, cutoff));
  }

  lemma StepKeepsInv(b: Buffer, h: History, a: Action, now: int)
    requires Inv(b, h) && h.clock <= now
    ensures Inv(Step(b, a, now).0, Note(h, b, a, now))
  {
    StepConserves(b, h, a, now);
    StepHoldsNewest(b, h, a, now);
    StepDrainsInOrder(b, h, a, now);
    StepTrimsTimeline(b, h, a, now);
    StepTrimsTimes(b, h, a, now);
  }

  /** The buffer and its full history after a sequence of timed calls. */
  ghost function RunFrom(b: Buffer, h: History, calls: seq<(Action, int)>): (Buffer, History)
    decreases |calls|
  {
    if calls == [] then (b, h)
    else RunFrom(Step(b, calls[0].0, calls[0].1).0, Note(h, b, calls[0].0, calls[0].1), calls[1..])
  }

  /** The clock does not go back. */
  ghost predicate InTimeOrder(calls: seq<(Action, int)>, start: int) {
    (calls != [] ==> start <= calls[0].1) && forall i | 0 < i < |calls| :: calls[i - 1].1 <= calls[i].1
  }

  lemma {:induction false} RunKeepsInv(b: Buffer, h: History, calls: seq<(Action, int)>)
    requires Inv(b, h) && InTimeOrder(calls, h.clock)
    ensures var r := RunFrom(b, h, calls); Inv(r.0, r.1)
    decreases |calls|
  {
    if calls != [] {
      StepKeepsInv(b, h, calls[0].0, calls[0].1);
      RunKeepsInv(Step(b, calls[0].0, calls[0].1).0, Note(h, b, calls[0].0, calls[0].1), calls[1..]);
    }
  }

  /** Every run of a new buffer conserves records, drains in order and trims only what is out of date. */
  lemma EveryRun(maxRecords: int, drainRate: int, start: int, calls: seq<(Action, int)>)
    requires InTimeOrder(calls, start)
    ensures var (b, h) := RunFrom(New(maxRecords, drainRate, start), Begin(start), calls); Inv(b, h)
  {
    RunKeepsInv(New(maxRecords, drainRate, start), Begin(start), calls);
  }

  // ----- the trimmed histories answer like the full ones -----

  lemma {:induction false} ModeAtSuffix(older: seq<Entry>, kept: seq<Entry>, t: int)
    requires kept != [] && kept[0].timestamp <= t
    ensures ModeAt(older + kept, t) == ModeAt(kept, t)
  {
    var all := older + kept;
    assert all[..|all| - 1] == older + kept[..|kept| - 1];
    if kept[|kept| - 1].timestamp > t {
      ModeAtSuffix(older, kept[..|kept| - 1], t);
    }
  }

  /** At every instant of the last hour the timeline shows the mode the full history shows. */
  lemma TimelineAnswers(b: Buffer, h: History, t: int)
    requires TimelineTrimmed(b, h) && t >= h.clock - HOUR
    ensures ModeAt(b.timeline, t) == ModeAt(h.transitions, t)
  {
    if h.superseded == [] {
      assert h.transitions == b.timeline;
    } else {
      ModeAtSuffix(h.superseded, b.timeline, t);
    }
  }

  lemma {:induction false} CountAllOld(stale: seq<int>, kept: seq<int>, cutoff: int)
    requires AllBefore(stale, cutoff)
    requires forall i | 0 <= i < |kept| :: kept[i] >= cutoff
    ensures CountSince(stale + kept, cutoff) == |kept|
    decreases |stale| + |kept|
  {
    var all := stale + kept;
    if kept != [] {
      assert all[..|all| - 1] == stale + kept[..|kept| - 1];
      CountAllOld(stale, kept[..|kept| - 1], cutoff);
    } else if stale != [] {
      assert all[..|all| - 1] == stale[..|stale| - 1] + kept;
      CountAllOld(stale[..|stale| - 1], kept, cutoff);
      assert all[|all| - 1] == stale[|stale| - 1];
    }
  }

  /** A rate query counts exactly the publishes of the last ten seconds. */
  lemma RateCountsWindow(b: Buffer, h: History, now: int)
    requires TimesTrimmed(b, h) && h.clock <= now
    ensures |Step(b, QueryRate, now).0.publishTimes| == CountSince(h.published, now - RATE_WINDOW)
  {
    StepTrimsTimes(b, h, QueryRate, now);
    var h' := Note(h, b, QueryRate, now);
    assert h'.published == h.published;
    var kept := Step(b, QueryRate, now).0.publishTimes;
    ghost var gone := Expired(b.publishTimes + [], now - RATE_WINDOW);
    forall i | 0 <= i < |kept|
      ensures kept[i] >= now - RATE_WINDOW
    {
      assert kept[0] == h'.published[|h'.expired|] && kept[i] == h'.published[|h'.expired| + i];
    }
    CountAllOld(h'.expired, kept, now - RATE_WINDOW);
  }

  // ----- draining comes to an end -----

  /** The buffer after Drain calls at the given times and nothing else, with all they returned. */
  ghost function Drains(b: Buffer, times: seq<int>): (Buffer, seq<Record>)
    decreases |times|
  {
    if times == [] then (b, [])
    else
      var (b1, batch) := Step(b, Drain, times[0]);
      var (b2, rest) := Drains(b1, times[1..]);
      (b2, batch + rest)
  }

  /** After k Drain calls n records have left, at most `rate` a call, and one more call found none. */
  ghost predicate Emptied(k: nat, n: nat, rate: nat) {
    k > 0 && (n == 0 || Emptied(k - 1, if rate > n then 0 else n - rate, rate))
  }

  /** That takes ceil(n / rate) + 1 calls. */
  lemma {:induction false} EmptiedIff(k: nat, n: nat, rate: nat)
    requires rate > 0
    ensures Emptied(k, n, rate) <==> k >= 1 && (k - 1) * rate >= n
  {
    if k > 0 && n > 0 {
      EmptiedIff(k - 1, if rate > n then 0 else n - rate, rate);
      assert (k - 1) * rate == (k - 2) * rate + rate;
    }
  }

  lemma DrainOnce(b: Buffer, now: int)
    requires b.mode == Draining && b.records != []
    ensures var (b1, batch) := Step(b, Drain, now); var n := if b.drainRate > |b.records| then |b.records| else b.drainRate;
      b1.mode == Draining && b1.drainRate == b.drainRate && b1.records == b.records[n..] &&
      batch + AllHistorical(b1.records) == AllHistorical(b.records)
  {
  }

  lemma {:induction false} DrainsUntilEmptied(b: Buffer, times: seq<int>)
    requires b.mode == Draining
    ensures Drains(b, times).0.mode == if Emptied(|times|, |b.records|, b.drainRate) then Online else Draining
    ensures Emptied(|times|, |b.records|, b.drainRate) ==> Drains(b, times).1 == AllHistorical(b.records)
    decreases |times|
  {
    if times != [] {
      var (b1, batch) := Step(b, Drain, times[0]);
      assert Drains(b, times).1 == batch + Drains(b1, times[1..]).1;
      if b.records == [] {
        DrainsNothing(b1, times[1..]);
      } else {
        DrainOnce(b, times[0]);
        DrainsUntilEmptied(b1, times[1..]);
      }
    }
  }

  /**
  n records left alone in drain mode come out in order, and the mode turns online with exactly the
  (ceil(n / drainRate) + 1)-th Drain call: the first call k with (k - 1) * drainRate >= n.
  */
  lemma DrainsInExactly(b: Buffer, times: seq<int>)
    requires b.mode == Draining && b.drainRate > 0
    ensures Drains(b, times).0.mode ==
            if |times| >= 1 && (|times| - 1) * b.drainRate >= |b.records| then Online else Draining
    ensures |times| >= 1 && (|times| - 1) * b.drainRate >= |b.records| ==> Drains(b, times).1 == AllHistorical(b.records)
  {
    EmptiedIff(|times|, |b.records|, b.drainRate);
    DrainsUntilEmptied(b, times);
  }

  // ----- going online and offline -----

  /**
  Going online turns a backlog over to draining: Drain calls made after it return every record in order and
  end online, with exactly that many calls; an empty buffer is online at once; and a buffer online already
  stays as it is.
  */
  lemma OnlineDrainsBacklog(b: Buffer, now: int, times: seq<int>)
    requires b.drainRate > 0
    ensures var (b', rest) := Drains(Step(b, SetOnline, now).0, times);
      if b.mode == Online then b' == b && rest == []
      else if b.records == [] then b'.mode == Online && rest == []
      else if |times| >= 1 && (|times| - 1) * b.drainRate >= |b.records|
      then b'.mode == Online && rest == AllHistorical(b.records)
      else b'.mode == Draining
  {
    var c := Step(b, SetOnline, now).0;
    if c.mode == Draining {
      DrainsInExactly(c, times);
    } else {
      DrainsNothing(c, times);
    }
  }

  /** Going offline stops it: whatever Drain calls follow, nothing comes out and every record stays. */
  lemma OfflineHoldsBacklog(b: Buffer, now: int, times: seq<int>)
    ensures var (b', rest) := Drains(Step(b, SetOffline, now).0, times);
      b'.mode == Offline && b'.records == b.records && rest == []
  {
    DrainsNothing(Step(b, SetOffline, now).0, times);
  }

  /** Outside drain mode Drain returns nothing, so records stored while online stay where they are. */
  lemma {:induction false} DrainsNothing(b: Buffer, times: seq<int>)
    requires b.mode != Draining
    ensures Drains(b, times) == (b, [])
    decreases |times|
  {
    if times != [] {
      DrainsNothing(b, times[1..]);
      var none: seq<Record> := [];
      assert Step(b, Drain, times[0]) == (b, none) && Drains(b, times[1..]) == (b, none);
      assert Drains(b, times) == (b, none + none) && none + none == none;
    }
  }
}

/** What a run of a new buffer comes to, told from its calls alone. */
module StoreForwardCalls {
  import opened Common
  import opened StoreForwardModel
  import opened StoreForwardRuns

  type Calls = seq<(Action, int)>

  ghost function After(maxRecords: int, drainRate: int, start: int, calls: Calls): (Buffer, History) {
    RunFrom(New(maxRecords, drainRate, start), Begin(start), calls)
  }

  lemma {:induction false} RunAppend(b: Buffer, h: History, calls: Calls, more: Calls)
    ensures var (b1, h1) := RunFrom(b, h, calls); RunFrom(b, h, calls + more) == RunFrom(b1, h1, more)
    decreases |calls|
  {
    if calls == [] {
      assert calls + more == more;
    } else {
      assert (calls + more)[0] == calls[0] && (calls + more)[1..] == calls[1..] + more;
      RunAppend(Step(b, calls[0].0, calls[0].1).0, Note(h, b, calls[0].0, calls[0].1), calls[1..], more);
    }
  }

  /** A run is the run without its last call, and that call. */
  lemma RunLast(b: Buffer, h: History, calls: Calls)
    requires calls != []
    ensures var (b1, h1) := RunFrom(b, h, calls[..|calls| - 1]); var (a, now) := calls[|calls| - 1];
      RunFrom(b, h, calls) == (Step(b1, a, now).0, Note(h1, b1, a, now))
  {
    var init, last := calls[..|calls| - 1], calls[|calls| - 1];
    assert calls == init + [last];
    RunAppend(b, h, init, [last]);
    var (b1, h1) := RunFrom(b, h, init);
    OneCall(b1, h1, last);
  }

  lemma OneCall(b: Buffer, h: History, call: (Action, int))
    ensures RunFrom(b, h, [call]) == (Step(b, call.0, call.1).0, Note(h, b, call.0, call.1))
  {
    assert [call][1..] == [];
  }

  // ----- limits and mode -----

  lemma StepLimits(b: Buffer, a: Action, now: int)
    ensures var b' := Step(b, a, now).0; b'.maxCount == b.maxCount && b'.drainRate == b.drainRate
    ensures Step(b, a, now).0.mode == Offline <==> a == SetOffline || (b.mode == Offline && a != SetOnline)
  {
  }

  /** Call k goes online and a later one goes offline. */
  ghost predicate Undone(calls: Calls, k: int) {
    exists m :: 0 <= k < m < |calls| && calls[m].0 == SetOffline
  }

  /** The limits are those asked for, or the defaults; the mode is offline exactly when no SetOnline is the last switch. */
  lemma {:induction false} LimitsAndMode(maxRecords: int, drainRate: int, start: int, calls: Calls)
    ensures var b := After(maxRecords, drainRate, start, calls).0;
      b.maxCount == (if maxRecords > 0 then maxRecords else 10000) &&
      b.drainRate == (if drainRate > 0 then drainRate else 100) &&
      (b.mode == Offline <==> forall k | 0 <= k < |calls| && calls[k].0 == SetOnline :: Undone(calls, k))
    decreases |calls|
  {
    if calls != [] {
      var init, last := calls[..|calls| - 1], calls[|calls| - 1];
      LimitsAndMode(maxRecords, drainRate, start, init);
      RunLast(New(maxRecords, drainRate, start), Begin(start), calls);
      StepLimits(After(maxRecords, drainRate, start, init).0, last.0, last.1);
      LastSwitch(init, last);
      assert calls == init + [last];
    }
  }

  lemma LastSwitch(init: Calls, last: (Action, int))
    ensures var calls := init + [last];
      (forall k | 0 <= k < |calls| && calls[k].0 == SetOnline :: Undone(calls, k)) <==>
      last.0 == SetOffline ||
      (last.0 != SetOnline && forall k | 0 <= k < |init| && init[k].0 == SetOnline :: Undone(init, k))
  {
    var calls := init + [last];
    assert forall k | 0 <= k < |init| :: calls[k] == init[k];
    assert calls[|init|] == last;
    if last.0 == SetOffline {
      forall k | 0 <= k < |calls| && calls[k].0 == SetOnline
        ensures Undone(calls, k)
      {
        assert calls[|init|].0 == SetOffline;
      }
    } else {
      assert !Undone(calls, |init|);
      forall k | 0 <= k < |init|
        ensures Undone(calls, k) <==> Undone(init, k)
      {
        if Undone(init, k) {
          var m :| k < m < |init| && init[m].0 == SetOffline;
          assert calls[m].0 == SetOffline;
        }
      }
    }
  }

  // ----- what is stored -----

  /** The records of the Store calls, in order. */
  ghost function StoredBy(calls: Calls): seq<Record>
    decreases |calls|
  {
    if calls == [] then []
    else
      var (a, _) := calls[|calls| - 1];
      StoredBy(calls[..|calls| - 1]) + if a.Store? then [a.record] else []
  }

  lemma {:induction false} StoredAre(maxRecords: int, drainRate: int, start: int, calls: Calls)
    ensures After(maxRecords, drainRate, start, calls).1.stored == StoredBy(calls)
    decreases |calls|
  {
    if calls != [] {
      StoredAre(maxRecords, drainRate, start, calls[..|calls| - 1]);
      RunLast(New(maxRecords, drainRate, start), Begin(start), calls);
    }
  }

  /** The last n of them, or all when there are fewer. */
  ghost function Newest(records: seq<Record>, n: nat): (r: seq<Record>)
    ensures |r| == if |records| < n then |records| else n
  {
    if |records| < n then records else records[|records| - n..]
  }

  /** A record is evicted only when there is no room. */
  lemma StoreKeepsNewest(b: Buffer, record: Record, now: int)
    requires 0 < b.maxCount && |b.records| <= b.maxCount
    ensures Step(b, Store(record), now).0.records == Newest(b.records + [record], b.maxCount)
  {
  }

  lemma NewestNext(records: seq<Record>, record: Record, n: nat)
    requires n > 0
    ensures Newest(Newest(records, n) + [record], n) == Newest(records + [record], n)
  {
    var all, few := records + [record], Newest(records, n) + [record];
    if |records| >= n {
      assert few[1..] == all[|all| - n..];
    }
  }

  /** Until the first Drain the buffer holds the newest records stored, as many as it may. */
  lemma {:induction false} HoldsAsManyAsFit(maxRecords: int, drainRate: int, start: int, calls: Calls)
    requires forall k | 0 <= k < |calls| :: calls[k].0 != Drain
    ensures After(maxRecords, drainRate, start, calls).0.records ==
            Newest(StoredBy(calls), if maxRecords > 0 then maxRecords else 10000)
    decreases |calls|
  {
    LimitsAndMode(maxRecords, drainRate, start, calls);
    if calls != [] {
      var init := calls[..|calls| - 1];
      var (a, now) := calls[|calls| - 1];
      HoldsAsManyAsFit(maxRecords, drainRate, start, init);
      LimitsAndMode(maxRecords, drainRate, start, init);
      RunLast(New(maxRecords, drainRate, start), Begin(start), calls);
      StepHoldsAsManyAsFit(After(maxRecords, drainRate, start, init).0, a, now, StoredBy(init));
    }
  }

  lemma StepHoldsAsManyAsFit(b: Buffer, a: Action, now: int, stored: seq<Record>)
    requires a != Drain && 0 < b.maxCount && b.records == Newest(stored, b.maxCount)
    ensures Step(b, a, now).0.records == Newest(stored + if a.Store? then [a.record] else [], b.maxCount)
  {
    if a.Store? {
      StoreKeepsNewest(b, a.record, now);
      NewestNext(stored, a.record, b.maxCount);
    } else {
      StepRecords(b, a, now);
      assert b.records[0..] + [] == b.records && stored + [] == stored;
    }
  }

  /** The same record with every metric marked historical. */
  ghost predicate IsMarked(was: Record, marked: Record) {
    marked.device == was.device && marked.timestamp == was.timestamp &&
    match (was.payload, marked.payload)
    case (None, None) => true
    case (Some(ms), Some(ns)) =>
      |ns| == |ms| && forall i | 0 <= i < |ms| :: ns[i].historical && ns[i].name == ms[i].name && ns[i].value == ms[i].value
    case _ => false
  }

  /** The records that come out are stored ones, each at most once and in the order stored, marked historical. */
  lemma DrainedAreStored(maxRecords: int, drainRate: int, start: int, calls: Calls) returns (at: seq<nat>)
    requires InTimeOrder(calls, start)
    ensures var drained := After(maxRecords, drainRate, start, calls).1.drained;
      |at| == |drained| && (forall k, l | 0 <= k < l < |at| :: at[k] < at[l]) &&
      forall k | 0 <= k < |at| :: at[k] < |StoredBy(calls)| && IsMarked(StoredBy(calls)[at[k]], drained[k])
  {
    EveryRun(maxRecords, drainRate, start, calls);
    StoredAre(maxRecords, drainRate, start, calls);
    at := After(maxRecords, drainRate, start, calls).1.origin;
  }

  // ----- how much is published -----

  /** The metrics reported published by calls at or after the cutoff. */
  ghost function MetricsSince(calls: Calls, cutoff: int): nat
    decreases |calls|
  {
    if calls == [] then 0
    else
      var (a, now) := calls[|calls| - 1];
      MetricsSince(calls[..|calls| - 1], cutoff) +
      if a.RecordPublish? && a.metricCount > 0 && now >= cutoff then a.metricCount else 0
  }

  lemma {:induction false} CountAppend(times: seq<int>, more: seq<int>, cutoff: int)
    ensures CountSince(times + more, cutoff) == CountSince(times, cutoff) + CountSince(more, cutoff)
    decreases |more|
  {
    if more == [] {
      assert times + more == times;
    } else {
      assert (times + more)[..|times + more| - 1] == times + more[..|more| - 1];
      CountAppend(times, more[..|more| - 1], cutoff);
    }
  }

  lemma {:induction false} CountSame(times: seq<int>, now: int, cutoff: int)
    requires forall i | 0 <= i < |times| :: times[i] == now
    ensures CountSince(times, cutoff) == if now >= cutoff then |times| else 0
    decreases |times|
  {
    if times != [] {
      CountSame(times[..|times| - 1], now, cutoff);
    }
  }

  lemma {:induction false} PublishedAre(maxRecords: int, drainRate: int, start: int, calls: Calls, cutoff: int)
    ensures CountSince(After(maxRecords, drainRate, start, calls).1.published, cutoff) == MetricsSince(calls, cutoff)
    decreases |calls|
  {
    if calls != [] {
      var init := calls[..|calls| - 1];
      var (a, now) := calls[|calls| - 1];
      PublishedAre(maxRecords, drainRate, start, init, cutoff);
      RunLast(New(maxRecords, drainRate, start), Begin(start), calls);
      CountAppend(After(maxRecords, drainRate, start, init).1.published, Published(a, now), cutoff);
      CountSame(Published(a, now), now, cutoff);
    }
  }

  /** The window holds one time for every metric published in the last ten seconds, however often it was trimmed. */
  lemma RateIsOfCalls(maxRecords: int, drainRate: int, start: int, calls: Calls, now: int)
    requires InTimeOrder(calls, start) && After(maxRecords, drainRate, start, calls).1.clock <= now
    ensures |Step(After(maxRecords, drainRate, start, calls).0, QueryRate, now).0.publishTimes| ==
            MetricsSince(calls, now - 10_000_000_000)
  {
    TimesAreTrimmed(maxRecords, drainRate, start, calls);
    var (b, h) := After(maxRecords, drainRate, start, calls);
    RateCountsWindow(b, h, now);
    PublishedAre(maxRecords, drainRate, start, calls, now - RATE_WINDOW);
  }

  lemma TimesAreTrimmed(maxRecords: int, drainRate: int, start: int, calls: Calls)
    requires InTimeOrder(calls, start)
    ensures var (b, h) := After(maxRecords, drainRate, start, calls); TimesTrimmed(b, h)
  {
    EveryRun(maxRecords, drainRate, start, calls);
  }

  // ----- what the timeline shows -----

  /** The last recorded change is to the mode the buffer is in. */
  ghost predicate ShowsMode(b: Buffer, h: History) {
    h.transitions != [] && h.transitions[|h.transitions| - 1].mode == b.mode &&
    h.transitions[|h.transitions| - 1].timestamp <= h.clock
  }

  lemma StepShowsMode(b: Buffer, h: History, a: Action, now: int)
    requires ShowsMode(b, h) && h.clock <= now
    ensures ShowsMode(Step(b, a, now).0, Note(h, b, a, now)) && Note(h, b, a, now).clock == now
  {
    NoteTimeline(b, h, a, now);
    ModeStays(b, a, now);
    var b', h' := Step(b, a, now).0, Note(h, b, a, now);
    NextShown(h.transitions, h'.transitions, EntersMode(b, a), Entry(now, b'.mode));
  }

  lemma NextShown(es: seq<Entry>, fs: seq<Entry>, enters: bool, e: Entry)
    requires es != [] && fs == if enters then es + [e] else es
    ensures fs != [] && fs[|fs| - 1] == if enters then e else es[|es| - 1]
  {
  }

  lemma ModeStays(b: Buffer, a: Action, now: int)
    ensures !EntersMode(b, a) ==> Step(b, a, now).0.mode == b.mode
  {
  }

  lemma {:induction false} RunShowsMode(b: Buffer, h: History, calls: Calls)
    requires ShowsMode(b, h) && InTimeOrder(calls, h.clock)
    ensures var (b', h') := RunFrom(b, h, calls);
      ShowsMode(b', h') && h'.clock == if calls == [] then h.clock else calls[|calls| - 1].1
    decreases |calls|
  {
    if calls != [] {
      StepShowsMode(b, h, calls[0].0, calls[0].1);
      RunShowsMode(Step(b, calls[0].0, calls[0].1).0, Note(h, b, calls[0].0, calls[0].1), calls[1..]);
    }
  }

  /** No more than two entries, or at most one of them superseded by another from more than an hour before the last. */
  ghost predicate Short(timeline: seq<Entry>) {
    |timeline| <= 2 || timeline[1].timestamp >= timeline[|timeline| - 1].timestamp - HOUR
  }

  lemma {:induction false} TrimmedIsShort(entries: seq<Entry>, cutoff: int)
    requires SortedEntries(entries, cutoff + HOUR) && entries != [] && entries[|entries| - 1].timestamp == cutoff + HOUR
    ensures Short(TrimTimeline(entries, cutoff))
    decreases |entries|
  {
    if |entries| > 2 && entries[0].timestamp < cutoff && entries[1].timestamp < cutoff {
      TrimmedIsShort(entries[1..], cutoff);
    } else {
      assert |entries| > 2 ==> entries[0].timestamp <= entries[1].timestamp;
    }
  }

  /** Trimming keeps the timeline short in every run: of the entries more than an hour older than the last, one stays. */
  lemma {:induction false} TimelineIsShort(maxRecords: int, drainRate: int, start: int, calls: Calls)
    requires InTimeOrder(calls, start)
    ensures Short(After(maxRecords, drainRate, start, calls).0.timeline)
    decreases |calls|
  {
    if calls != [] {
      var init := calls[..|calls| - 1];
      var (a, now) := calls[|calls| - 1];
      BeforeLast(maxRecords, drainRate, start, calls);
      TimelineIsShort(maxRecords, drainRate, start, init);
      RunLast(New(maxRecords, drainRate, start), Begin(start), calls);
      var (b, h) := After(maxRecords, drainRate, start, init);
      StepIsShort(b, h, a, now);
    }
  }

  lemma BeforeLast(maxRecords: int, drainRate: int, start: int, calls: Calls)
    requires calls != [] && InTimeOrder(calls, start)
    ensures InTimeOrder(calls[..|calls| - 1], start)
    ensures var (b, h) := After(maxRecords, drainRate, start, calls[..|calls| - 1]);
      TimelineTrimmed(b, h) && h.clock <= calls[|calls| - 1].1
  {
    var init := calls[..|calls| - 1];
    assert InTimeOrder(init, start);
    EveryRun(maxRecords, drainRate, start, init);
    RunShowsMode(New(maxRecords, drainRate, start), Begin(start), init);
  }

  lemma StepIsShort(b: Buffer, h: History, a: Action, now: int)
    requires TimelineTrimmed(b, h) && h.clock <= now && Short(b.timeline)
    ensures Short(Step(b, a, now).0.timeline)
  {
    StepTimeline(b, a, now);
    if EntersMode(b, a) {
      NextIsShort(b, h, Entry(now, Step(b, a, now).0.mode));
    }
  }

  lemma NextIsShort(b: Buffer, h: History, e: Entry)
    requires TimelineTrimmed(b, h) && h.clock <= e.timestamp
    ensures Short(TrimTimeline(b.timeline + [e], e.timestamp - HOUR))
  {
    SuffixSorted(h.superseded, b.timeline, h.clock);
    SortedAppend(b.timeline, h.clock, e);
    TrimmedIsShort(b.timeline + [e], e.timestamp - HOUR);
  }

  /** Later calls do not change what the history shows of an earlier time. */
  lemma {:induction false} LaterCallsDoNotShow(b: Buffer, h: History, calls: Calls, t: int)
    requires forall k | 0 <= k < |calls| :: t < calls[k].1
    ensures ModeAt(RunFrom(b, h, calls).1.transitions, t) == ModeAt(h.transitions, t)
    decreases |calls|
  {
    if calls != [] {
      var h1 := Note(h, b, calls[0].0, calls[0].1);
      LaterCallsDoNotShow(Step(b, calls[0].0, calls[0].1).0, h1, calls[1..], t);
      NoteTimeline(b, h, calls[0].0, calls[0].1);
      var e := Entry(calls[0].1, Step(b, calls[0].0, calls[0].1).0.mode);
      assert (h.transitions + [e])[..|h.transitions|] == h.transitions;
    }
  }

  /**
  At every instant of the last hour the timeline shows the mode the buffer was really in: that after the
  calls made by then.
  */
  lemma TimelineShowsModes(maxRecords: int, drainRate: int, start: int, calls: Calls, k: nat, t: int)
    requires InTimeOrder(calls, start) && k <= |calls| && start <= t
    requires (forall m | 0 <= m < k :: calls[m].1 <= t) && forall m | k <= m < |calls| :: t < calls[m].1
    requires t >= After(maxRecords, drainRate, start, calls).1.clock - HOUR
    ensures ModeAt(After(maxRecords, drainRate, start, calls).0.timeline, t) ==
            Some(After(maxRecords, drainRate, start, calls[..k]).0.mode)
  {
    EveryRun(maxRecords, drainRate, start, calls);
    var (b, h) := After(maxRecords, drainRate, start, calls);
    TimelineAnswers(b, h, t);
    HistoryShowsModes(New(maxRecords, drainRate, start), Begin(start), calls, k, t);
  }

  lemma HistoryShowsModes(b: Buffer, h: History, calls: Calls, k: nat, t: int)
    requires ShowsMode(b, h) && InTimeOrder(calls, h.clock) && k <= |calls| && h.clock <= t
    requires (forall m | 0 <= m < k :: calls[m].1 <= t) && forall m | k <= m < |calls| :: t < calls[m].1
    ensures ModeAt(RunFrom(b, h, calls).1.transitions, t) == Some(RunFrom(b, h, calls[..k]).0.mode)
  {
    var early, late := calls[..k], calls[k..];
    var (b1, h1) := RunFrom(b, h, early);
    assert calls == early + late;
    RunAppend(b, h, early, late);
    LaterCallsDoNotShow(b1, h1, late, t);
    RunShowsMode(b, h, early);
    ShownNow(b1, h1, t);
  }

  lemma ShownNow(b: Buffer, h: History, t: int)
    requires ShowsMode(b, h) && h.clock <= t
    ensures ModeAt(h.transitions, t) == Some(b.mode)
  {
  }
}

/** The buffer as the source keeps it: one object whose fields its methods update in place. */
module StoreForward {
  import opened Common
  import opened StoreForwardModel
  import opened StoreForwardRuns

  method MarkHistorical(metrics: seq<Metric>) returns (marked: seq<Metric>)
    ensures |marked| == |metrics| && forall i | 0 <= i < |metrics| :: marked[i] == metrics[i].(historical := true)
  {
    marked := metrics;
    for j := 0 to |metrics|
      invariant |marked| == |metrics|
      invariant forall i | 0 <= i < |metrics| :: marked[i] == if i < j then metrics[i].(historical := true) else metrics[i]
    {
      marked := marked[j := marked[j].(historical := true)];
    }
  }

  class StoreForwardBuffer {
    var mode: Mode
    var records: seq<Record>
    const maxCount: nat
    const drainRate: nat
    var totalBuffered: nat
    var totalDrained: nat
    var totalEvicted: nat
    var publishTimes: seq<int>
    var timeline: seq<Entry>
    ghost var history: History

    ghost function Fields(): Buffer
      reads this
    {
      Buffer(mode, records, maxCount, drainRate, totalBuffered, totalDrained, totalEvicted, publishTimes, timeline)
    }

    ghost predicate Valid()
      reads this
    {
      Inv(Fields(), history)
    }

    constructor (maxRecords: int, rate: int, now: int)
      ensures Valid() && Fields() == New(maxRecords, rate, now) && history == Begin(now)
    {
      maxCount := if maxRecords <= 0 then 10000 else maxRecords;
      drainRate := if rate <= 0 then 100 else rate;
      mode, records, totalBuffered, totalDrained, totalEvicted := Offline, [], 0, 0, 0;
      publishTimes, timeline := [], [Entry(now, Offline)];
      history := Begin(now);
    }

    /** Extends the history by a call whose effect the fields already show. */
    ghost method Record(before: Buffer, a: Action, now: int)
      requires Inv(before, history) && history.clock <= now
      requires Fields() == Step(before, a, now).0
      modifies this`history
      ensures Valid() && history == Note(old(history), before, a, now)
    {
      StepKeepsInv(before, history, a, now);
      history := Note(history, before, a, now);
    }

    method RecordTimeline(newMode: Mode, now: int)
      requires timeline != []
      modifies this`timeline
      ensures timeline == TrimTimeline(old(timeline) + [Entry(now, newMode)], now - HOUR)
    {
      timeline := timeline + [Entry(now, newMode)];
      var cutoff := now - HOUR;
      ghost var target := TrimTimeline(timeline, cutoff);
      while |timeline| > 2 && timeline[0].timestamp < cutoff && timeline[1].timestamp < cutoff
        invariant timeline != [] && TrimTimeline(timeline, cutoff) == target
        decreases |timeline|
      {
        timeline := timeline[1..];
      }
    }

    method SetOnline(now: int)
      requires Valid() && history.clock <= now
      modifies this
      ensures Valid() && Fields() == Step(old(Fields()), Action.SetOnline, now).0
      ensures history == Note(old(history), old(Fields()), Action.SetOnline, now)
    {
      if mode != Online {
        if |records| > 0 {
          mode := Draining;
          RecordTimeline(Draining, now);
        } else {
          mode := Online;
          RecordTimeline(Online, now);
        }
      }
      Record(old(Fields()), Action.SetOnline, now);
    }

    method SetOffline(now: int)
      requires Valid() && history.clock <= now
      modifies this
      ensures Valid() && Fields() == Step(old(Fields()), Action.SetOffline, now).0
      ensures history == Note(old(history), old(Fields()), Action.SetOffline, now)
    {
      if mode != Offline {
        mode := Offline;
        RecordTimeline(Offline, now);
      }
      Record(old(Fields()), Action.SetOffline, now);
    }

    method Store(device: string, payload: Option<seq<Metric>>, now: int)
      requires Valid() && history.clock <= now
      modifies this
      ensures Valid() && Fields() == Step(old(Fields()), Action.Store(StoreForwardModel.Record(device, payload, now)), now).0
      ensures history == Note(old(history), old(Fields()), Action.Store(StoreForwardModel.Record(device, payload, now)), now)
    {
      var rec := StoreForwardModel.Record(device, payload, now);
      ghost var before := Fields();
      ghost var evicted := 0;
      while |records| >= maxCount
        invariant history == old(history) && 0 <= evicted <= |before.records| && records == before.records[evicted..]
        invariant evicted > 0 ==> evicted <= |before.records| - maxCount + 1
        invariant Fields() == before.(records := records, totalEvicted := before.totalEvicted + evicted)
        decreases |records|
      {
        records := records[1..];
        totalEvicted := totalEvicted + 1;
        evicted := evicted + 1;
      }
      records := records + [rec];
      totalBuffered := totalBuffered + 1;
      Record(before, Action.Store(rec), now);
    }

    method Drain(now: int) returns (batch: seq<Record>)
      requires Valid() && history.clock <= now
      modifies this
      ensures Valid() && (Fields(), batch) == Step(old(Fields()), Action.Drain, now)
      ensures history == Note(old(history), old(Fields()), Action.Drain, now)
    {
      batch := [];
      if mode == Draining {
        if |records| == 0 {
          mode := Online;
          RecordTimeline(Online, now);
        } else {
          var count := drainRate;
          if count > |records| {
            count := |records|;
          }
          batch := MarkBatch(records[..count]);
          records := records[count..];
          totalDrained := totalDrained + count;
        }
      }
      Record(old(Fields()), Action.Drain, now);
    }

    method MarkBatch(taken: seq<Record>) returns (batch: seq<Record>)
      ensures batch == AllHistorical(taken)
    {
      batch := taken;
      for i := 0 to |taken|
        invariant |batch| == |taken|
        invariant forall k | 0 <= k < |taken| :: batch[k] == if k < i then Historical(taken[k]) else taken[k]
      {
        if batch[i].payload.Some? {
          var ms := MarkHistorical(batch[i].payload.value);
          assert ms == Historical(taken[i]).payload.value;
          batch := batch[i := batch[i].(payload := Some(ms))];
        }
      }
    }

    method RecordPublish(metricCount: int, now: int)
      requires Valid() && history.clock <= now
      modifies this
      ensures Valid() && Fields() == Step(old(Fields()), Action.RecordPublish(metricCount), now).0
      ensures history == Note(old(history), old(Fields()), Action.RecordPublish(metricCount), now)
    {
      ghost var before := Fields();
      var i := 0;
      while i < metricCount
        invariant history == old(history) && 0 <= i && (i <= metricCount || i == 0)
        invariant Fields() == before.(publishTimes := before.publishTimes + Copies(i, now))
      {
        publishTimes := publishTimes + [now];
        i := i + 1;
      }
      assert Copies(i, now) == Copies(metricCount, now);
      TrimPublishTimes(now);
      Record(before, Action.RecordPublish(metricCount), now);
    }

    method TrimPublishTimes(now: int)
      modifies this`publishTimes
      ensures publishTimes == TrimTimes(old(publishTimes), now - RATE_WINDOW)
    {
      while |publishTimes| > 0 && publishTimes[0] < now - RATE_WINDOW
        invariant TrimTimes(publishTimes, now - RATE_WINDOW) == TrimTimes(old(publishTimes), now - RATE_WINDOW)
        decreases |publishTimes|
      {
        publishTimes := publishTimes[1..];
      }
    }

    /** Metrics per second over the last ten seconds. */
    method PublishRate(now: int) returns (rate: real)
      requires Valid() && history.clock <= now
      modifies this
      ensures Valid() && rate == CountSince(old(history).published, now - RATE_WINDOW) as real / 10.0
      ensures Fields() == Step(old(Fields()), QueryRate, now).0
      ensures history == Note(old(history), old(Fields()), QueryRate, now)
    {
      RateCountsWindow(Fields(), history, now);
      assert publishTimes + [] == publishTimes;
      TrimPublishTimes(now);
      rate := if |publishTimes| == 0 then 0.0 else |publishTimes| as real / 10.0;
      Record(old(Fields()), QueryRate, now);
    }

    /**
    The timeline part of Status: the entries of the last hour, led by the mode in force when the
    hour began. It shows, at every instant of that hour, what the full history shows.
    */
    method StatusTimeline(now: int) returns (points: seq<Entry>)
      requires Valid() && history.clock <= now
      ensures forall t | now - HOUR <= t <= now :: ModeAt(points, t) == ModeAt(history.transitions, t)
      ensures points != [] && forall p | p in points :: now - HOUR <= p.timestamp <= now
    {
      var hourAgo := now - HOUR;
      points := [];
      var lastBefore: Option<Entry> := None;
      ghost var p := 0;
      assert SortedEntries(timeline, now) by {
        SuffixSorted(history.superseded, timeline, history.clock);
      }
      for i := 0 to |timeline|
        invariant 0 <= p <= i && points == timeline[p..i]
        invariant forall k | 0 <= k < p :: timeline[k].timestamp < hourAgo
        invariant forall k | p <= k < i :: timeline[k].timestamp >= hourAgo
        invariant lastBefore == if p == 0 then None else Some(timeline[p - 1])
      {
        var te := timeline[i];
        assert p < i ==> timeline[p].timestamp <= te.timestamp;
        if te.timestamp < hourAgo {
          lastBefore := Some(te);
          p := i + 1;
        } else {
          points := points + [te];
        }
      }
      assert points == timeline[p..];
      if lastBefore.Some? {
        points := [Entry(hourAgo, lastBefore.value.mode)] + points;
      }
      forall t | hourAgo <= t <= now
        ensures ModeAt(points, t) == ModeAt(history.transitions, t)
      {
        TimelineAnswers(Fields(), history, t);
        ClampKeepsMode(timeline, p, hourAgo, t);
        assert points == (if p == 0 then [] else [Entry(hourAgo, timeline[p - 1].mode)]) + timeline[p..];
      }
    }
  }

  /** Replacing everything before the cutoff by one clamped entry changes no answer after the cutoff. */
  lemma {:induction false} ClampKeepsMode(entries: seq<Entry>, p: nat, cutoff: int, t: int)
    requires p <= |entries| && t >= cutoff && (p > 0 ==> entries[p - 1].timestamp < cutoff)
    ensures ModeAt((if p == 0 then [] else [Entry(cutoff, entries[p - 1].mode)]) + entries[p..], t) == ModeAt(entries, t)
    decreases |entries|
  {
    var points := (if p == 0 then [] else [Entry(cutoff, entries[p - 1].mode)]) + entries[p..];
    if p < |entries| {
      var shorter := entries[..|entries| - 1];
      assert points[..|points| - 1] == (if p == 0 then [] else [Entry(cutoff, shorter[p - 1].mode)]) + shorter[p..];
      ClampKeepsMode(shorter, p, cutoff, t);
    }
  }
}
