/**
The per-variable publish filter of plc/rbe.go: publish when a value moves by more than its deadband,
but not more often than MinTime and at least every MaxTime. Times are nanoseconds of a clock that
never goes back.
*/
module ReportByException {
  import opened Common

  const MILLISECOND: int := 1_000_000

  /**
  A Go value. Two values are equal when they have the same type and the same content, so `kind` is
  part of a number. `numeric` says whether toFloat64 knows the type.
  */
  datatype Value = Nil | Number(kind: string, numeric: bool, r: real) | Other(kind: string, content: string)

  datatype Deadband = Deadband(value: real, minTime: int, maxTime: int)

  function ToFloat64(v: Value): Option<real> {
    if v.Number? && v.numeric then Some(v.r) else None
  }

  predicate ExceedsDeadband(old_: Value, new_: Value, threshold: real) {
    if threshold == 0.0 then old_ != new_
    else
      match (ToFloat64(old_), ToFloat64(new_))
      case (Some(o), Some(n)) => Abs(n - o) > threshold
      case _ => old_ != new_
  }

  /** The last value published and when; the time is absent before the first publish. */
  datatype State = State(lastValue: Value, lastTime: Option<int>)

  datatype Sample = Sample(value: Value, now: int)

  function Milliseconds(d: int): int {
    if d >= 0 then d / MILLISECOND else -(-d / MILLISECOND)
  }

  predicate ShouldPublish(config: Option<Deadband>, s: State, x: Sample) {
    match config
    case None => true
    case Some(c) =>
      if c.maxTime > 0 && s.lastTime.Some? && Milliseconds(x.now - s.lastTime.value) >= c.maxTime then true
      else if c.minTime > 0 && s.lastTime.Some? && Milliseconds(x.now - s.lastTime.value) < c.minTime then false
      else ExceedsDeadband(s.lastValue, x.value, c.value)
  }

  function Step(config: Option<Deadband>, s: State, x: Sample): State {
    if ShouldPublish(config, s, x) then State(x.value, Some(x.now)) else s
  }

  class RbeState {
    const config: Option<Deadband>
    var lastValue: Value
    var lastTime: Option<int>

    ghost function View(): State
      reads this
    {
      State(lastValue, lastTime)
    }

    constructor (c: Option<Deadband>)
      ensures config == c && View() == State(Nil, None)
    {
      config, lastValue, lastTime := c, Nil, None;
    }

    method Offer(newVal: Value, now: int) returns (publish: bool)
      modifies this
      ensures publish == ShouldPublish(config, old(View()), Sample(newVal, now))
      ensures View() == Step(config, old(View()), Sample(newVal, now))
    {
      if config.None? {
        lastValue, lastTime := newVal, Some(now);
        return true;
      }
      var c := config.value;
      if c.maxTime > 0 && lastTime.Some? {
        if Milliseconds(now - lastTime.value) >= c.maxTime {
          lastValue, lastTime := newVal, Some(now);
          return true;
        }
      }
      if c.minTime > 0 && lastTime.Some? {
        if Milliseconds(now - lastTime.value) < c.minTime {
          return false;
        }
      }
      if !ExceedsDeadband(lastValue, newVal, c.value) {
        return false;
      }
      lastValue, lastTime := newVal, Some(now);
      return true;
    }
  }

  // ----- runs -----

  /** The state before sample i. */
  function At(config: Option<Deadband>, samples: seq<Sample>, i: nat): State
    requires i <= |samples|
  {
    if i == 0 then State(Nil, None) else Step(config, At(config, samples, i - 1), samples[i - 1])
  }

  predicate Published(config: Option<Deadband>, samples: seq<Sample>, i: nat)
    requires i < |samples|
  {
    ShouldPublish(config, At(config, samples, i), samples[i])
  }

  ghost predicate InTimeOrder(samples: seq<Sample>) {
    forall i, j | 0 <= i < j < |samples| :: samples[i].now <= samples[j].now
  }

  /** Publish p is the latest of the first i samples. */
  ghost predicate Latest(config: Option<Deadband>, samples: seq<Sample>, p: int, i: nat)
    requires i <= |samples|
  {
    -1 <= p < i && (p >= 0 ==> Published(config, samples, p)) &&
    forall k | p < k < i :: !Published(config, samples, k)
  }

  /** The state is the latest publish, or still empty when there was none. */
  lemma {:induction false} StateIsLatest(config: Option<Deadband>, samples: seq<Sample>, i: nat) returns (p: int)
    requires i <= |samples|
    ensures Latest(config, samples, p, i)
    ensures At(config, samples, i) ==
            if p < 0 then State(Nil, None) else State(samples[p].value, Some(samples[p].now))
  {
    if i == 0 {
      return -1;
    }
    p := StateIsLatest(config, samples, i - 1);
    if Published(config, samples, i - 1) {
      p := i - 1;
    }
  }

  /**
  The new value is not the old one or, where there is a threshold and both are numbers, lies outside the
  interval of that radius around it.
  */
  ghost predicate Moved(was: Value, v: Value, threshold: real) {
    if threshold != 0.0 && was.Number? && was.numeric && v.Number? && v.numeric
    then v.r < was.r - threshold || was.r + threshold < v.r
    else v != was
  }

  /** Less than the given number of milliseconds lies between two samples. */
  ghost predicate Within(x: Sample, y: Sample, milliseconds: int) {
    y.now - x.now < milliseconds * MILLISECOND
  }

  /**
  The whole rule, on the samples: one is published exactly when it is the first that is not nil, or MaxTime
  is over since the latest publish, or MinTime is and the value has moved.
  */
  lemma PublishedIff(c: Deadband, samples: seq<Sample>, i: nat) returns (p: int)
    requires i < |samples| && InTimeOrder(samples)
    ensures Latest(Some(c), samples, p, i)
    ensures p < 0 ==> (Published(Some(c), samples, i) <==> samples[i].value != Nil)
    ensures p >= 0 ==>
              (Published(Some(c), samples, i) <==>
               (c.maxTime > 0 && !Within(samples[p], samples[i], c.maxTime)) ||
               (!(c.minTime > 0 && Within(samples[p], samples[i], c.minTime)) &&
                Moved(samples[p].value, samples[i].value, c.value)))
  {
    p := StateIsLatest(Some(c), samples, i);
  }

  /** A number that stays within the deadband of the last one published is not published. */
  lemma WithinDeadbandIsSilent(c: Deadband, samples: seq<Sample>, p: nat, i: nat, x: real, y: real, kind: string, kind': string)
    requires p < i < |samples| && InTimeOrder(samples) && Latest(Some(c), samples, p, i)
    requires samples[p].value == Number(kind, true, x) && samples[i].value == Number(kind', true, y)
    requires c.value > 0.0 && c.maxTime <= 0 && x - c.value <= y <= x + c.value
    ensures !Published(Some(c), samples, i)
  {
    var q := PublishedIff(c, samples, i);
    assert q == p;
  }

  /** Without a configuration every sample is published. */
  lemma UnfilteredPublishesAll(samples: seq<Sample>, i: nat)
    requires i < |samples|
    ensures Published(None, samples, i)
  {
  }

  /**
  After every sample: nothing was published yet and the sample is nil, or the last published value is
  the sample, is within the deadband of it, or went out less than MinTime ago; and with MaxTime set it
  is younger than MaxTime.
  */
  lemma BoundedStaleness(c: Deadband, samples: seq<Sample>, i: nat) returns (p: int)
    requires i < |samples| && InTimeOrder(samples)
    ensures Latest(Some(c), samples, p, i + 1)
    ensures p < 0 ==> samples[i].value == Nil
    ensures p >= 0 ==>
              p == i || !Moved(samples[p].value, samples[i].value, c.value) ||
              samples[i].now - samples[p].now < c.minTime * MILLISECOND
    ensures p >= 0 && c.maxTime > 0 ==> samples[i].now - samples[p].now < c.maxTime * MILLISECOND
  {
    p := StateIsLatest(Some(c), samples, i);
    if Published(Some(c), samples, i) {
      p := i;
    }
  }

  /** A numeric sample is always followed by a published value as close as that. */
  lemma NumericStaleness(c: Deadband, samples: seq<Sample>, i: nat) returns (p: int)
    requires i < |samples| && InTimeOrder(samples) && ToFloat64(samples[i].value).Some?
    ensures Latest(Some(c), samples, p, i + 1) && 0 <= p
    ensures samples[p].value == samples[i].value ||
            samples[i].now - samples[p].now < c.minTime * MILLISECOND ||
            (ToFloat64(samples[p].value).Some? &&
             Abs(ToFloat64(samples[i].value).value - ToFloat64(samples[p].value).value) <= c.value)
  {
    p := BoundedStaleness(c, samples, i);
  }

  /** A publish has a reason: it is the first, MaxTime has passed, or the value left its deadband and MinTime has passed. */
  lemma PublishHasReason(c: Deadband, samples: seq<Sample>, i: nat) returns (p: int)
    requires i < |samples| && InTimeOrder(samples) && Published(Some(c), samples, i)
    ensures Latest(Some(c), samples, p, i)
    ensures p < 0 || (c.maxTime > 0 && samples[i].now - samples[p].now >= c.maxTime * MILLISECOND) ||
            (Moved(samples[p].value, samples[i].value, c.value) &&
             (c.minTime > 0 ==> samples[i].now - samples[p].now >= c.minTime * MILLISECOND))
  {
    p := StateIsLatest(Some(c), samples, i);
  }

  // ----- how often -----

  /** MaxTime does not force publishes sooner than MinTime allows. */
  predicate Compatible(c: Deadband) {
    c.minTime <= 0 || c.maxTime <= 0 || c.maxTime >= c.minTime
  }

  lemma NextPublishLater(c: Deadband, samples: seq<Sample>, p: nat, i: nat)
    requires Compatible(c) && InTimeOrder(samples) && p < i < |samples|
    requires Latest(Some(c), samples, p, i) && Published(Some(c), samples, i)
    ensures samples[i].now - samples[p].now >= c.minTime * MILLISECOND
  {
    var q := PublishHasReason(c, samples, i);
    assert q == p;
  }

  /** Any two publishes are at least MinTime apart. */
  lemma {:induction false} PublishesApart(c: Deadband, samples: seq<Sample>, i: nat, j: nat)
    requires Compatible(c) && InTimeOrder(samples) && i < j < |samples|
    requires Published(Some(c), samples, i) && Published(Some(c), samples, j)
    ensures samples[j].now - samples[i].now >= c.minTime * MILLISECOND
  {
    var p := StateIsLatest(Some(c), samples, j);
    NextPublishLater(c, samples, p, j);
  }

  /** With a MaxTime below MinTime an unchanged value is published again after MaxTime. */
  lemma MaxTimeBeatsMinTime(c: Deadband) returns (samples: seq<Sample>)
    requires !Compatible(c)
    ensures InTimeOrder(samples) && |samples| == 2 && samples[0].value == samples[1].value
    ensures Published(Some(c), samples, 0) && Published(Some(c), samples, 1)
    ensures samples[1].now - samples[0].now == c.maxTime * MILLISECOND < c.minTime * MILLISECOND
  {
    var v := Number("float64", true, 1.0);
    samples := [Sample(v, 0), Sample(v, c.maxTime * MILLISECOND)];
    assert At(Some(c), samples, 1) == Step(Some(c), At(Some(c), samples, 0), samples[0]);
  }

  /** The configuration keeps publishes MinTime apart in every run exactly when it is compatible. */
  lemma MinTimeKeptIff(c: Deadband)
    ensures Compatible(c) <==>
            forall samples: seq<Sample>, i: nat, j: nat | InTimeOrder(samples) && i < j < |samples| &&
                                   Published(Some(c), samples, i) && Published(Some(c), samples, j) ::
              samples[j].now - samples[i].now >= c.minTime * MILLISECOND
  {
    if Compatible(c) {
      forall samples: seq<Sample>, i: nat, j: nat | InTimeOrder(samples) && i < j < |samples| &&
                             Published(Some(c), samples, i) && Published(Some(c), samples, j)
        ensures samples[j].now - samples[i].now >= c.minTime * MILLISECOND
      {
        PublishesApart(c, samples, i, j);
      }
    } else {
      var samples := MaxTimeBeatsMinTime(c);
    }
  }

  /** The publishes among samples [i, j). */
  ghost function PublishCount(config: Option<Deadband>, samples: seq<Sample>, i: nat, j: nat): nat
    requires i <= j <= |samples|
    decreases j
  {
    if i == j then 0 else PublishCount(config, samples, i, j - 1) + if Published(config, samples, j - 1) then 1 else 0
  }

  lemma OneMore(k: int, m: int)
    ensures k * m == (k - 1) * m + m
  {
  }

  /** k publishes, of which the first is at or after sample i, span at least k - 1 times MinTime. */
  lemma {:induction false} PublishesSpan(c: Deadband, samples: seq<Sample>, i: nat, j: nat, gap: int)
    returns (first: nat, last: nat)
    requires Compatible(c) && InTimeOrder(samples) && i <= j <= |samples| && gap == c.minTime * MILLISECOND
    requires PublishCount(Some(c), samples, i, j) > 0
    ensures i <= first <= last < j && Published(Some(c), samples, last)
    ensures samples[last].now - samples[first].now >= (PublishCount(Some(c), samples, i, j) - 1) * gap
    decreases j
  {
    var count := PublishCount(Some(c), samples, i, j - 1);
    if count == 0 {
      return j - 1, j - 1;
    }
    first, last := PublishesSpan(c, samples, i, j - 1, gap);
    if Published(Some(c), samples, j - 1) {
      PublishesApart(c, samples, last, j - 1);
      OneMore(count, gap);
      last := j - 1;
    }
  }

  /** A window of length W holds at most W / MinTime + 1 publishes. */
  lemma RateBound(c: Deadband, samples: seq<Sample>, i: nat, j: nat, window: nat)
    requires Compatible(c) && c.minTime > 0 && InTimeOrder(samples) && i < j <= |samples|
    requires samples[j - 1].now - samples[i].now <= window
    ensures (PublishCount(Some(c), samples, i, j) - 1) * (c.minTime * MILLISECOND) <= window
  {
    if PublishCount(Some(c), samples, i, j) > 0 {
      var first, last := PublishesSpan(c, samples, i, j, c.minTime * MILLISECOND);
      assert samples[i].now <= samples[first].now && samples[last].now <= samples[j - 1].now;
    }
  }
}
