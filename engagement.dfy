/**
 The engagement tracker of `trackPageEngagement`: a start time, the deepest
 scroll seen and whether the tab is active, updated by the scroll and
 visibility handlers and read by the unload handler, which stores the
 visit's metrics. The scroll percentage arrives already rounded; the clock
 is an input in milliseconds.
 */
module Engagement {
  import opened Storage

  /** `Math.round(scrollY / (scrollHeight - innerHeight) * 100)`: an integer,
      NaN (0 / 0) or an infinity (a non-zero scroll over a zero range). */
  datatype Reading = Percent(p: int) | NotANumber | PlusInfinity | MinusInfinity

  /** The value of `maxScroll`: an integer or +Infinity, the only values
      `Math.max` can produce from 0 and the readings. */
  datatype Depth = Finite(v: int) | Unbounded

  predicate AtMost(a: Depth, b: Depth)
  {
    b.Unbounded? || (a.Finite? && a.v <= b.v)
  }

  predicate NonNegative(d: Depth)
  {
    d.Unbounded? || d.v >= 0
  }

  /** `Math.max(maxScroll, scrollPercent || 0)`: NaN counts as 0, +Infinity
      wins for good, -Infinity never wins. The result is the larger of the
      old depth and the reading. */
  function Deepen(m: Depth, r: Reading): (d: Depth)
    ensures AtMost(m, d)
    ensures r.Percent? ==> AtMost(Finite(r.p), d)
    ensures r.Percent? ==> d == m || d == Finite(r.p)
    ensures r.NotANumber? ==> AtMost(Finite(0), d) && (d == m || d == Finite(0))
    ensures r.MinusInfinity? ==> d == m
    ensures r.PlusInfinity? ==> d == Unbounded
  {
    match r
    case Percent(p) => if m.Finite? && m.v < p then Finite(p) else m
    case NotANumber => if m.Finite? && m.v < 0 then Finite(0) else m
    case PlusInfinity => Unbounded
    case MinusInfinity => m
  }

  /** `Math.min(maxScroll, 100)`: at most 100, and never below 0 when the
      depth is not. */
  function CappedScroll(m: Depth): (r: int)
    ensures r <= 100
    ensures NonNegative(m) ==> 0 <= r
    ensures m.Finite? && m.v <= 100 ==> r == m.v
    ensures !(m.Finite? && m.v <= 100) ==> r == 100
  {
    match m
    case Finite(v) => if v <= 100 then v else 100
    case Unbounded => 100
  }

  /** `Math.round(elapsed / 1000)`, rounding halves up: the nearest whole
      second. */
  function RoundedSeconds(elapsedMs: int): (r: int)
    ensures r * 1000 - 500 <= elapsedMs < r * 1000 + 500
  {
    (elapsedMs + 500) / 1000
  }

  /** The three closure variables of the tracker. */
  datatype TrackerState = TrackerState(startTime: int, maxScroll: Depth, isActive: bool)

  datatype Event = Scroll(reading: Reading) | VisibilityChange(hidden: bool)

  function Start(now: int): (s: TrackerState)
    ensures s.startTime == now && s.isActive
    ensures s.maxScroll == Finite(0) && NonNegative(s.maxScroll)
  {
    TrackerState(now, Finite(0), true)
  }

  /** What one event does: a scroll deepens `maxScroll` only while active; a
      visibility change sets `isActive` to "not hidden". */
  function Step(s: TrackerState, e: Event): (r: TrackerState)
    ensures r.startTime == s.startTime
    ensures AtMost(s.maxScroll, r.maxScroll)
    ensures NonNegative(s.maxScroll) ==> NonNegative(r.maxScroll)
    ensures e.Scroll? ==> r.isActive == s.isActive
    ensures e.Scroll? && s.isActive ==> r.maxScroll == Deepen(s.maxScroll, e.reading)
    ensures e.Scroll? && !s.isActive ==> r == s
    ensures e.VisibilityChange? ==> r.isActive == !e.hidden && r.maxScroll == s.maxScroll
  {
    match e
    case Scroll(r) => if s.isActive then s.(maxScroll := Deepen(s.maxScroll, r)) else s
    case VisibilityChange(hidden) => s.(isActive := !hidden)
  }

  function Replay(s: TrackerState, events: seq<Event>): TrackerState
    decreases |events|
  {
    if events == [] then s else Replay(Step(s, events[0]), events[1..])
  }

  /** The record the unload handler stores. */
  function Metrics(s: TrackerState, now: int, timestamp: string, pageUrl: string): (m: VisitMetrics)
    ensures m.timeSpent * 1000 - 500 <= now - s.startTime < m.timeSpent * 1000 + 500
    ensures m.maxScroll == CappedScroll(s.maxScroll)
    ensures m.maxScroll <= 100
    ensures NonNegative(s.maxScroll) ==> 0 <= m.maxScroll
    ensures m.timestamp == timestamp && m.pageUrl == pageUrl
  {
    VisitMetrics(RoundedSeconds(now - s.startTime), CappedScroll(s.maxScroll), timestamp, pageUrl)
  }

  /** Whether the reading of the i-th event is recorded: it is a scroll that
      arrives while the tab is active. */
  predicate RecordedAt(s: TrackerState, events: seq<Event>, i: int)
    requires 0 <= i < |events|
  {
    events[i].Scroll? && Replay(s, events[..i]).isActive
  }

  lemma ReplayAppend(s: TrackerState, events: seq<Event>, e: Event)
    ensures Replay(s, events + [e]) == Step(Replay(s, events), e)
    decreases |events|
  {
    if events != [] {
      assert (events + [e])[1..] == events[1..] + [e];
      ReplayAppend(Step(s, events[0]), events[1..], e);
    }
  }

  /** Over any run of events, `maxScroll` never decreases, stays at least 0
      when it starts there, and is at least every integer reading recorded
      while the tab was active. */
  lemma {:induction false} ReplayDeepens(s: TrackerState, events: seq<Event>)
    requires NonNegative(s.maxScroll)
    ensures var r := Replay(s, events);
      && AtMost(s.maxScroll, r.maxScroll)
      && NonNegative(r.maxScroll)
      && r.startTime == s.startTime
      && (forall i :: 0 <= i < |events| && RecordedAt(s, events, i) && events[i].reading.Percent? ==>
            AtMost(Finite(events[i].reading.p), r.maxScroll))
    decreases |events|
  {
    if events != [] {
      var n := |events|;
      var init := events[..n - 1];
      var e := events[n - 1];
      assert events == init + [e];
      ReplayDeepens(s, init);
      ReplayAppend(s, init, e);
      var mid := Replay(s, init);
      var r := Replay(s, events);
      assert r == Step(mid, e);
      assert AtMost(mid.maxScroll, r.maxScroll);
      forall i | 0 <= i < n && RecordedAt(s, events, i) && events[i].reading.Percent?
        ensures AtMost(Finite(events[i].reading.p), r.maxScroll)
      {
        if i < n - 1 {
          assert events[..i] == init[..i];
          assert RecordedAt(s, init, i);
        } else {
          assert events[..i] == init;
        }
      }
    }
  }

  /** Whatever happens between load and unload, the stored `maxScroll` lies in
      [0, 100]: above 100 and +Infinity are capped, and nothing takes it below
      the initial 0. */
  lemma UnloadScrollInRange(now: int, events: seq<Event>, later: int, timestamp: string, pageUrl: string)
    ensures var m := Metrics(Replay(Start(now), events), later, timestamp, pageUrl);
      && 0 <= m.maxScroll <= 100
      && m.timeSpent * 1000 - 500 <= later - now < m.timeSpent * 1000 + 500
  {
    ReplayDeepens(Start(now), events);
  }

  /** A visibility change leaves the tab active exactly when it is not hidden. */
  lemma VisibilityDecidesActivity(s: TrackerState, hidden: bool)
    ensures Step(s, VisibilityChange(hidden)).isActive == !hidden
    ensures Step(s, VisibilityChange(hidden)).maxScroll == s.maxScroll
  {
  }

  /** A scroll while hidden records nothing. */
  lemma InactiveScrollIgnored(s: TrackerState, r: Reading)
    requires !s.isActive
    ensures Step(s, Scroll(r)) == s
  {
  }

  /** The tracker with its three closure variables as fields. */
  class Tracker {
    var startTime: int
    var maxScroll: Depth
    var isActive: bool

    ghost predicate Valid()
      reads this
    {
      NonNegative(maxScroll)
    }

    function State(): TrackerState
      reads this
    {
      TrackerState(startTime, maxScroll, isActive)
    }

    /** `let startTime = Date.now(); let maxScroll = 0; let isActive = true;` */
    constructor (now: int)
      ensures Valid()
      ensures State() == Start(now)
    {
      startTime := now;
      maxScroll := Finite(0);
      isActive := true;
    }

    /** The `scroll` handler. */
    method OnScroll(r: Reading)
      requires Valid()
      modifies this
      ensures Valid()
      ensures State() == Step(old(State()), Scroll(r))
      ensures AtMost(old(maxScroll), maxScroll)
    {
      if !isActive {
        return;
      }
      maxScroll := Deepen(maxScroll, r);
    }

    /** The `visibilitychange` handler. */
    method OnVisibilityChange(hidden: bool)
      requires Valid()
      modifies this
      ensures Valid()
      ensures State() == Step(old(State()), VisibilityChange(hidden))
      ensures isActive == !hidden
    {
      isActive := !hidden;
    }

    /** The metrics the `beforeunload` handler builds; the tracker is not changed. */
    method UnloadMetrics(now: int, timestamp: string, pageUrl: string) returns (m: VisitMetrics)
      requires Valid()
      ensures m == Metrics(State(), now, timestamp, pageUrl)
      ensures 0 <= m.maxScroll <= 100
    {
      var timeSpent := RoundedSeconds(now - startTime);
      m := VisitMetrics(timeSpent, CappedScroll(maxScroll), timestamp, pageUrl);
    }

    /** The `beforeunload` handler: stores the metrics under
        `lastVisitMetrics`; a store that throws leaves the page unchanged. */
    method OnBeforeUnload(page: Page, now: int, timestamp: string, pageUrl: string, writeOk: bool)
      requires Valid()
      modifies page`local
      ensures writeOk ==> page.local == old(page.local)[LastMetricsKey := MetricsRecord(Metrics(State(), now, timestamp, pageUrl))]
      ensures !writeOk ==> page.local == old(page.local)
      ensures writeOk ==> 0 <= page.local[LastMetricsKey].metrics.maxScroll <= 100
    {
      var m := UnloadMetrics(now, timestamp, pageUrl);
      page.SaveVisitMetrics(m, writeOk);
    }
  }
}
