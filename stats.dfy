/**
 The diagnostic report of `showPageStats`, over the durable store's decoded
 entries. Console output is not modelled: the report is the four values the
 function prints, each either a value or the "not available" placeholder
 (None).
 */
module Stats {
  import opened Storage
  import ViewCounter

  datatype StatsReport = StatsReport(
    views: Entry,                // `viewCount || '0'`
    lastVisit: Option<string>,   // `visitData.lastVisit`
    timeSpent: Option<int>,      // `lastMetrics.timeSpent`, in seconds
    maxScroll: Option<int>)      // `lastMetrics.maxScroll`, in percent

  function Lookup(local: Store, key: string): Option<Entry>
  {
    if key in local then Some(local[key]) else None
  }

  /** `JSON.parse(localStorage.getItem(key) || '{}')` does not throw: the entry
      is absent, empty, a numeral or a record. */
  predicate Parses(e: Option<Entry>)
  {
    !(e.Some? && e.value.Text? && e.value.s != "")
  }

  /** `viewCount || '0'`: an absent or empty count prints as 0. */
  function ShownViews(local: Store): (v: Entry)
    ensures v != Text("")
    ensures PageViewsKey !in local || local[PageViewsKey] == Text("") ==> v == Number(0)
    ensures PageViewsKey in local && local[PageViewsKey] != Text("") ==> v == local[PageViewsKey]
  {
    match Lookup(local, PageViewsKey)
    case None => Number(0)
    case Some(e) => if e == Text("") then Number(0) else e
  }

  /** `visitData.lastVisit || placeholder`: the stored time, unless it is
      missing or empty. */
  function LastVisitOf(e: Option<Entry>): (r: Option<string>)
    ensures r.Some? <==> e.Some? && e.value.VisitRecord? && e.value.visit.lastVisit != ""
    ensures r.Some? ==> r.value == e.value.visit.lastVisit
  {
    if e.Some? && e.value.VisitRecord? && e.value.visit.lastVisit != "" then Some(e.value.visit.lastVisit) else None
  }

  function MetricsOf(e: Option<Entry>): Option<VisitMetrics>
  {
    if e.Some? && e.value.MetricsRecord? then Some(e.value.metrics) else None
  }

  /** A metric as `lastMetrics.x ? … : placeholder` prints it: a missing field
      and a recorded 0 both print the placeholder. */
  function TruthyMetric(m: Option<VisitMetrics>, timeNotScroll: bool): (r: Option<int>)
    ensures r.Some? <==> m.Some? && (if timeNotScroll then m.value.timeSpent else m.value.maxScroll) != 0
    ensures r.Some? ==> r.value == (if timeNotScroll then m.value.timeSpent else m.value.maxScroll)
  {
    if m.None? then None
    else
      var v := if timeNotScroll then m.value.timeSpent else m.value.maxScroll;
      if v != 0 then Some(v) else None
  }

  /** `showPageStats` as written: None when one of the two JSON.parse calls
      throws (the handler prints nothing else). */
  function ReportAsWritten(local: Store): (r: Option<StatsReport>)
    ensures r.None? <==> !Parses(Lookup(local, VisitDataKey)) || !Parses(Lookup(local, LastMetricsKey))
    ensures r.Some? ==> r.value.views == ShownViews(local)
    ensures r.Some? ==> r.value.lastVisit == LastVisitOf(Lookup(local, VisitDataKey))
    ensures r.Some? ==> (r.value.timeSpent.Some? <==>
      MetricsOf(Lookup(local, LastMetricsKey)).Some? && local[LastMetricsKey].metrics.timeSpent != 0)
    ensures r.Some? && r.value.timeSpent.Some? ==> r.value.timeSpent.value == local[LastMetricsKey].metrics.timeSpent
    ensures r.Some? ==> (r.value.maxScroll.Some? <==>
      MetricsOf(Lookup(local, LastMetricsKey)).Some? && local[LastMetricsKey].metrics.maxScroll != 0)
    ensures r.Some? && r.value.maxScroll.Some? ==> r.value.maxScroll.value == local[LastMetricsKey].metrics.maxScroll
  {
    var visit := Lookup(local, VisitDataKey);
    var metrics := Lookup(local, LastMetricsKey);
    if !Parses(visit) || !Parses(metrics) then None
    else
      var m := MetricsOf(metrics);
      Some(StatsReport(ShownViews(local), LastVisitOf(visit), TruthyMetric(m, true), TruthyMetric(m, false)))
  }

  /** The report with a placeholder only for a field that is missing: a
      recorded time of 0 s or a scroll depth of 0 % is shown as such. */
  function Report(local: Store): (r: Option<StatsReport>)
    ensures r.None? <==> !Parses(Lookup(local, VisitDataKey)) || !Parses(Lookup(local, LastMetricsKey))
    ensures r.Some? ==> r.value.views == ShownViews(local)
    ensures r.Some? ==> r.value.lastVisit == LastVisitOf(Lookup(local, VisitDataKey))
    ensures r.Some? ==> (r.value.timeSpent.Some? <==> MetricsOf(Lookup(local, LastMetricsKey)).Some?)
    ensures r.Some? && r.value.timeSpent.Some? ==> r.value.timeSpent.value == local[LastMetricsKey].metrics.timeSpent
    ensures r.Some? ==> (r.value.maxScroll.Some? <==> MetricsOf(Lookup(local, LastMetricsKey)).Some?)
    ensures r.Some? && r.value.maxScroll.Some? ==> r.value.maxScroll.value == local[LastMetricsKey].metrics.maxScroll
  {
    var visit := Lookup(local, VisitDataKey);
    var metrics := Lookup(local, LastMetricsKey);
    if !Parses(visit) || !Parses(metrics) then None
    else
      var m := MetricsOf(metrics);
      var timeSpent := if m.Some? then Some(m.value.timeSpent) else None;
      var maxScroll := if m.Some? then Some(m.value.maxScroll) else None;
      Some(StatsReport(ShownViews(local), LastVisitOf(visit), timeSpent, maxScroll))
  }

  /** As written, a visit that stored 0 s and 0 % (a quick exit without
      scrolling) is reported as if no metrics had been stored. */
  lemma ZeroMetricsReportedMissing(timestamp: string, pageUrl: string)
    ensures var local := map[LastMetricsKey := MetricsRecord(VisitMetrics(0, 0, timestamp, pageUrl))];
      var r := ReportAsWritten(local);
      && r.Some? && r.value.timeSpent.None? && r.value.maxScroll.None?
      && Report(local).Some? && Report(local).value.timeSpent == Some(0) && Report(local).value.maxScroll == Some(0)
  {
  }

  /** The report shows exactly the metrics the last unload stored, and
      agrees with the as-written report whenever they are not 0. */
  lemma ReportShowsStoredMetrics(local: Store, m: VisitMetrics)
    requires Parses(Lookup(local, VisitDataKey))
    ensures var r := Report(local[LastMetricsKey := MetricsRecord(m)]);
      && r.Some? && r.value.timeSpent == Some(m.timeSpent) && r.value.maxScroll == Some(m.maxScroll)
    ensures m.timeSpent != 0 && m.maxScroll != 0 ==>
      Report(local[LastMetricsKey := MetricsRecord(m)]) == ReportAsWritten(local[LastMetricsKey := MetricsRecord(m)])
  {
    var l := local[LastMetricsKey := MetricsRecord(m)];
    assert Lookup(l, VisitDataKey) == Lookup(local, VisitDataKey);
  }

  /** An absent or empty count is reported as 0, anything else as stored. */
  lemma ReportedViews(local: Store)
    requires Report(local).Some?
    ensures PageViewsKey !in local || local[PageViewsKey] == Text("") ==> Report(local).value.views == Number(0)
    ensures PageViewsKey in local && local[PageViewsKey] != Text("") ==> Report(local).value.views == local[PageViewsKey]
  {
  }

  /** After the first clean load of a session, the report prints the count
      just stored and the load's own time as the last visit. */
  lemma ReportAfterFirstLoad(s: PageState, env: ViewCounter.LoadEnv)
    requires ViewCounter.CleanLoad(true, env) && !ViewCounter.FlagSet(s.session)
    requires env.now != ""
    requires Parses(Lookup(s.local, LastMetricsKey))
    ensures var local := ViewCounter.Load(s, true, env).local;
      && Report(local).Some?
      && Report(local).value.lastVisit == Some(env.now)
      && Report(local).value.views == Number(ViewCounter.StoredCount(s.local) + 1)
      && ReportAsWritten(local).Some?
      && ReportAsWritten(local).value.lastVisit == Some(env.now)
  {
    ViewCounter.FirstLoadInSession(s, true, env);
    var local := ViewCounter.Load(s, true, env).local;
    assert Lookup(local, LastMetricsKey) == Lookup(s.local, LastMetricsKey);
  }
}
