/** A client of the series, as the tests drive it: create a series, then
    ingest executions and bars one after the other, each call on the state
    the previous one left. */
module Session {
  import opened Wrappers
  import opened Types
  import opened Align
  import opened BarStore
  import opened Recency
  import opened Engine
  import opened Scenario

  /** One ingestion call: AddExec with an execution or AddOHLCV with a bar. */
  datatype Event = ExecEvent(e: TPQ) | BarEvent(b: OHLCV)

  function Step(st: Store, ev: Event, o: SeriesOpts): Store
    requires o.Interval > 0
  {
    match ev
    case ExecEvent(e) => AddExecStore(st, e, o)
    case BarEvent(b) => AddOHLCVStore(st, b, o)
  }

  /** The bars after the events, in order. */
  function Run(st: Store, evs: seq<Event>, o: SeriesOpts): Store
    requires o.Interval > 0
    decreases |evs|
  {
    if evs == [] then st else Step(Run(st, evs[..|evs| - 1], o), evs[|evs| - 1], o)
  }

  /** Running one more event is one more step. */
  lemma RunSnoc(st: Store, evs: seq<Event>, i: int, o: SeriesOpts)
    requires o.Interval > 0 && 0 <= i < |evs|
    ensures Run(st, evs[..i + 1], o) == Step(Run(st, evs[..i], o), evs[i], o)
  {
    assert evs[..i + 1][..i] == evs[..i];
  }

  /** Executions only keep the last bar the latest, whatever their order. */
  lemma {:induction false} RunExecsLatest(st: Store, evs: seq<Event>, o: SeriesOpts)
    requires o.Interval > 0 && ValidStore(st, o.Interval) && Latest(st)
    requires forall i | 0 <= i < |evs| :: evs[i].ExecEvent?
    ensures ValidStore(Run(st, evs, o), o.Interval) && Latest(Run(st, evs, o))
    decreases |evs|
  {
    if evs != [] {
      var pre := evs[..|evs| - 1];
      assert forall i | 0 <= i < |pre| :: pre[i] == evs[i];
      RunExecsLatest(st, pre, o);
      var r := Run(st, pre, o);
      Ingest.AddExecStoreValid(r, evs[|evs| - 1].e, o);
      AddExecLatest(r, evs[|evs| - 1].e, o);
    }
  }

  /** One ingestion call on the series. */
  method Apply(s: Series, ev: Event)
    requires s.Valid() && ValidStore(s.Contents, s.opts.Interval)
    modifies s, s.lastOHLC
    ensures s.Valid() && ValidStore(s.Contents, s.opts.Interval)
    ensures s.Contents == Step(old(s.Contents), ev, s.opts)
    ensures s.lastOHLC == old(s.lastOHLC) || fresh(s.lastOHLC)
  {
    match ev
    case ExecEvent(e) =>
      var err := s.AddExec(e);
    case BarEvent(b) =>
      var err := s.AddOHLCV(b);
  }

  /** One call per event, each on the series the previous call left. */
  method ApplyAll(s: Series, evs: seq<Event>)
    requires s.Valid() && ValidStore(s.Contents, s.opts.Interval)
    modifies s, s.lastOHLC
    ensures s.Valid() && ValidStore(s.Contents, s.opts.Interval)
    ensures s.Contents == Run(old(s.Contents), evs, s.opts)
    ensures s.lastOHLC == old(s.lastOHLC) || fresh(s.lastOHLC)
  {
    ghost var init := s.Contents;
    var i := 0;
    while i < |evs|
      invariant 0 <= i <= |evs|
      invariant s.Valid() && ValidStore(s.Contents, s.opts.Interval)
      invariant s.lastOHLC == old(s.lastOHLC) || fresh(s.lastOHLC)
      invariant s.Contents == Run(init, evs[..i], s.opts)
    {
      RunSnoc(init, evs, i, s.opts);
      Apply(s, evs[i]);
      i := i + 1;
    }
    assert evs[..i] == evs;
  }

  /** NewSeries followed by one call per event, each on the series the
      previous call left: the bars are those of the events run from the
      initial bars, and the store invariant holds throughout. */
  method Replay(bars: seq<OHLCV>, o: SeriesOpts, evs: seq<Event>) returns (r: Result<Series>)
    ensures r.Err? <==> o.Interval <= 0 || o.Max <= 0
    ensures r.Ok? ==>
      && fresh(r.value) && r.value.Valid() && r.value.opts == o
      && r.value.Contents == Run(InitStore(bars, o.Interval), evs, o)
      && ValidStore(r.value.Contents, o.Interval)
  {
    var created := NewSeries(bars, o);
    if created.Err? {
      return Err;
    }
    var s := created.value;
    ApplyAll(s, evs);
    return Ok(s);
  }

  /** The bar test on a series: NewSeries with one bar, AddOHLCV with a bar
      for the same interval, then with a bar for the next interval; both
      calls succeed, and each query returns the bar last added there. */
  method ReplaceThenNextSeries(b0: OHLCV, rep: OHLCV, next: OHLCV, o: SeriesOpts)
    returns (err1: bool, first: Option<Interval>, err2: bool, second: Option<Interval>)
    requires o.Interval > 0 && o.Max > 0
    requires o.EmptyInst == EmptyInstUseLastClose || o.EmptyInst == EmptyInstUseZeros
    requires LastIntervalFromTime(rep.S, o.Interval) == LastIntervalFromTime(b0.S, o.Interval)
    requires LastIntervalFromTime(next.S, o.Interval) == LastIntervalFromTime(b0.S, o.Interval) + o.Interval
    ensures var a := LastIntervalFromTime(b0.S, o.Interval);
      && !err1 && !err2
      && first.Some? && first.value.StartTime == a && first.value.OHLCV == Some(Restamp(rep, o.Interval))
      && second.Some? && second.value.StartTime == a + o.Interval
      && second.value.OHLCV == Some(Restamp(next, o.Interval))
  {
    var created := NewSeries([b0], o);
    var s := created.value;
    ghost var a := LastIntervalFromTime(b0.S, o.Interval);
    ReplaceThenNext(b0, rep, next, o);
    ghost var s1 := AddOHLCVStore(s.Contents, rep, o);
    err1 := s.AddOHLCV(rep);
    assert s.Contents == s1 && s.lastOHLC != null;
    first := s.GetValueForInterval(rep.S);
    ghost var s2 := AddOHLCVStore(s1, next, o);
    err2 := s.AddOHLCV(next);
    assert s.Contents == s2 && s.lastOHLC != null;
    second := s.GetValueForInterval(next.S);
  }
}
