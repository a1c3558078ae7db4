/** Properties of the lookback wrapper `prev` and of configuring and feeding
    indicators in general. */
module PreviousProps {
  import opened Wrappers
  import opened Types
  import opened Indicators

  /** A successful ApplyOpts leaves the whole chain configured. */
  lemma {:induction false} ApplyOptsConfigures(ind: Indicator, o: SeriesOpts)
    requires ApplyOpts(ind, o).Ok?
    ensures Configured(ApplyOpts(ind, o).value)
  {
    if ind.Previous? {
      ApplyOptsConfigures(ind.src, o);
    }
  }

  /** Update never removes stored options. */
  lemma {:induction false} UpdateKeepsConfigured(ind: Indicator, v: OHLCV)
    requires Configured(ind) && Update(ind, v).Ok?
    ensures Configured(Update(ind, v).value)
  {
    if ind.Previous? {
      UpdateKeepsConfigured(ind.src, v);
    }
  }

  lemma {:induction false} FeedAllKeepsConfigured(ind: Indicator, bars: seq<OHLCV>)
    requires Configured(ind) && FeedAll(ind, bars).Ok?
    ensures Configured(FeedAll(ind, bars).value)
  {
    if bars != [] {
      var pre := bars[..|bars| - 1];
      FeedAllKeepsConfigured(ind, pre);
      UpdateKeepsConfigured(FeedAll(ind, pre).value, bars[|bars| - 1]);
    }
  }

  /** Every state reachable by offering bars stays configured. */
  lemma {:induction false} ReachKeepsConfigured(a: Indicator, b: Indicator, bars: seq<OHLCV>)
    requires Configured(a) && FedBy(a, b, bars)
    ensures Configured(b)
    decreases |bars|
  {
    if bars != [] {
      var pre, v := bars[..|bars| - 1], bars[|bars| - 1];
      if b in Reach(a, pre) {
        ReachKeepsConfigured(a, b, pre);
      } else {
        var x :| x in Reach(a, pre) && Update(x, v).Ok? && Update(x, v).value == b;
        ReachKeepsConfigured(a, x, pre);
        UpdateKeepsConfigured(x, v);
      }
    }
  }

  /** NewPrevious(i, lookback) accepts options exactly when the maximum is not
      below the lookback and the source accepts them; it then holds the
      configured source and the options. */
  lemma NewPreviousApplyOpts(i: Indicator, lookback: int, o: SeriesOpts)
    ensures ApplyOpts(NewPrevious(i, lookback), o).Ok? <==> o.Max >= lookback && ApplyOpts(i, o).Ok?
    ensures ApplyOpts(NewPrevious(i, lookback), o).Ok? ==>
      ApplyOpts(NewPrevious(i, lookback), o).value == Previous(ApplyOpts(i, o).value, lookback, Some(o))
  {
  }

  /** Feeding a `prev` feeds its source the same bars and nothing else: the
      wrapper fails exactly when the source does and otherwise keeps its
      lookback and options around the fed source. */
  lemma {:induction false} PreviousFeedAll(src: Indicator, lookback: int, opts: Option<SeriesOpts>, bars: seq<OHLCV>)
    ensures FeedAll(Previous(src, lookback, opts), bars) ==
      match FeedAll(src, bars)
      case Err => Err
      case Ok(s) => Ok(Previous(s, lookback, opts))
  {
    if bars != [] {
      PreviousFeedAll(src, lookback, opts, bars[..|bars| - 1]);
    }
  }

  /** After any history of updates, a configured `prev` answers at `t` exactly
      when its fed source has a value at `t - lookback * Interval`, with that value. */
  lemma PreviousAfterFeed(src: Indicator, lookback: int, o: SeriesOpts, bars: seq<OHLCV>, t: int)
    requires Configured(src) && FeedAll(src, bars).Ok?
    ensures var p := FeedAll(Previous(src, lookback, Some(o)), bars);
      var s := FeedAll(src, bars).value;
      && p.Ok? && Configured(s) && Configured(p.value)
      && (ValueAt(p.value, t).None? <==> ValueAt(s, t - lookback * o.Interval).None?)
      && (ValueAt(p.value, t).Some? ==>
            ValueAt(p.value, t).value.StartTime == t &&
            ValueAt(p.value, t).value.Value == ValueAt(s, t - lookback * o.Interval).value.Value)
  {
    PreviousFeedAll(src, lookback, Some(o), bars);
    FeedAllKeepsConfigured(src, bars);
  }

  /** Looking back `b` intervals at a look back of `a` intervals is looking back
      `a + b` intervals. */
  lemma PreviousCompose(s: Indicator, a: int, b: int, o: SeriesOpts, t: int)
    requires Configured(s)
    ensures ValueAt(Previous(Previous(s, a, Some(o)), b, Some(o)), t) ==
            ValueAt(Previous(s, a + b, Some(o)), t)
  {
    assert t - b * o.Interval - a * o.Interval == t - (a + b) * o.Interval;
  }

  /** A lookback of zero answers with the source's value at the same time. */
  lemma PreviousZero(s: Indicator, o: SeriesOpts, t: int)
    requires Configured(s)
    ensures ValueAt(Previous(s, 0, Some(o)), t) ==
      match ValueAt(s, t)
      case None => None
      case Some(v) => Some(Interval(t, None, v.Value, map[]))
  {
  }
}
