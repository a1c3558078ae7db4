/** The data of the execution test at a five-minute interval, on the bar
    functions: what the merges and the gap produce. */
module Scenario {
  import opened Wrappers
  import opened Types
  import opened Align
  import opened BarStore
  import opened GapFill
  import opened Ingest
  import opened Recency

  /** Four executions in one interval (14, 15, 13, 14 with quantities 5, 2,
      3, 7) merge into O=14, H=15, L=13, C=14, V=17; four in the next (13, 18,
      10, 15 with 10, 1, 3, 10) into O=13, H=18, L=10, C=15, V=24. */
  lemma MergeSequence()
    ensures MergeExec(MergeExec(MergeExec(NewOHLCVWithSamePx(14.0, 5.0, 0),
              TPQ(0, 15.0, 2.0)), TPQ(0, 13.0, 3.0)), TPQ(0, 14.0, 7.0))
            == OHLCV(14.0, 15.0, 13.0, 14.0, 17.0, 0)
    ensures MergeExec(MergeExec(MergeExec(NewOHLCVWithSamePx(13.0, 10.0, 300),
              TPQ(300, 18.0, 1.0)), TPQ(300, 10.0, 3.0)), TPQ(300, 15.0, 10.0))
            == OHLCV(13.0, 18.0, 10.0, 15.0, 24.0, 300)
  {
  }

  /** An execution two intervals after that bar leaves one filler at its
      close with no volume, then the execution's own bar. */
  lemma GapSequence()
    ensures GapExpected(OHLCV(13.0, 18.0, 10.0, 15.0, 24.0, 300), 2, ExecFinal(14.0, 13.0), false, 300)
            == [OHLCV(15.0, 15.0, 15.0, 15.0, 0.0, 600), OHLCV(14.0, 14.0, 14.0, 14.0, 13.0, 900)]
  {
    var e := GapExpected(OHLCV(13.0, 18.0, 10.0, 15.0, 24.0, 300), 2, ExecFinal(14.0, 13.0), false, 300);
    assert e[0] == OHLCV(15.0, 15.0, 15.0, 15.0, 0.0, 600);
    assert e[1] == OHLCV(14.0, 14.0, 14.0, 14.0, 13.0, 900);
  }

  /** NewSeries with one initial bar stores it, re-stamped, under its start,
      as the attached last bar. */
  lemma OneInitialBar(b0: OHLCV, interval: int)
    requires interval > 0
    ensures var init := InitStore([b0], interval);
      var a := LastIntervalFromTime(b0.S, interval);
      && ValidStore(init, interval) && Latest(init)
      && init.bars == map[a := Restamp(b0, interval)]
      && init.last == Some(Restamp(b0, interval)) && init.attached
  {
    InitStoreKeys([b0], interval);
    InitStoreLatest([b0], interval);
    assert [b0][..0] == [];
  }

  /** The bar test: after one initial bar, a bar for the same interval
      replaces it and a bar for the next interval is stored after it, neither
      call meeting the unknown-policy error. */
  lemma {:induction false} ReplaceThenNext(b0: OHLCV, rep: OHLCV, next: OHLCV, o: SeriesOpts)
    requires o.Interval > 0
    requires o.EmptyInst == EmptyInstUseLastClose || o.EmptyInst == EmptyInstUseZeros
    requires LastIntervalFromTime(rep.S, o.Interval) == LastIntervalFromTime(b0.S, o.Interval)
    requires LastIntervalFromTime(next.S, o.Interval) == LastIntervalFromTime(b0.S, o.Interval) + o.Interval
    ensures var a := LastIntervalFromTime(b0.S, o.Interval);
      var init := InitStore([b0], o.Interval);
      var s1 := AddOHLCVStore(init, rep, o);
      var s2 := AddOHLCVStore(s1, next, o);
      && !PolicyError(init, rep.S, o) && !PolicyError(s1, next.S, o)
      && s1.bars == map[a := Restamp(rep, o.Interval)]
      && s2.bars == map[a := Restamp(rep, o.Interval), a + o.Interval := Restamp(next, o.Interval)]
      && a in s1.bars && s1.bars[a] == Restamp(rep, o.Interval)
      && a + o.Interval in s2.bars && s2.bars[a + o.Interval] == Restamp(next, o.Interval)
  {
    var init := InitStore([b0], o.Interval);
    OneInitialBar(b0, o.Interval);
    AddOHLCVSame(init, rep, o);
    var s1 := AddOHLCVStore(init, rep, o);
    AddOHLCVNext(s1, next, o);
  }
}
