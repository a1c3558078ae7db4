/** When the last bar is the latest one stored: loading bars in order makes
    it so, every ingestion step keeps it except AddOHLCV on an earlier
    interval, and what goes wrong while it does not hold. */
module Recency {
  import opened Wrappers
  import opened Types
  import opened Align
  import opened BarStore
  import opened Ingest

  /** Inserting a bar whose start lies after the latest one stores it and
      makes it the latest. */
  lemma InsertLatest(st: Store, v: OHLCV, interval: int)
    requires interval > 0 && st.last.Some? && Latest(st)
    requires LastIntervalFromTime(v.S, interval) > st.last.value.S
    ensures var b := Restamp(v, interval);
      var r := Insert(st, v, interval);
      && b.S !in st.bars
      && r == Store(st.values + [b], st.bars[b.S := b], Some(b), true)
      && Latest(r)
  {
  }

  /** Each bar of an execution's gap loop lands one aligned start after the
      current last bar, so the last bar stays the latest, whatever the
      interval. */
  lemma {:induction false} GapFromLatest(st: Store, i: int, m: int, usenew: int, f: Final, zeros: bool, interval: int)
    requires interval > 0 && st.last.Some? && Latest(st) && f.ExecFinal?
    ensures Latest(GapFrom(st, i, m, usenew, f, zeros, interval))
    decreases m - i
  {
    if i < m {
      var b := GapBar(st, i, usenew, f, zeros, interval);
      assert b.S == st.last.value.S + interval;
      AlignBounds(b.S, interval);
      InsertLatest(st, b, interval);
      GapFromLatest(Insert(st, b, interval), i + 1, m, usenew, f, zeros, interval);
    }
  }

  /** No key of a gap loop lies beyond `hi` when the fillers still to come,
      one interval apart, stay within it and so does the final bar. */
  lemma {:induction false} GapFromBelow(st: Store, i: int, m: int, usenew: int, f: Final, zeros: bool,
                                        interval: int, hi: int)
    requires interval > 0 && st.last.Some?
    requires forall k | k in st.bars :: k <= hi
    requires i < m ==> st.last.value.S + (m - i) * interval <= hi
    requires f.BarFinal? ==> usenew >= m - 1 && LastIntervalFromTime(f.b.S, interval) <= hi
    ensures forall k | k in GapFrom(st, i, m, usenew, f, zeros, interval).bars :: k <= hi
    decreases m - i
  {
    if i < m {
      var b := GapBar(st, i, usenew, f, zeros, interval);
      var r := Insert(st, b, interval);
      MulSucc(m - i - 1, interval);
      MulMonotone(1, m - i, interval);
      if !(f.BarFinal? && i == usenew) {
        assert b.S == st.last.value.S + interval;
        AlignBounds(b.S, interval);
      }
      assert r.last.value.S <= st.last.value.S + interval || i + 1 == m;
      GapFromBelow(r, i + 1, m, usenew, f, zeros, interval, hi);
    }
  }

  /** Every step of AddExec keeps the last bar the latest, on every interval
      and under every policy (an earlier execution changes nothing). */
  lemma AddExecLatest(st: Store, v: TPQ, o: SeriesOpts)
    requires o.Interval > 0 && Latest(st) && (st.last.None? ==> st.bars == map[])
    ensures Latest(AddExecStore(st, v, o))
  {
    var start := LastIntervalFromTime(v.Timestamp, o.Interval);
    AlignIdempotent(v.Timestamp, o.Interval);
    if st.last.Some? && start - st.last.value.S > 0 {
      var m := MultiplierDiff(v.Timestamp, st.last.value.S, o.Interval);
      var f := ExecFinal(v.Px, v.Qty);
      GapFromLatest(st, 0, m, UseNew(m), f, false, o.Interval);
      GapFromLatest(st, 0, m, UseNew(m), f, true, o.Interval);
      InsertLatest(st, NewOHLCVWithSamePx(v.Px, v.Qty, start), o.Interval);
    }
  }

  /** The truncated count of whole intervals never overshoots the distance. */
  lemma CountBelow(t: int, st: int, interval: int)
    requires interval > 0 && t > st
    ensures MultiplierDiff(t, st, interval) >= 0
    ensures st + MultiplierDiff(t, st, interval) * interval <= t
  {
    DivBounds(t - st, interval);
  }

  /** AddOHLCV's gap branch keeps every key at or before the incoming bar's
      start, which becomes the last bar. */
  lemma AddOHLCVGapLatest(st: Store, v: OHLCV, o: SeriesOpts)
    requires o.Interval > 0 && st.last.Some? && Latest(st)
    requires o.EmptyInst == EmptyInstUseLastClose || o.EmptyInst == EmptyInstUseZeros
    requires LastIntervalFromTime(v.S, o.Interval) > st.last.value.S
    ensures Latest(AddOHLCVStore(st, v, o))
  {
    var b := Restamp(v, o.Interval);
    AlignIdempotent(v.S, o.Interval);
    var m := MultiplierDiff(b.S, st.last.value.S, o.Interval);
    CountBelow(b.S, st.last.value.S, o.Interval);
    var zeros := o.EmptyInst == EmptyInstUseZeros;
    GapFromBelow(st, 0, m, UseNew(m), BarFinal(b), zeros, o.Interval, b.S);
    assert AddOHLCVStore(st, v, o) == Detach(GapFrom(st, 0, m, UseNew(m), BarFinal(b), zeros, o.Interval), b);
  }

  /** AddOHLCV keeps the last bar the latest except for a bar of an earlier
      interval, which leaves `lastOHLC` behind every bar stored at or after
      its own start. */
  lemma AddOHLCVLatest(st: Store, v: OHLCV, o: SeriesOpts)
    requires o.Interval > 0 && Latest(st) && (st.last.None? ==> st.bars == map[])
    ensures var r := AddOHLCVStore(st, v, o);
      && ((st.last.None? || LastIntervalFromTime(v.S, o.Interval) >= st.last.value.S) ==> Latest(r))
      && (st.last.Some? && st.last.value.S in st.bars && LastIntervalFromTime(v.S, o.Interval) < st.last.value.S
          ==> !Latest(r))
  {
    var b := Restamp(v, o.Interval);
    AlignIdempotent(v.S, o.Interval);
    if st.last.Some? && b.S - st.last.value.S > 0 {
      if o.EmptyInst == EmptyInstUseLastClose || o.EmptyInst == EmptyInstUseZeros {
        AddOHLCVGapLatest(st, v, o);
      } else {
        InsertLatest(st, b, o.Interval);
      }
    }
  }

  /** The interval starts of the bars never decrease. */
  ghost predicate StartsInOrder(bars: seq<OHLCV>, interval: int)
    requires interval > 0
  {
    forall i, j | 0 <= i < j < |bars| ::
      LastIntervalFromTime(bars[i].S, interval) <= LastIntervalFromTime(bars[j].S, interval)
  }

  /** Initial bars whose interval starts never decrease leave the last bar
      the latest. */
  lemma {:induction false} InitStoreLatest(bars: seq<OHLCV>, interval: int)
    requires interval > 0 && StartsInOrder(bars, interval)
    ensures Latest(InitStore(bars, interval))
    ensures InitStore(bars, interval).last.None? ==> InitStore(bars, interval).bars == map[]
    decreases |bars|
  {
    if bars != [] {
      var n := |bars| - 1;
      var pre := bars[..n];
      assert forall i | 0 <= i < |pre| :: pre[i] == bars[i];
      InitStoreLatest(pre, interval);
      InitStoreKeySet(pre, interval);
      AlignIdempotent(bars[n].S, interval);
      forall k | k in InitStore(pre, interval).bars
        ensures k <= LastIntervalFromTime(bars[n].S, interval)
      {
        var i :| 0 <= i < |pre| && k == LastIntervalFromTime(pre[i].S, interval);
      }
    }
  }

  /** In particular, initial bars in time order leave the last bar the latest. */
  lemma InitStoreLatestSorted(bars: seq<OHLCV>, interval: int)
    requires interval > 0
    requires forall i, j | 0 <= i < j < |bars| :: bars[i].S <= bars[j].S
    ensures Latest(InitStore(bars, interval))
  {
    forall i, j | 0 <= i < j < |bars|
      ensures LastIntervalFromTime(bars[i].S, interval) <= LastIntervalFromTime(bars[j].S, interval)
    {
      AlignMonotone(bars[i].S, bars[j].S, interval);
    }
    InitStoreLatest(bars, interval);
  }

  /** Out of order, the last bar is the last one inserted, not the latest:
      two initial bars whose second has the earlier start leave `lastOHLC`
      on the second while the first stays stored. */
  lemma InitStoreOutOfOrder(a: OHLCV, b: OHLCV, interval: int)
    requires interval > 0
    requires LastIntervalFromTime(a.S, interval) > LastIntervalFromTime(b.S, interval)
    ensures var r := InitStore([a, b], interval);
      && r.last == Some(Restamp(b, interval))
      && LastIntervalFromTime(a.S, interval) in r.bars
      && !Latest(r)
  {
    assert [a, b][..1] == [a];
    assert [a][..0] == [];
    var ra, rb := Restamp(a, interval), Restamp(b, interval);
    var s1 := Insert(Empty, a, interval);
    assert s1 == Store([ra], map[ra.S := ra], Some(ra), true);
    assert InitStore([a], interval) == s1;
    assert InitStore([a, b], interval) == Insert(s1, b, interval);
    assert Insert(s1, b, interval) == Store([ra, rb], map[ra.S := ra, rb.S := rb], Some(rb), true);
  }

  /** While `lastOHLC` lags behind a stored bar, an execution under Ignore in
      that bar's interval is handed to the indicators but merged into no
      bar: after a bar for an earlier interval, the stored bar of the latest
      interval no longer receives executions. */
  lemma LaggingDropsExec(st: Store, w: OHLCV, v: TPQ, o: SeriesOpts)
    requires o.Interval > 0 && o.EmptyInst == EmptyInstIgnore
    requires ValidStore(st, o.Interval) && st.last.Some? && st.last.value.S in st.bars
    requires LastIntervalFromTime(w.S, o.Interval) < st.last.value.S
    requires LastIntervalFromTime(v.Timestamp, o.Interval) == st.last.value.S
    ensures var s1 := AddOHLCVStore(st, w, o);
      && s1.bars == st.bars
      && AddExecStore(s1, v, o) == s1
      && AddExecFeed(s1, v, o) == [NewOHLCVWithSamePx(v.Px, v.Qty, st.last.value.S)]
  {
  }

  /** With an interval that does not divide a day, a gap across midnight
      follows `lastOHLC` plus one interval rather than the aligned starts:
      at a seven-hour interval, after a last bar at 21:00 on day 0, an
      execution at 14:00 on day 1 (m = 2) leaves a filler at midnight and the
      execution's own bar at 07:00, and nothing at 14:00, its own interval. */
  lemma GapAcrossMidnight(st: Store, v: TPQ, o: SeriesOpts)
    requires o == SeriesOpts(25200, 1, EmptyInstUseLastClose)
    requires st.last.Some? && st.last.value.S == 75600 && Latest(st)
    requires v.Timestamp == 136800
    ensures var r := AddExecStore(st, v, o);
      && LastIntervalFromTime(v.Timestamp, o.Interval) == 136800
      && r.bars == st.bars[86400 := NewOHLCVWithSamePx(st.last.value.C, 0.0, 86400)]
                          [111600 := NewOHLCVWithSamePx(v.Px, v.Qty, 111600)]
      && 136800 !in r.bars
      && r.last == Some(NewOHLCVWithSamePx(v.Px, v.Qty, 111600))
  {
    var f := ExecFinal(v.Px, v.Qty);
    assert MultiplierDiff(136800, 75600, 25200) == 2;
    assert LastIntervalFromTime(136800, 25200) == 136800;
    assert LastIntervalFromTime(100800, 25200) == 86400;
    assert LastIntervalFromTime(111600, 25200) == 111600;
    var b1 := NewOHLCVWithSamePx(st.last.value.C, 0.0, 86400);
    var b2 := NewOHLCVWithSamePx(v.Px, v.Qty, 111600);
    var s1 := Insert(st, GapBar(st, 0, 1, f, false, 25200), 25200);
    assert s1 == Store(st.values + [b1], st.bars[86400 := b1], Some(b1), true);
    var s2 := Insert(s1, GapBar(s1, 1, 1, f, false, 25200), 25200);
    assert s2 == Store(s1.values + [b2], s1.bars[111600 := b2], Some(b2), true);
    assert GapFrom(s2, 2, 2, 1, f, false, 25200) == s2;
    assert GapFrom(st, 0, 2, 1, f, false, 25200) == s2;
  }

  /** With an interval that does not divide a day, the next interval start
      after midnight can lie less than one interval after the last bar; the
      gap count is then zero and the execution is lost without an error: at a
      seven-hour interval, after a last bar at 21:00, an execution at the
      following midnight stores nothing and is handed to no indicator. */
  lemma ExecLostAtMidnight(st: Store, v: TPQ, o: SeriesOpts)
    requires o == SeriesOpts(25200, 1, EmptyInstUseLastClose)
    requires st.last.Some? && st.last.value.S == 75600
    requires v.Timestamp == 86400
    ensures LastIntervalFromTime(v.Timestamp, o.Interval) > st.last.value.S
    ensures MultiplierDiff(v.Timestamp, st.last.value.S, o.Interval) == 0
    ensures AddExecStore(st, v, o) == st && AddExecFeed(st, v, o) == []
    ensures !PolicyError(st, v.Timestamp, o)
  {
    assert LastIntervalFromTime(86400, 25200) == 86400;
  }
}
