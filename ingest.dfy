/** What each ingestion entry point does to the bar store, branch by branch. */
module Ingest {
  import opened Wrappers
  import opened Types
  import opened Align
  import opened BarStore
  import opened GapFill

  /** AddExec keeps the store invariant. */
  lemma AddExecStoreValid(st: Store, v: TPQ, o: SeriesOpts)
    requires o.Interval > 0 && ValidStore(st, o.Interval)
    ensures ValidStore(AddExecStore(st, v, o), o.Interval)
  {
    var start := LastIntervalFromTime(v.Timestamp, o.Interval);
    var b := NewOHLCVWithSamePx(v.Px, v.Qty, start);
    if st.last.None? {
      InsertValid(st, b, o.Interval);
    } else if st.last.value.S == start {
      RewriteValid(st, MergeExec(st.last.value, v), o.Interval);
    } else if start - st.last.value.S > 0 {
      var m := MultiplierDiff(v.Timestamp, st.last.value.S, o.Interval);
      GapFromValid(st, 0, m, UseNew(m), ExecFinal(v.Px, v.Qty), o.EmptyInst == EmptyInstUseZeros, o.Interval);
      InsertValid(st, b, o.Interval);
    }
  }

  /** AddOHLCV keeps the store invariant. */
  lemma AddOHLCVStoreValid(st: Store, v: OHLCV, o: SeriesOpts)
    requires o.Interval > 0 && ValidStore(st, o.Interval)
    ensures ValidStore(AddOHLCVStore(st, v, o), o.Interval)
  {
    var b := Restamp(v, o.Interval);
    AlignIdempotent(v.S, o.Interval);
    if st.last.None? {
      InsertValid(st, b, o.Interval);
      DetachValid(Insert(st, b, o.Interval), b, o.Interval);
    } else if st.last.value.S == b.S {
      RewriteValid(st, b, o.Interval);
      DetachValid(Rewrite(st, b), b, o.Interval);
    } else if b.S - st.last.value.S > 0 {
      var m := MultiplierDiff(b.S, st.last.value.S, o.Interval);
      var g := GapFrom(st, 0, m, UseNew(m), BarFinal(b), o.EmptyInst == EmptyInstUseZeros, o.Interval);
      GapFromValid(st, 0, m, UseNew(m), BarFinal(b), o.EmptyInst == EmptyInstUseZeros, o.Interval);
      DetachValid(g, b, o.Interval);
      InsertValid(st, b, o.Interval);
      DetachValid(Insert(st, b, o.Interval), b, o.Interval);
    } else {
      DetachValid(st, b, o.Interval);
    }
  }

  lemma AddExecKeepsValid(st: Store, v: TPQ, o: SeriesOpts)
    requires o.Interval > 0
    ensures ValidStore(st, o.Interval) ==> ValidStore(AddExecStore(st, v, o), o.Interval)
  {
    if ValidStore(st, o.Interval) {
      AddExecStoreValid(st, v, o);
    }
  }

  lemma AddOHLCVKeepsValid(st: Store, v: OHLCV, o: SeriesOpts)
    requires o.Interval > 0
    ensures ValidStore(st, o.Interval) ==> ValidStore(AddOHLCVStore(st, v, o), o.Interval)
  {
    if ValidStore(st, o.Interval) {
      AddOHLCVStoreValid(st, v, o);
    }
  }

  /** The first execution opens a bar at its interval start with all four
      prices equal to its price and its quantity as volume. */
  lemma AddExecFirst(st: Store, v: TPQ, o: SeriesOpts)
    requires o.Interval > 0 && ValidStore(st, o.Interval) && st.last.None?
    ensures var start := LastIntervalFromTime(v.Timestamp, o.Interval);
      var b := OHLCV(v.Px, v.Px, v.Px, v.Px, v.Qty, start);
      var r := AddExecStore(st, v, o);
      && r.values == [b] && r.bars == map[start := b] && r.last == Some(b) && r.attached
      && AddExecFeed(st, v, o) == [b]
  {
    AlignIdempotent(v.Timestamp, o.Interval);
  }

  /** An execution in the last bar's interval merges into the bar `lastOHLC`
      points to; the stored bar sees the merge only while `lastOHLC` is
      attached to it, and `values` keeps its old copy. */
  lemma AddExecSame(st: Store, v: TPQ, o: SeriesOpts)
    requires o.Interval > 0 && ValidStore(st, o.Interval) && st.last.Some?
    requires st.last.value.S == LastIntervalFromTime(v.Timestamp, o.Interval)
    ensures var b := MergeExec(st.last.value, v);
      var r := AddExecStore(st, v, o);
      && r.values == st.values && r.last == Some(b) && r.attached == st.attached
      && r.bars == (if st.attached then st.bars[b.S := b] else st.bars)
      && AddExecFeed(st, v, o) == [b]
  {
  }

  /** An execution whose interval precedes the last bar's changes no bar. */
  lemma AddExecEarlier(st: Store, v: TPQ, o: SeriesOpts)
    requires o.Interval > 0 && st.last.Some?
    requires LastIntervalFromTime(v.Timestamp, o.Interval) < st.last.value.S
    ensures AddExecStore(st, v, o) == st && AddExecFeed(st, v, o) == []
    ensures !PolicyError(st, v.Timestamp, o)
  {
  }

  /** Under UseLastClose or UseZeros, an execution `m >= 1` intervals after
      the last bar appends exactly the `m` reference bars: fillers at the last
      close (or zero) and then a bar carrying the execution. */
  lemma AddExecGap(st: Store, v: TPQ, o: SeriesOpts)
    requires o.Interval > 0 && SecondsPerDay % o.Interval == 0
    requires o.EmptyInst == EmptyInstUseLastClose || o.EmptyInst == EmptyInstUseZeros
    requires ValidStore(st, o.Interval) && st.last.Some? && Latest(st)
    requires LastIntervalFromTime(v.Timestamp, o.Interval) > st.last.value.S
    ensures var start := LastIntervalFromTime(v.Timestamp, o.Interval);
      var m := (start - st.last.value.S) / o.Interval;
      && m >= 1 && start == st.last.value.S + m * o.Interval
      && var e := GapExpected(st.last.value, m, ExecFinal(v.Px, v.Qty), o.EmptyInst == EmptyInstUseZeros, o.Interval);
      var r := AddExecStore(st, v, o);
      && |e| == m && e[m - 1] == OHLCV(v.Px, v.Px, v.Px, v.Px, v.Qty, start)
      && r.values == st.values + e
      && (forall j | 0 <= j < m :: e[j].S in r.bars && r.bars[e[j].S] == e[j])
      && (forall k | k in st.bars :: k in r.bars && r.bars[k] == st.bars[k])
      && r.last == Some(e[m - 1]) && r.attached
      && AddExecFeed(st, v, o) == e
  {
    var start := LastIntervalFromTime(v.Timestamp, o.Interval);
    var last := st.last.value.S;
    GapCount(v.Timestamp, last, o.Interval);
    var m := MultiplierDiff(v.Timestamp, last, o.Interval);
    DivMultipleOffset(m, o.Interval, last, start);
    var zeros := o.EmptyInst == EmptyInstUseZeros;
    assert UseNew(m) == m - 1;
    AddExecIsGap(st, v, o);
    GapFillExact(st, m, ExecFinal(v.Px, v.Qty), zeros, o.Interval);
    GapExpectedAt(st.last.value, m, ExecFinal(v.Px, v.Qty), zeros, o.Interval, m - 1);
  }

  /** AddExec's gap branch is the gap loop. */
  lemma AddExecIsGap(st: Store, v: TPQ, o: SeriesOpts)
    requires o.Interval > 0 && st.last.Some?
    requires o.EmptyInst == EmptyInstUseLastClose || o.EmptyInst == EmptyInstUseZeros
    requires LastIntervalFromTime(v.Timestamp, o.Interval) > st.last.value.S
    ensures var m := MultiplierDiff(v.Timestamp, st.last.value.S, o.Interval);
      var zeros := o.EmptyInst == EmptyInstUseZeros;
      && AddExecStore(st, v, o) == GapFrom(st, 0, m, UseNew(m), ExecFinal(v.Px, v.Qty), zeros, o.Interval)
      && AddExecFeed(st, v, o) == GapFeed(st, 0, m, UseNew(m), ExecFinal(v.Px, v.Qty), zeros, o.Interval)
  {
  }

  lemma DivMultipleOffset(m: int, n: int, a: int, b: int)
    requires n > 0 && b == a + m * n
    ensures (b - a) / n == m
  {
    DivMultiple(m, n);
  }

  /** Under Ignore a later execution adds exactly one bar, at its interval
      start, however many intervals were skipped, and hands that bar to the
      indicators. When `lastOHLC` lags behind a bar already stored at that
      start, the bar is still handed over but nothing is stored or merged;
      a latest last bar rules that case out. */
  lemma AddExecIgnore(st: Store, v: TPQ, o: SeriesOpts)
    requires o.Interval > 0 && o.EmptyInst == EmptyInstIgnore
    requires ValidStore(st, o.Interval) && st.last.Some?
    requires LastIntervalFromTime(v.Timestamp, o.Interval) > st.last.value.S
    ensures var start := LastIntervalFromTime(v.Timestamp, o.Interval);
      var b := OHLCV(v.Px, v.Px, v.Px, v.Px, v.Qty, start);
      var r := AddExecStore(st, v, o);
      && (start !in st.bars ==>
            r.values == st.values + [b] && r.bars == st.bars[start := b]
            && r.last == Some(b) && r.attached)
      && (start in st.bars ==> r == st)
      && (Latest(st) ==> start !in st.bars)
      && AddExecFeed(st, v, o) == [b]
  {
    AlignIdempotent(v.Timestamp, o.Interval);
  }

  /** A known policy never makes AddExec fail on the bar side. */
  lemma PolicyErrorIff(st: Store, t: int, o: SeriesOpts)
    requires o.Interval > 0 && st.last.Some?
    requires LastIntervalFromTime(t, o.Interval) > st.last.value.S
    ensures PolicyError(st, t, o) <==> o.EmptyInst !in {EmptyInstUseLastClose, EmptyInstIgnore, EmptyInstUseZeros}
  {
  }

  /** A bar for the last bar's interval replaces all five fields of the bar
      `lastOHLC` points to (no merging) and then detaches `lastOHLC` onto a
      fresh copy; `values` keeps its old copy. */
  lemma AddOHLCVSame(st: Store, v: OHLCV, o: SeriesOpts)
    requires o.Interval > 0 && ValidStore(st, o.Interval) && st.last.Some?
    requires st.last.value.S == LastIntervalFromTime(v.S, o.Interval)
    ensures var b := Restamp(v, o.Interval);
      var r := AddOHLCVStore(st, v, o);
      && b.O == v.O && b.H == v.H && b.L == v.L && b.C == v.C && b.V == v.V
      && r.values == st.values && r.last == Some(b) && !r.attached
      && r.bars == (if st.attached then st.bars[b.S := b] else st.bars)
  {
  }

  /** The fresh copy `lastOHLC` points to after AddOHLCV is shared with no
      stored bar: a second bar for the same interval replaces only that copy,
      so the stored bar keeps the first replacement. */
  lemma AddOHLCVReplaceTwice(st: Store, v1: OHLCV, v2: OHLCV, o: SeriesOpts)
    requires o.Interval > 0 && ValidStore(st, o.Interval) && st.last.Some? && st.attached
    requires st.last.value.S == LastIntervalFromTime(v1.S, o.Interval)
    requires LastIntervalFromTime(v2.S, o.Interval) == LastIntervalFromTime(v1.S, o.Interval)
    ensures var start := st.last.value.S;
      var r := AddOHLCVStore(AddOHLCVStore(st, v1, o), v2, o);
      && r.bars[start] == Restamp(v1, o.Interval)
      && r.last == Some(Restamp(v2, o.Interval))
  {
  }

  /** Likewise an execution after AddOHLCV in the same interval merges into the
      detached copy and leaves every stored bar as it was. */
  lemma AddExecAfterOHLCV(st: Store, v: OHLCV, e: TPQ, o: SeriesOpts)
    requires o.Interval > 0 && ValidStore(st, o.Interval)
    requires st.last.None? || LastIntervalFromTime(v.S, o.Interval) - st.last.value.S >= 0
    requires !PolicyError(st, v.S, o)
    requires LastIntervalFromTime(e.Timestamp, o.Interval) == LastIntervalFromTime(v.S, o.Interval)
    ensures var s1 := AddOHLCVStore(st, v, o);
      && s1.last == Some(Restamp(v, o.Interval)) && !s1.attached
      && AddExecStore(s1, e, o).bars == s1.bars
      && AddExecStore(s1, e, o).last == Some(MergeExec(Restamp(v, o.Interval), e))
  {
    AlignIdempotent(v.S, o.Interval);
  }

  /** A bar for an earlier interval stores nothing, yet `lastOHLC` is left
      pointing at a copy of it, stamped before the latest stored bar. */
  lemma AddOHLCVEarlier(st: Store, v: OHLCV, o: SeriesOpts)
    requires o.Interval > 0 && st.last.Some?
    requires LastIntervalFromTime(v.S, o.Interval) < st.last.value.S
    ensures var r := AddOHLCVStore(st, v, o);
      && r.values == st.values && r.bars == st.bars
      && r.last == Some(Restamp(v, o.Interval)) && !r.attached
  {
  }

  /** Under UseLastClose or UseZeros, a bar `m >= 1` intervals later appends
      `m - 1` fillers built from the last close (or zero) and then the incoming
      bar itself, re-stamped. */
  lemma AddOHLCVGap(st: Store, v: OHLCV, o: SeriesOpts)
    requires o.Interval > 0 && SecondsPerDay % o.Interval == 0
    requires o.EmptyInst == EmptyInstUseLastClose || o.EmptyInst == EmptyInstUseZeros
    requires ValidStore(st, o.Interval) && st.last.Some? && Latest(st)
    requires LastIntervalFromTime(v.S, o.Interval) > st.last.value.S
    ensures var b := Restamp(v, o.Interval);
      var m := (b.S - st.last.value.S) / o.Interval;
      && m >= 1 && b.S == st.last.value.S + m * o.Interval
      && var e := GapExpected(st.last.value, m, BarFinal(b), o.EmptyInst == EmptyInstUseZeros, o.Interval);
      var r := AddOHLCVStore(st, v, o);
      && |e| == m && e[m - 1] == b
      && r.values == st.values + e
      && (forall j | 0 <= j < m :: e[j].S in r.bars && r.bars[e[j].S] == e[j])
      && (forall k | k in st.bars :: k in r.bars && r.bars[k] == st.bars[k])
      && r.last == Some(b) && !r.attached
  {
    var b := Restamp(v, o.Interval);
    var last := st.last.value.S;
    GapCount(v.S, last, o.Interval);
    var m := MultiplierDiff(b.S, last, o.Interval);
    DivMultipleOffset(m, o.Interval, last, b.S);
    var zeros := o.EmptyInst == EmptyInstUseZeros;
    assert UseNew(m) == m - 1;
    assert AddOHLCVStore(st, v, o) == Detach(GapFrom(st, 0, m, m - 1, BarFinal(b), zeros, o.Interval), b);
    GapFillExact(st, m, BarFinal(b), zeros, o.Interval);
    GapExpectedAt(st.last.value, m, BarFinal(b), zeros, o.Interval, m - 1);
  }

  /** Under UseLastClose or UseZeros, a bar exactly one interval after the
      last bar fills nothing: it is stored as it is, re-stamped, at its start
      (unless `lastOHLC` lags behind a bar already stored there), and
      `lastOHLC` detaches onto it. */
  lemma AddOHLCVNext(st: Store, v: OHLCV, o: SeriesOpts)
    requires o.Interval > 0 && st.last.Some?
    requires o.EmptyInst == EmptyInstUseLastClose || o.EmptyInst == EmptyInstUseZeros
    requires LastIntervalFromTime(v.S, o.Interval) == st.last.value.S + o.Interval
    ensures var b := Restamp(v, o.Interval);
      var r := AddOHLCVStore(st, v, o);
      && r.bars == (if b.S in st.bars then st.bars else st.bars[b.S := b])
      && r.last == Some(b) && !r.attached
      && !PolicyError(st, v.S, o)
  {
    var b := Restamp(v, o.Interval);
    var zeros := o.EmptyInst == EmptyInstUseZeros;
    DivMultipleOffset(1, o.Interval, st.last.value.S, b.S);
    assert MultiplierDiff(b.S, st.last.value.S, o.Interval) == 1;
    assert GapBar(st, 0, UseNew(1), BarFinal(b), zeros, o.Interval) == b;
    assert AddOHLCVStore(st, v, o) == Detach(GapFrom(st, 0, 1, UseNew(1), BarFinal(b), zeros, o.Interval), b);
    AlignIdempotent(v.S, o.Interval);
    assert Restamp(b, o.Interval) == b;
    var s1 := Insert(st, b, o.Interval);
    assert GapFrom(st, 0, 1, UseNew(1), BarFinal(b), zeros, o.Interval) == GapFrom(s1, 1, 1, UseNew(1), BarFinal(b), zeros, o.Interval);
  }

  /** Under Ignore a later bar is stored as it is, re-stamped, at its start,
      and `lastOHLC` detaches onto it. When `lastOHLC` lags behind a bar
      already stored at that start, only the detaching happens; a latest last
      bar rules that case out. */
  lemma AddOHLCVIgnore(st: Store, v: OHLCV, o: SeriesOpts)
    requires o.Interval > 0 && o.EmptyInst == EmptyInstIgnore
    requires ValidStore(st, o.Interval) && st.last.Some?
    requires LastIntervalFromTime(v.S, o.Interval) > st.last.value.S
    ensures var b := Restamp(v, o.Interval);
      var r := AddOHLCVStore(st, v, o);
      && (b.S !in st.bars ==>
            r.values == st.values + [b] && r.bars == st.bars[b.S := b]
            && r.last == Some(b) && !r.attached)
      && (b.S in st.bars ==> r == Detach(st, b))
      && (Latest(st) ==> b.S !in st.bars)
  {
    AlignIdempotent(v.S, o.Interval);
  }

  /** Bar `i` is the first of `bars` with its aligned start. */
  ghost predicate IsFirst(bars: seq<OHLCV>, i: int, interval: int)
    requires interval > 0 && 0 <= i < |bars|
  {
    forall j | 0 <= j < i :: LastIntervalFromTime(bars[j].S, interval) != LastIntervalFromTime(bars[i].S, interval)
  }

  /** The reference for construction: the first bar of each aligned start,
      re-stamped, in input order. */
  ghost function FirstOccurrences(bars: seq<OHLCV>, interval: int): seq<OHLCV>
    requires interval > 0
    decreases |bars|
  {
    if bars == [] then []
    else
      FirstOccurrences(bars[..|bars| - 1], interval) +
      (if IsFirst(bars, |bars| - 1, interval) then [Restamp(bars[|bars| - 1], interval)] else [])
  }

  ghost function AlignedStarts(bars: seq<OHLCV>, interval: int): set<int>
    requires interval > 0
  {
    set i | 0 <= i < |bars| :: LastIntervalFromTime(bars[i].S, interval)
  }

  lemma AlignedStartsSnoc(bars: seq<OHLCV>, interval: int)
    requires interval > 0 && bars != []
    ensures var n := |bars| - 1;
      AlignedStarts(bars, interval) ==
        AlignedStarts(bars[..n], interval) + {LastIntervalFromTime(bars[n].S, interval)}
  {
    var n := |bars| - 1;
    var pre := bars[..n];
    forall k | k in AlignedStarts(bars, interval)
      ensures k in AlignedStarts(pre, interval) + {LastIntervalFromTime(bars[n].S, interval)}
    {
      var i :| 0 <= i < |bars| && k == LastIntervalFromTime(bars[i].S, interval);
      if i < n { assert pre[i] == bars[i]; }
    }
    forall k | k in AlignedStarts(pre, interval)
      ensures k in AlignedStarts(bars, interval)
    {
      var i :| 0 <= i < |pre| && k == LastIntervalFromTime(pre[i].S, interval);
      assert pre[i] == bars[i];
    }
  }

  /** The last bar is a first occurrence exactly when no earlier bar shares its start. */
  lemma FirstIffFresh(bars: seq<OHLCV>, interval: int)
    requires interval > 0 && bars != []
    ensures var n := |bars| - 1;
      IsFirst(bars, n, interval) <==> LastIntervalFromTime(bars[n].S, interval) !in AlignedStarts(bars[..n], interval)
  {
    var n := |bars| - 1;
    var pre := bars[..n];
    var key := LastIntervalFromTime(bars[n].S, interval);
    if key in AlignedStarts(pre, interval) {
      var i :| 0 <= i < |pre| && key == LastIntervalFromTime(pre[i].S, interval);
      assert pre[i] == bars[i];
    } else {
      forall j | 0 <= j < n
        ensures LastIntervalFromTime(bars[j].S, interval) != key
      {
        assert pre[j] == bars[j];
      }
    }
  }

  lemma IsFirstPrefix(bars: seq<OHLCV>, i: int, n: int, interval: int)
    requires interval > 0 && 0 <= i < n <= |bars|
    ensures IsFirst(bars[..n], i, interval) <==> IsFirst(bars, i, interval)
  {
    assert forall j | 0 <= j <= i :: bars[..n][j] == bars[j];
  }

  /** Loading the initial bars keeps the store invariant, stores exactly the
      aligned starts of the input, and leaves every stored bar equal to its
      copy in `values`. */
  lemma {:induction false} InitStoreKeys(bars: seq<OHLCV>, interval: int)
    requires interval > 0
    ensures var r := InitStore(bars, interval);
      && ValidStore(r, interval)
      && r.bars.Keys == AlignedStarts(bars, interval)
      && (forall j | 0 <= j < |r.values| :: r.bars[r.values[j].S] == r.values[j])
      && (r.attached <==> bars != [])
    decreases |bars|
  {
    if bars != [] {
      var n := |bars| - 1;
      var pre := bars[..n];
      InitStoreKeys(pre, interval);
      var p := InitStore(pre, interval);
      InsertValid(p, bars[n], interval);
      InitStoreKeySet(bars, interval);
      InsertCopies(p, bars[n], interval);
    }
  }

  /** The keys stored by loading the initial bars are their aligned starts. */
  lemma {:induction false} InitStoreKeySet(bars: seq<OHLCV>, interval: int)
    requires interval > 0
    ensures InitStore(bars, interval).bars.Keys == AlignedStarts(bars, interval)
    decreases |bars|
  {
    if bars != [] {
      var n := |bars| - 1;
      InitStoreKeySet(bars[..n], interval);
      AlignedStartsSnoc(bars, interval);
    }
  }

  /** Insert keeps every stored bar equal to its copy in `values`. */
  lemma InsertCopies(p: Store, v: OHLCV, interval: int)
    requires interval > 0 && ValidStore(p, interval)
    requires forall j | 0 <= j < |p.values| :: p.bars[p.values[j].S] == p.values[j]
    ensures var r := Insert(p, v, interval);
      && r.bars.Keys == p.bars.Keys + {LastIntervalFromTime(v.S, interval)}
      && (forall j | 0 <= j < |r.values| :: r.bars[r.values[j].S] == r.values[j])
      && r.attached == (p.attached || LastIntervalFromTime(v.S, interval) !in p.bars)
  {
    var r := Insert(p, v, interval);
    var b := Restamp(v, interval);
    if b.S !in p.bars {
      forall j | 0 <= j < |r.values|
        ensures r.bars[r.values[j].S] == r.values[j]
      {
        if j < |p.values| {
          assert r.values[j] == p.values[j];
          assert p.values[j].S in p.bars;
        }
      }
    }
  }

  /** Loading the initial bars keeps, in input order, the first bar of every
      aligned start, re-stamped. */
  lemma {:induction false} InitStoreValues(bars: seq<OHLCV>, interval: int)
    requires interval > 0
    ensures InitStore(bars, interval).values == FirstOccurrences(bars, interval)
    decreases |bars|
  {
    if bars != [] {
      var n := |bars| - 1;
      InitStoreValues(bars[..n], interval);
      InitStoreKeys(bars[..n], interval);
      FirstIffFresh(bars, interval);
      AlignIdempotent(bars[n].S, interval);
    }
  }

  /** The bar stored under the start of a first occurrence is that bar. */
  lemma {:induction false} InitStoreFirst(bars: seq<OHLCV>, i: int, interval: int)
    requires interval > 0 && 0 <= i < |bars| && IsFirst(bars, i, interval)
    ensures var key := LastIntervalFromTime(bars[i].S, interval);
      key in InitStore(bars, interval).bars &&
      InitStore(bars, interval).bars[key] == Restamp(bars[i], interval)
    decreases |bars|
  {
    var n := |bars| - 1;
    var pre := bars[..n];
    InitStoreKeySet(pre, interval);
    AlignIdempotent(bars[i].S, interval);
    if i < n {
      IsFirstPrefix(bars, i, n, interval);
      assert pre[i] == bars[i];
      InitStoreFirst(pre, i, interval);
    } else {
      FirstIffFresh(bars, interval);
    }
  }
}
