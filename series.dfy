/** The aggregation engine: the `series` object and its methods, proved to
    change its state exactly as the functions of BarStore describe. */
module Engine {
  import opened Wrappers
  import opened Types
  import opened Align
  import opened Indicators
  import opened PreviousProps
  import opened BarStore
  import opened GapFill
  import opened Ingest
  import opened Recency

  /** A bar that the time map and `lastOHLC` point to and that is updated in place. */
  class Bar {
    var O: real
    var H: real
    var L: real
    var C: real
    var V: real
    var S: int

    constructor (b: OHLCV)
      ensures Snap() == b
    {
      O, H, L, C, V, S := b.O, b.H, b.L, b.C, b.V, b.S;
    }

    /** The field updates of updateLastOHLCV: close and volume always, then
        either the high or the low. */
    method Merge(v: TPQ)
      modifies this
      ensures Snap() == MergeExec(old(Snap()), v)
    {
      C := v.Px;
      V := V + v.Qty;
      if v.Px > H {
        H := v.Px;
      } else if v.Px < L {
        L := v.Px;
      }
    }

    /** The field updates of AddOHLCV on the current interval: every price
        and the volume, but not the start time. */
    method Assign(b: OHLCV)
      modifies this
      ensures Snap() == b.(S := old(S))
    {
      O, H, L, C, V := b.O, b.H, b.L, b.C, b.V;
    }

    /** The bar's current contents, as a value. */
    function Snap(): OHLCV
      reads this
    {
      OHLCV(O, H, L, C, V, S)
    }
  }

  class Series {
    var items: map<string, Indicator>
    var lastExec: TPQ
    var lastOHLC: Bar?
    const opts: SeriesOpts
    var values: seq<OHLCV>
    var timemap: map<int, Bar>
    /** The bar store these fields represent (see `Coupled`). */
    ghost var Contents: Store

    /** The fields hold `Contents`: `values` is its list of copies, the time
        map has its keys and each bar it points to holds the stored bar of its
        key, `lastOHLC` is nil exactly when there is no last bar and otherwise
        holds the last bar, which is attached exactly when `lastOHLC` is the
        bar the time map points to at its start. */
    ghost predicate Coupled()
      reads this`values, this`timemap, this`lastOHLC, this`Contents, timemap.Values, lastOHLC
    {
      && values == Contents.values
      && timemap.Keys == Contents.bars.Keys
      && (forall k | k in timemap :: timemap[k].Snap() == Contents.bars[k])
      && (lastOHLC == null <==> Contents.last.None?)
      && (lastOHLC != null ==> lastOHLC.Snap() == Contents.last.value)
      && (Contents.attached <==> lastOHLC != null && lastOHLC.S in timemap && timemap[lastOHLC.S] == lastOHLC)
    }

    ghost predicate Valid()
      reads this`values, this`timemap, this`lastOHLC, this`items, this`Contents, timemap.Values, lastOHLC
    {
      StoreValid() && AllConfigured(items)
    }

    ghost predicate StoreValid()
      reads this`values, this`timemap, this`lastOHLC, this`Contents, timemap.Values, lastOHLC
    {
      && opts.Interval > 0 && opts.Max > 0
      && Coupled()
      && Stamped(Contents)
      && (Contents.last.Some? ==> Aligned(Contents.last.value.S, opts.Interval))
      && (Contents.last.None? ==> Contents.bars == map[])
    }

    constructor (o: SeriesOpts)
      requires o.Interval > 0 && o.Max > 0
      ensures Valid() && opts == o && items == map[] && Contents == Empty
      ensures lastExec == TPQ(0, 0.0, 0.0)
    {
      items := map[];
      lastExec := TPQ(0, 0.0, 0.0);
      lastOHLC := null;
      opts := o;
      values := [];
      timemap := map[];
      Contents := Empty;
    }

    /** insertInterval. */
    method InsertInterval(v: OHLCV)
      requires Valid()
      modifies this`values, this`timemap, this`lastOHLC, this`Contents
      ensures Valid() && lastOHLC != null
      ensures Contents == Insert(old(Contents), v, opts.Interval)
      ensures lastOHLC == old(lastOHLC) || fresh(lastOHLC)
      ensures forall b | b in timemap.Values :: b in old(timemap.Values) || fresh(b)
    {
      ghost var st := Contents;
      var t := LastIntervalFromTime(v.S, opts.Interval);
      var b := v.(S := t);
      if t !in timemap {
        var p := new Bar(b);
        values := values + [b];
        timemap := timemap[t := p];
        lastOHLC := p;
        Contents := Store(st.values + [b], st.bars[t := b], Some(b), true);
        forall k | k in timemap
          ensures timemap[k].Snap() == Contents.bars[k]
        {
          if k != t {
            assert timemap[k] == old(timemap[k]);
          }
        }
      }
      assert Contents == Insert(st, v, opts.Interval);
      AlignIdempotent(v.S, opts.Interval);
    }

    /** updateIndicators: every registered indicator, in an unspecified order,
        until the first one that fails. */
    method UpdateIndicators(v: OHLCV) returns (err: bool)
      requires Valid()
      modifies this`items
      ensures Valid() && Contents == old(Contents)
      ensures Fed(old(items), items, [v])
      ensures err <==> !AllAccept(old(items), [v])
    {
      var cur;
      cur, err := UpdateAll(items, v);
      SetItems(cur);
    }

    /** Replacing the indicator table leaves the bars alone. */
    method SetItems(m: map<string, Indicator>)
      requires Valid() && AllConfigured(m)
      modifies this`items
      ensures Valid() && Contents == old(Contents) && items == m
    {
      items := m;
    }

    /** createNewOHLCV: the first bar of the series. */
    method CreateNewOHLCV(v: TPQ, start: int) returns (err: bool)
      requires Valid()
      modifies this`values, this`timemap, this`lastOHLC, this`Contents, this`items
      ensures Valid()
      ensures Contents == Insert(old(Contents), NewOHLCVWithSamePx(v.Px, v.Qty, start), opts.Interval)
      ensures Fed(old(items), items, [NewOHLCVWithSamePx(v.Px, v.Qty, start)])
      ensures err <==> !AllAccept(old(items), [NewOHLCVWithSamePx(v.Px, v.Qty, start)])
      ensures lastOHLC == old(lastOHLC) || fresh(lastOHLC)
    {
      var ohlcv := NewOHLCVWithSamePx(v.Px, v.Qty, start);
      InsertInterval(ohlcv);
      err := UpdateIndicators(ohlcv);
    }

    /** updateLastOHLCV: merge an execution into the bar `lastOHLC` points to. */
    method UpdateLastOHLCV(v: TPQ) returns (err: bool)
      requires Valid() && lastOHLC != null
      modifies lastOHLC, this`items, this`Contents
      ensures Valid()
      ensures Contents == Rewrite(old(Contents), MergeExec(old(Contents).last.value, v))
      ensures Fed(old(items), items, [MergeExec(old(Contents).last.value, v)])
      ensures err <==> !AllAccept(old(items), [MergeExec(old(Contents).last.value, v)])
    {
      ghost var st := Contents;
      var itvl := lastOHLC;
      ghost var b := MergeExec(st.last.value, v);
      assert forall k | k in timemap :: timemap[k].S == st.bars[k].S == k;
      itvl.Merge(v);
      Contents := Rewrite(st, b);
      forall k | k in timemap
        ensures timemap[k].Snap() == Contents.bars[k]
      {
        if timemap[k] != itvl {
          assert timemap[k].Snap() == old(timemap[k].Snap());
        }
      }
      err := UpdateIndicators(itvl.Snap());
    }

    /** The gap loops of updateAndFillGaps and AddOHLCV: `m` times, build a bar
        one interval after the last one (the final bar at `usenew`, a filler
        otherwise) and insert it; with `push`, hand each bar to the indicators
        and ignore their errors. */
    method GapLoop(m: int, usenew: int, f: Final, zeros: bool, push: bool)
      requires Valid() && lastOHLC != null
      modifies this`values, this`timemap, this`lastOHLC, this`Contents, this`items
      ensures Valid() && lastOHLC != null
      ensures Contents == GapFrom(old(Contents), 0, m, usenew, f, zeros, opts.Interval)
      ensures push ==> Fed(old(items), items, GapFeed(old(Contents), 0, m, usenew, f, zeros, opts.Interval))
      ensures !push ==> items == old(items)
      ensures lastOHLC == old(lastOHLC) || fresh(lastOHLC)
    {
      ghost var st0 := Contents;
      ghost var items0 := items;
      ghost var fed: seq<OHLCV> := [];
      ghost var cur := st0;
      FedNil(items);
      GapProgressStart(st0, m, usenew, f, zeros, push, opts.Interval);
      var i := 0;
      while i < m
        invariant Valid() && lastOHLC != null && cur == Contents
        invariant GapProgress(st0, cur, fed, i, m, usenew, f, zeros, push, opts.Interval)
        invariant push ==> Fed(items0, items, fed)
        invariant !push ==> items == items0
        invariant lastOHLC == old(lastOHLC) || fresh(lastOHLC)
        decreases m - i
      {
        cur, fed := GapStep(i, m, usenew, f, zeros, push, st0, items0, cur, fed);
        i := i + 1;
      }
      GapProgressEnd(st0, cur, fed, i, m, usenew, f, zeros, push, opts.Interval);
    }

    /** One iteration of the gap loop: build bar `i` from the current last
        bar, insert it and, with `push`, hand it to the indicators. */
    method GapStep(i: int, m: int, usenew: int, f: Final, zeros: bool, push: bool,
                   ghost st0: Store, ghost items0: map<string, Indicator>, ghost cur: Store, ghost fed: seq<OHLCV>)
      returns (ghost cur': Store, ghost fed': seq<OHLCV>)
      requires Valid() && lastOHLC != null && cur == Contents && i < m
      requires GapProgress(st0, cur, fed, i, m, usenew, f, zeros, push, opts.Interval)
      requires push ==> Fed(items0, items, fed)
      requires !push ==> items == items0
      modifies this`values, this`timemap, this`lastOHLC, this`Contents, this`items
      ensures Valid() && lastOHLC != null && cur' == Contents
      ensures GapProgress(st0, cur', fed', i + 1, m, usenew, f, zeros, push, opts.Interval)
      ensures push ==> Fed(items0, items, fed')
      ensures !push ==> items == items0
      ensures lastOHLC == old(lastOHLC) || fresh(lastOHLC)
    {
      var newt := lastOHLC.S + opts.Interval;
      var ohlcv;
      if i == usenew {
        ohlcv := FinalBar(f, newt);
      } else {
        ohlcv := NewOHLCVWithSamePx(if zeros then 0.0 else lastOHLC.C, 0.0, newt);
      }
      assert ohlcv == GapBar(cur, i, usenew, f, zeros, opts.Interval);
      InsertInterval(ohlcv);
      GapProgressStep(st0, cur, fed, i, m, usenew, f, zeros, push, opts.Interval);
      cur' := Insert(cur, ohlcv, opts.Interval);
      fed' := if push then fed + [ohlcv] else fed;
      if push {
        PushIgnoringErrors(ohlcv, items0, fed);
      }
    }

    /** `s.updateIndicators(ohlcv)` in a gap loop, whose error is discarded:
        the bars handed over so far grow by one. */
    method PushIgnoringErrors(v: OHLCV, ghost items0: map<string, Indicator>, ghost fed: seq<OHLCV>)
      requires Valid() && Fed(items0, items, fed)
      modifies this`items
      ensures Valid() && Contents == old(Contents)
      ensures Fed(items0, items, fed + [v])
    {
      ghost var before := items;
      var ignored := UpdateIndicators(v);
      FedTrans(items0, before, items, fed, v);
    }

    /** `s.lastExec = v`. */
    method RecordExec(v: TPQ)
      requires Valid()
      modifies this`lastExec
      ensures Valid() && Contents == old(Contents) && lastExec == v
    {
      lastExec := v;
    }

    /** updateAndFillGaps: AddExec's branch for an execution whose interval
        `start` is later than the last bar's, under each empty-interval policy. */
    method UpdateAndFillGaps(v: TPQ, start: int) returns (err: bool)
      requires Valid() && lastOHLC != null
      requires start == LastIntervalFromTime(v.Timestamp, opts.Interval) && start - lastOHLC.S > 0
      modifies this`values, this`timemap, this`lastOHLC, this`Contents, this`items
      ensures Valid()
      ensures Contents == AddExecStore(old(Contents), v, opts)
      ensures Fed(old(items), items, AddExecFeed(old(Contents), v, opts))
      ensures err <==> PolicyError(old(Contents), v.Timestamp, opts)
      ensures lastOHLC == old(lastOHLC) || fresh(lastOHLC)
    {
      err := false;
      if opts.EmptyInst == EmptyInstUseLastClose || opts.EmptyInst == EmptyInstUseZeros {
        var m := MultiplierDiff(v.Timestamp, lastOHLC.S, opts.Interval);
        var usenew := UseNew(m);
        GapLoop(m, usenew, ExecFinal(v.Px, v.Qty), opts.EmptyInst == EmptyInstUseZeros, true);
      } else if opts.EmptyInst == EmptyInstIgnore {
        var b := NewOHLCVWithSamePx(v.Px, v.Qty, start);
        InsertInterval(b);
        var ignored := UpdateIndicators(b);
      } else {
        err := true;
        FedNil(items);
      }
    }

    /** AddExec: start a bar, merge into the current one, or fill the gap up
        to a later interval; an execution for an earlier interval is dropped.
        The last execution is recorded unless an error is returned. */
    method AddExec(v: TPQ) returns (err: bool)
      requires Valid()
      modifies this`values, this`timemap, this`lastOHLC, this`Contents, this`items, this`lastExec, lastOHLC
      ensures Valid()
      ensures Contents == AddExecStore(old(Contents), v, opts)
      ensures Fed(old(items), items, AddExecFeed(old(Contents), v, opts))
      ensures err <==> (PolicyError(old(Contents), v.Timestamp, opts)
        || (AddExecPropagates(old(Contents), v, opts) && !AllAccept(old(items), AddExecFeed(old(Contents), v, opts))))
      ensures lastExec == if err then old(lastExec) else v
      ensures ValidStore(old(Contents), opts.Interval) ==> ValidStore(Contents, opts.Interval)
      ensures Latest(old(Contents)) ==> Latest(Contents)
      ensures lastOHLC == old(lastOHLC) || fresh(lastOHLC)
    {
      ghost var st := Contents;
      ghost var feed := AddExecFeed(st, v, opts);
      var start := LastIntervalFromTime(v.Timestamp, opts.Interval);
      if lastOHLC == null {
        assert AddExecStore(st, v, opts) == Insert(st, NewOHLCVWithSamePx(v.Px, v.Qty, start), opts.Interval);
        assert feed == [NewOHLCVWithSamePx(v.Px, v.Qty, start)];
        assert AddExecPropagates(st, v, opts) && !PolicyError(st, v.Timestamp, opts);
        err := CreateNewOHLCV(v, start);
      } else if lastOHLC.S == start {
        assert AddExecStore(st, v, opts) == Rewrite(st, MergeExec(st.last.value, v));
        assert feed == [MergeExec(st.last.value, v)];
        assert AddExecPropagates(st, v, opts) && !PolicyError(st, v.Timestamp, opts);
        err := UpdateLastOHLCV(v);
      } else if start - lastOHLC.S > 0 {
        err := UpdateAndFillGaps(v, start);
      } else {
        assert AddExecStore(st, v, opts) == st && feed == [];
        assert !AddExecPropagates(st, v, opts) && !PolicyError(st, v.Timestamp, opts);
        err := false;
        FedNil(items);
      }
      if !err {
        RecordExec(v);
      }
      AddExecKeepsValid(st, v, opts);
      if Latest(st) {
        AddExecLatest(st, v, opts);
      }
    }

    /** `itvl := s.lastOHLC` followed by AddOHLCV's writes through `itvl`. */
    method ReplaceLast(b: OHLCV)
      requires Valid() && lastOHLC != null && b.S == lastOHLC.S
      modifies lastOHLC, this`Contents
      ensures Valid()
      ensures Contents == Rewrite(old(Contents), b)
    {
      ghost var st := Contents;
      var itvl := lastOHLC;
      assert forall k | k in timemap :: timemap[k].S == st.bars[k].S == k;
      itvl.Assign(b);
      Contents := Rewrite(st, b);
      forall k | k in timemap
        ensures timemap[k].Snap() == Contents.bars[k]
      {
        if timemap[k] != itvl {
          assert timemap[k].Snap() == old(timemap[k].Snap());
        }
      }
    }

    /** `s.lastOHLC = &v`: the last bar becomes a copy no stored bar shares. */
    method PointLastAt(b: OHLCV)
      requires Valid() && lastOHLC != null && Aligned(b.S, opts.Interval)
      modifies this`lastOHLC, this`Contents
      ensures Valid() && lastOHLC != null && fresh(lastOHLC)
      ensures Contents == Detach(old(Contents), b)
    {
      ghost var st := Contents;
      lastOHLC := new Bar(b);
      Contents := Detach(st, b);
    }

    /** AddOHLCV: store a whole bar at the start of its interval; replace the
        current bar in place, fill a gap up to a later interval (without
        updating any indicator), or ignore an earlier one; in every case
        except the unknown-policy error, `lastOHLC` then points to a private
        copy of the incoming bar. */
    method AddOHLCV(v: OHLCV) returns (err: bool)
      requires Valid()
      modifies this`values, this`timemap, this`lastOHLC, this`Contents, this`items, lastOHLC
      ensures Valid() && items == old(items)
      ensures Contents == AddOHLCVStore(old(Contents), v, opts)
      ensures err <==> PolicyError(old(Contents), v.S, opts)
      ensures ValidStore(old(Contents), opts.Interval) ==> ValidStore(Contents, opts.Interval)
      ensures Latest(old(Contents)) && (old(Contents).last.None? || LastIntervalFromTime(v.S, opts.Interval) >= old(Contents).last.value.S)
        ==> Latest(Contents)
      ensures lastOHLC == old(lastOHLC) || fresh(lastOHLC)
    {
      ghost var st := Contents;
      var start := LastIntervalFromTime(v.S, opts.Interval);
      var b := v.(S := start);
      AlignIdempotent(v.S, opts.Interval);
      assert Aligned(b.S, opts.Interval);
      if lastOHLC == null {
        InsertInterval(b);
      } else if lastOHLC.S == start {
        ReplaceLast(b);
      } else if start - lastOHLC.S > 0 {
        if opts.EmptyInst == EmptyInstUseLastClose || opts.EmptyInst == EmptyInstUseZeros {
          var m := MultiplierDiff(start, lastOHLC.S, opts.Interval);
          var usenew := UseNew(m);
          GapLoop(m, usenew, BarFinal(b), opts.EmptyInst == EmptyInstUseZeros, false);
        } else if opts.EmptyInst == EmptyInstIgnore {
          InsertInterval(b);
        } else {
          AddOHLCVKeepsValid(st, v, opts);
          return true;
        }
      }
      assert lastOHLC != null;
      PointLastAt(b);
      err := false;
      AddOHLCVKeepsValid(st, v, opts);
      if Latest(st) {
        AddOHLCVLatest(st, v, opts);
      }
    }

    /** initValues: insert the initial bars in order into an empty series. */
    method InitValues(bars: seq<OHLCV>)
      requires Valid() && Contents == Empty
      modifies this`values, this`timemap, this`lastOHLC, this`Contents
      ensures Valid()
      ensures Contents == InitStore(bars, opts.Interval)
      ensures lastOHLC == null || fresh(lastOHLC)
      ensures forall b | b in timemap.Values :: fresh(b)
    {
      var i := 0;
      while i < |bars|
        invariant 0 <= i <= |bars|
        invariant Valid() && Contents == InitStore(bars[..i], opts.Interval)
        invariant lastOHLC == null || fresh(lastOHLC)
        invariant forall b | b in timemap.Values :: fresh(b)
      {
        assert bars[..i + 1][..i] == bars[..i];
        InsertInterval(bars[i]);
        i := i + 1;
      }
      assert bars[..i] == bars;
    }

    /** AddIndicator: configure the indicator with the series options, replay
        every stored copy into it, and register it under `name` (replacing
        any indicator of that name) only if all of that succeeded. */
    method AddIndicator(name: string, i: Indicator) returns (err: bool)
      requires Valid()
      modifies this`items
      ensures Valid() && Contents == old(Contents)
      ensures err <==> (ApplyOpts(i, opts).Err? || FeedAll(ApplyOpts(i, opts).value, values).Err?)
      ensures err ==> items == old(items)
      ensures !err ==> items == old(items)[name := FeedAll(ApplyOpts(i, opts).value, values).value]
    {
      var r := ApplyOpts(i, opts);
      if r.Err? {
        return true;
      }
      ApplyOptsConfigures(i, opts);
      var fed := FeedValues(r.value, values);
      if fed.Err? {
        return true;
      }
      FeedAllKeepsConfigured(r.value, values);
      items := items[name := fed.value];
      err := false;
    }

    /** GetValueForInterval: the stored bar of the interval containing `t`,
        with the value every registered indicator has at that interval; none
        before the first bar or for an interval without a stored bar. */
    method GetValueForInterval(t: int) returns (r: Option<Interval>)
      requires Valid()
      ensures var a := LastIntervalFromTime(t, opts.Interval);
        && (r.None? <==> lastOHLC == null || a !in Contents.bars)
        && (r.Some? ==>
              && r.value.StartTime == a
              && r.value.OHLCV == Some(Contents.bars[a])
              && r.value.Value == 0.0
              && (forall k :: k in r.value.Indicators <==> k in items && ValueAt(items[k], a).Some?)
              && (forall k | k in r.value.Indicators :: r.value.Indicators[k] == ValueAt(items[k], a).value.Value))
    {
      if lastOHLC == null {
        return None;
      }
      var q := t;
      if lastOHLC.S != t {
        q := LastIntervalFromTime(t, opts.Interval);
      }
      assert q == LastIntervalFromTime(t, opts.Interval);
      var inds := QueryAll(items, q);
      if q !in timemap {
        return None;
      }
      var v := timemap[q];
      r := Some(Interval(v.S, Some(v.Snap()), 0.0, inds));
    }
  }

  /** NewSeries: reject a non-positive interval or maximum, otherwise a
      series holding the initial bars and no indicator. */
  method NewSeries(ohlcv: seq<OHLCV>, o: SeriesOpts) returns (r: Result<Series>)
    ensures r.Err? <==> o.Interval <= 0 || o.Max <= 0
    ensures r.Ok? ==> var s := r.value;
      && fresh(s) && s.Valid() && s.opts == o && s.items == map[]
      && s.lastExec == TPQ(0, 0.0, 0.0)
      && (s.lastOHLC == null || fresh(s.lastOHLC))
      && (forall b | b in s.timemap.Values :: fresh(b))
      && s.Contents == InitStore(ohlcv, o.Interval)
      && ValidStore(s.Contents, o.Interval)
      && (StartsInOrder(ohlcv, o.Interval) ==> Latest(s.Contents))
  {
    if o.Interval <= 0 || o.Max <= 0 {
      return Err;
    }
    var s := new Series(o);
    s.InitValues(ohlcv);
    InitStoreKeys(ohlcv, o.Interval);
    if StartsInOrder(ohlcv, o.Interval) {
      InitStoreLatest(ohlcv, o.Interval);
    }
    return Ok(s);
  }

  /** The replay loop of AddIndicator. */
  method FeedValues(ind: Indicator, bars: seq<OHLCV>) returns (r: Result<Indicator>)
    ensures r == FeedAll(ind, bars)
  {
    var cur := ind;
    var j := 0;
    while j < |bars|
      invariant 0 <= j <= |bars|
      invariant FeedAll(ind, bars[..j]) == Ok(cur)
    {
      FeedAllSnoc(ind, bars[..j], bars[j]);
      assert bars[..j + 1] == bars[..j] + [bars[j]];
      var u := Update(cur, bars[j]);
      if u.Err? {
        FeedAllPrefixErr(ind, bars, j + 1);
        return Err;
      }
      cur := u.value;
      j := j + 1;
    }
    assert bars[..j] == bars;
    r := Ok(cur);
  }

  /** The query loop of GetValueForInterval over the indicator table. */
  method QueryAll(items: map<string, Indicator>, t: int) returns (inds: map<string, real>)
    requires AllConfigured(items)
    ensures forall k :: k in inds <==> k in items && ValueAt(items[k], t).Some?
    ensures forall k | k in inds :: inds[k] == ValueAt(items[k], t).value.Value
  {
    inds := map[];
    var todo := items.Keys;
    while todo != {}
      invariant todo <= items.Keys
      invariant forall k :: k in inds <==> k in items && k !in todo && ValueAt(items[k], t).Some?
      invariant forall k | k in inds :: inds[k] == ValueAt(items[k], t).value.Value
      decreases todo
    {
      var k :| k in todo;
      var val := ValueAt(items[k], t);
      if val.Some? {
        inds := inds[k := val.value.Value];
      }
      todo := todo - {k};
    }
  }

  /** The loop of updateIndicators over the indicator table. */
  method UpdateAll(items: map<string, Indicator>, v: OHLCV) returns (cur: map<string, Indicator>, err: bool)
    requires AllConfigured(items)
    ensures AllConfigured(cur)
    ensures Fed(items, cur, [v])
    ensures err <==> !AllAccept(items, [v])
  {
    cur := items;
    var todo := items.Keys;
    forall k | k in items
      ensures FeedAll(items[k], [v]) == Update(items[k], v)
    {
      FeedAllOne(items[k], v);
    }
    while todo != {}
      invariant todo <= cur.Keys && cur.Keys == items.Keys
      invariant AllConfigured(cur)
      invariant forall k | k in cur && k !in todo ::
        Update(items[k], v).Ok? && cur[k] == Update(items[k], v).value
      invariant forall k | k in todo :: cur[k] == items[k]
      decreases todo
    {
      var k :| k in todo;
      var r := Update(cur[k], v);
      if r.Err? {
        StepAll(items, cur, v);
        return cur, true;
      }
      UpdateKeepsConfigured(cur[k], v);
      cur := cur[k := r.value];
      todo := todo - {k};
    }
    StepAll(items, cur, v);
    err := false;
  }

  /** The gap loop's invariant after `i` iterations from `st0`: what is
      left to store and to hand over completes what the loop promises. */
  ghost predicate GapProgress(st0: Store, cur: Store, fed: seq<OHLCV>, i: int, m: int, usenew: int,
                              f: Final, zeros: bool, push: bool, interval: int)
    requires interval > 0
  {
    && cur.last.Some? && st0.last.Some?
    && GapFrom(cur, i, m, usenew, f, zeros, interval) == GapFrom(st0, 0, m, usenew, f, zeros, interval)
    && (push ==> fed + GapFeed(cur, i, m, usenew, f, zeros, interval) == GapFeed(st0, 0, m, usenew, f, zeros, interval))
  }

  lemma GapProgressStart(st0: Store, m: int, usenew: int, f: Final, zeros: bool, push: bool, interval: int)
    requires interval > 0 && st0.last.Some?
    ensures GapProgress(st0, st0, [], 0, m, usenew, f, zeros, push, interval)
  {
    assert [] + GapFeed(st0, 0, m, usenew, f, zeros, interval) == GapFeed(st0, 0, m, usenew, f, zeros, interval);
  }

  lemma GapProgressStep(st0: Store, cur: Store, fed: seq<OHLCV>, i: int, m: int, usenew: int,
                        f: Final, zeros: bool, push: bool, interval: int)
    requires interval > 0 && i < m && GapProgress(st0, cur, fed, i, m, usenew, f, zeros, push, interval)
    ensures var b := GapBar(cur, i, usenew, f, zeros, interval);
      GapProgress(st0, Insert(cur, b, interval), if push then fed + [b] else fed, i + 1, m, usenew, f, zeros, push, interval)
  {
    var b := GapBar(cur, i, usenew, f, zeros, interval);
    var rest := GapFeed(Insert(cur, b, interval), i + 1, m, usenew, f, zeros, interval);
    assert GapFeed(cur, i, m, usenew, f, zeros, interval) == [b] + rest;
    assert fed + ([b] + rest) == (fed + [b]) + rest;
  }

  lemma GapProgressEnd(st0: Store, cur: Store, fed: seq<OHLCV>, i: int, m: int, usenew: int,
                       f: Final, zeros: bool, push: bool, interval: int)
    requires interval > 0 && i >= m && GapProgress(st0, cur, fed, i, m, usenew, f, zeros, push, interval)
    ensures cur == GapFrom(st0, 0, m, usenew, f, zeros, interval)
    ensures push ==> fed == GapFeed(st0, 0, m, usenew, f, zeros, interval)
  {
    assert fed + [] == fed;
  }

  ghost predicate AllConfigured(items: map<string, Indicator>) {
    forall k | k in items :: Configured(items[k])
  }

  /** Each indicator unchanged or updated once is an indicator offered `[v]`. */
  lemma StepAll(before: map<string, Indicator>, after: map<string, Indicator>, v: OHLCV)
    requires after.Keys == before.Keys
    requires forall k | k in after :: after[k] == before[k] || Update(before[k], v) == Ok(after[k])
    requires forall k | k in before :: FeedAll(before[k], [v]) == Update(before[k], v)
    requires AllAccept(before, [v]) ==> forall k | k in after :: Update(before[k], v) == Ok(after[k])
    ensures Fed(before, after, [v])
  {
    forall k | k in after
      ensures FedBy(before[k], after[k], [v])
    {
      FedByNil(before[k]);
      FedBySnoc(before[k], before[k], after[k], [], v);
    }
  }
}
