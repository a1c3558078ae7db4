/** The bar store as a value, and the effect of each ingestion step on it.
    The `Series` class is proved to change its fields exactly as these
    functions say; the lemmas here state what the source promises about them. */
module BarStore {
  import opened Wrappers
  import opened Types
  import opened Align

  /** `values`: the copies appended at insertion, in order; `bars`: the current
      contents of the bars the time map points to; `last`: the current contents
      of the bar `lastOHLC` points to; `attached`: whether that bar is one of
      the stored ones (false once AddOHLCV has pointed it at a fresh copy). */
  datatype Store = Store(values: seq<OHLCV>, bars: map<int, OHLCV>, last: Option<OHLCV>, attached: bool)

  const Empty: Store := Store([], map[], None, false)

  /** One bar per aligned key, stamped with its key; one copy in `values` per
      key; `lastOHLC` is nil exactly when nothing is stored, and an attached
      last bar is the stored bar of its key. */
  ghost predicate ValidStore(st: Store, interval: int)
    requires interval > 0
  {
    && Stamped(st)
    && (forall k | k in st.bars :: Aligned(k, interval))
    && |st.values| == |st.bars|
    && (forall i | 0 <= i < |st.values| :: st.values[i].S in st.bars)
    && (forall i, j | 0 <= i < j < |st.values| :: st.values[i].S != st.values[j].S)
    && (st.last.None? <==> st.bars == map[])
    && (st.last.Some? ==> Aligned(st.last.value.S, interval))
    && (st.attached ==> st.last.Some? && st.last.value.S in st.bars && st.bars[st.last.value.S] == st.last.value)
  }

  /** Every stored bar carries the start of its own key. */
  ghost predicate Stamped(st: Store) {
    forall k | k in st.bars :: st.bars[k].S == k
  }

  /** The last bar is the latest: no stored key lies after its start. */
  ghost predicate Latest(st: Store) {
    st.last.Some? ==> forall k | k in st.bars :: k <= st.last.value.S
  }

  /** A bar re-stamped with the start of its interval. */
  function Restamp(v: OHLCV, interval: int): OHLCV
    requires interval > 0
  {
    v.(S := LastIntervalFromTime(v.S, interval))
  }

  /** insertInterval: store a re-stamped copy unless its key is taken. */
  function Insert(st: Store, v: OHLCV, interval: int): (r: Store)
    requires interval > 0
    ensures st.last.Some? ==> r.last.Some?
  {
    var b := Restamp(v, interval);
    if b.S in st.bars then st
    else Store(st.values + [b], st.bars[b.S := b], Some(b), true)
  }

  /** Writing the last bar through `lastOHLC`: the stored bar changes only
      when `lastOHLC` still points at it; `values` never changes. */
  function Rewrite(st: Store, b: OHLCV): Store
    requires st.last.Some?
  {
    Store(st.values, if st.attached then st.bars[st.last.value.S := b] else st.bars, Some(b), st.attached)
  }

  /** `s.lastOHLC = &v`: the last bar becomes a fresh copy no stored bar shares. */
  function Detach(st: Store, b: OHLCV): Store {
    Store(st.values, st.bars, Some(b), false)
  }

  /** updateLastOHLCV on the bar's fields. */
  function MergeExec(b: OHLCV, v: TPQ): OHLCV {
    var h := if v.Px > b.H then v.Px else b.H;
    var l := if v.Px > b.H then b.L else if v.Px < b.L then v.Px else b.L;
    OHLCV(b.O, h, l, v.Px, b.V + v.Qty, b.S)
  }

  lemma {:induction false} InsertValid(st: Store, v: OHLCV, interval: int)
    requires interval > 0 && ValidStore(st, interval)
    ensures ValidStore(Insert(st, v, interval), interval)
  {
    var b := Restamp(v, interval);
    AlignIdempotent(v.S, interval);
    if b.S !in st.bars {
      var r := Insert(st, v, interval);
      assert |r.bars| == |st.bars| + 1;
      forall i, j | 0 <= i < j < |r.values|
        ensures r.values[i].S != r.values[j].S
      {
        if j == |st.values| {
          assert st.values[i].S in st.bars;
        } else {
          assert r.values[i] == st.values[i] && r.values[j] == st.values[j];
        }
      }
    }
  }

  lemma {:induction false} RewriteValid(st: Store, b: OHLCV, interval: int)
    requires interval > 0 && ValidStore(st, interval) && st.last.Some?
    requires b.S == st.last.value.S
    ensures ValidStore(Rewrite(st, b), interval)
  {
    var r := Rewrite(st, b);
    assert r.bars.Keys == st.bars.Keys;
    forall i | 0 <= i < |r.values|
      ensures r.values[i].S in r.bars
    {
      assert st.values[i].S in st.bars;
    }
  }

  lemma {:induction false} DetachValid(st: Store, b: OHLCV, interval: int)
    requires interval > 0 && ValidStore(st, interval)
    requires st.bars != map[] && Aligned(b.S, interval)
    ensures ValidStore(Detach(st, b), interval)
  {
  }

  /** The execution is merged into the bar: open kept, close set, volume
      added, the high raised when the price is above it, and otherwise the
      low lowered when the price is below it. */
  lemma MergeExecFields(b: OHLCV, v: TPQ)
    ensures var r := MergeExec(b, v);
      && r.O == b.O && r.C == v.Px && r.V == b.V + v.Qty && r.S == b.S
      && (v.Px > b.H ==> r.H == v.Px && r.L == b.L)
      && (v.Px <= b.H ==> r.H == b.H && r.L == (if v.Px < b.L then v.Px else b.L))
  {
  }

  /** On a bar whose low does not exceed its high, the else-if loses nothing:
      high and low become the maximum and minimum with the price, and the
      merged bar is well formed again. */
  lemma MergeExecWellFormed(b: OHLCV, v: TPQ)
    requires WellFormed(b)
    ensures var r := MergeExec(b, v);
      && WellFormed(r)
      && r.H == (if v.Px > b.H then v.Px else b.H)
      && r.L == (if v.Px < b.L then v.Px else b.L)
  {
  }

  /** What the last bar of a gap is made of: the execution's price and
      quantity (AddExec) or the incoming bar itself (AddOHLCV). */
  datatype Final = ExecFinal(px: real, qty: real) | BarFinal(b: OHLCV)

  /** The last bar of a gap when it is built at `t`: a one-price bar for an
      execution, the incoming bar itself (keeping its own start) otherwise. */
  function FinalBar(f: Final, t: int): OHLCV {
    match f
    case ExecFinal(px, qty) => NewOHLCVWithSamePx(px, qty, t)
    case BarFinal(b) => b
  }

  /** `usenew := int(math.Max(float64(m-1), 0))`. */
  function UseNew(m: int): int {
    if m - 1 > 0 then m - 1 else 0
  }

  /** The bar built in iteration `i` of a gap loop: at the last bar's start
      plus one interval, the final bar when `i == usenew`, otherwise a filler
      priced at the last close (or zero) with no volume. */
  function GapBar(st: Store, i: int, usenew: int, f: Final, zeros: bool, interval: int): OHLCV
    requires st.last.Some?
  {
    var newt := st.last.value.S + interval;
    if i == usenew then FinalBar(f, newt)
    else NewOHLCVWithSamePx(if zeros then 0.0 else st.last.value.C, 0.0, newt)
  }

  /** Iterations `i` to `m - 1` of the gap loop (`for i < m`). */
  function GapFrom(st: Store, i: int, m: int, usenew: int, f: Final, zeros: bool, interval: int): (r: Store)
    requires st.last.Some? && interval > 0
    ensures r.last.Some?
    decreases m - i
  {
    if i >= m then st
    else GapFrom(Insert(st, GapBar(st, i, usenew, f, zeros, interval), interval), i + 1, m, usenew, f, zeros, interval)
  }

  /** The bars AddExec's gap loop hands to its indicators, in order. */
  function GapFeed(st: Store, i: int, m: int, usenew: int, f: Final, zeros: bool, interval: int): seq<OHLCV>
    requires st.last.Some? && interval > 0
    decreases m - i
  {
    if i >= m then []
    else
      var b := GapBar(st, i, usenew, f, zeros, interval);
      [b] + GapFeed(Insert(st, b, interval), i + 1, m, usenew, f, zeros, interval)
  }

  /** AddExec's effect on the bars. */
  function AddExecStore(st: Store, v: TPQ, o: SeriesOpts): Store
    requires o.Interval > 0
  {
    var start := LastIntervalFromTime(v.Timestamp, o.Interval);
    if st.last.None? then Insert(st, NewOHLCVWithSamePx(v.Px, v.Qty, start), o.Interval)
    else if st.last.value.S == start then Rewrite(st, MergeExec(st.last.value, v))
    else if start - st.last.value.S > 0 then
      if o.EmptyInst == EmptyInstUseLastClose || o.EmptyInst == EmptyInstUseZeros then
        var m := MultiplierDiff(v.Timestamp, st.last.value.S, o.Interval);
        GapFrom(st, 0, m, UseNew(m), ExecFinal(v.Px, v.Qty), o.EmptyInst == EmptyInstUseZeros, o.Interval)
      else if o.EmptyInst == EmptyInstIgnore then
        Insert(st, NewOHLCVWithSamePx(v.Px, v.Qty, start), o.Interval)
      else st
    else st
  }

  /** The bars AddExec hands to its indicators, in order. */
  function AddExecFeed(st: Store, v: TPQ, o: SeriesOpts): seq<OHLCV>
    requires o.Interval > 0
  {
    var start := LastIntervalFromTime(v.Timestamp, o.Interval);
    if st.last.None? then [NewOHLCVWithSamePx(v.Px, v.Qty, start)]
    else if st.last.value.S == start then [MergeExec(st.last.value, v)]
    else if start - st.last.value.S > 0 then
      if o.EmptyInst == EmptyInstUseLastClose || o.EmptyInst == EmptyInstUseZeros then
        var m := MultiplierDiff(v.Timestamp, st.last.value.S, o.Interval);
        GapFeed(st, 0, m, UseNew(m), ExecFinal(v.Px, v.Qty), o.EmptyInst == EmptyInstUseZeros, o.Interval)
      else if o.EmptyInst == EmptyInstIgnore then [NewOHLCVWithSamePx(v.Px, v.Qty, start)]
      else []
    else []
  }

  /** The first two branches of AddExec return the indicators' errors; the
      gap loop discards them. */
  predicate AddExecPropagates(st: Store, v: TPQ, o: SeriesOpts)
    requires o.Interval > 0
  {
    st.last.None? || st.last.value.S == LastIntervalFromTime(v.Timestamp, o.Interval)
  }

  /** A later interval under a policy other than the three known ones. */
  predicate PolicyError(st: Store, t: int, o: SeriesOpts)
    requires o.Interval > 0
  {
    && st.last.Some?
    && LastIntervalFromTime(t, o.Interval) - st.last.value.S > 0
    && o.EmptyInst != EmptyInstUseLastClose
    && o.EmptyInst != EmptyInstUseZeros
    && o.EmptyInst != EmptyInstIgnore
  }

  /** AddOHLCV's effect on the bars (nothing when it returns its error). */
  function AddOHLCVStore(st: Store, v: OHLCV, o: SeriesOpts): Store
    requires o.Interval > 0
  {
    var b := Restamp(v, o.Interval);
    if st.last.None? then Detach(Insert(st, b, o.Interval), b)
    else if st.last.value.S == b.S then Detach(Rewrite(st, b), b)
    else if b.S - st.last.value.S > 0 then
      if o.EmptyInst == EmptyInstUseLastClose || o.EmptyInst == EmptyInstUseZeros then
        var m := MultiplierDiff(b.S, st.last.value.S, o.Interval);
        Detach(GapFrom(st, 0, m, UseNew(m), BarFinal(b), o.EmptyInst == EmptyInstUseZeros, o.Interval), b)
      else if o.EmptyInst == EmptyInstIgnore then Detach(Insert(st, b, o.Interval), b)
      else st
    else Detach(st, b)
  }

  /** Storing the initial bars one after the other (initValues). */
  function InitStore(bars: seq<OHLCV>, interval: int): Store
    requires interval > 0
    decreases |bars|
  {
    if bars == [] then Empty
    else Insert(InitStore(bars[..|bars| - 1], interval), bars[|bars| - 1], interval)
  }
}
