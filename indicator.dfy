/** The indicator interface (ApplyOpts, Update, GetValueForInterval) over its
    two kinds: a leaf indicator whose own computation lies outside this model,
    and the lookback wrapper `prev`. */
module Indicators {
  import opened Wrappers
  import opened Types

  /** An indicator value.
      `Leaf` stands for any indicator that does not wrap another one: its
      behaviour is given by `accepts` (whether ApplyOpts succeeds), `admits`
      (whether Update succeeds, given the bars received so far) and `valueAt`
      (its query answer, given its options and the bars received so far); its
      state is the options it stored and the bars it received, in order.
      `Previous` is the `prev` struct: a source, a lookback count and the
      options stored by a successful ApplyOpts (nil until then). */
  datatype Indicator =
    | Leaf(accepts: SeriesOpts -> bool,
           admits: (seq<OHLCV>, OHLCV) -> bool,
           valueAt: (Option<SeriesOpts>, seq<OHLCV>, int) -> Option<Interval>,
           opts: Option<SeriesOpts>,
           history: seq<OHLCV>)
    | Previous(src: Indicator, lookback: int, opts: Option<SeriesOpts>)

  /** NewPrevious: a lookback wrapper whose options are not yet set. */
  function NewPrevious(i: Indicator, lookback: int): Indicator {
    Previous(i, lookback, None)
  }

  /** Every `prev` in the chain has stored options, so that a query does not
      dereference a nil options pointer. */
  predicate Configured(ind: Indicator) {
    match ind
    case Leaf(_, _, _, _, _) => true
    case Previous(src, _, opts) => opts.Some? && Configured(src)
  }

  function ApplyOpts(ind: Indicator, o: SeriesOpts): Result<Indicator>
    decreases ind, 1
  {
    match ind
    case Leaf(accepts, admits, valueAt, _, history) =>
      if accepts(o) then Ok(Leaf(accepts, admits, valueAt, Some(o), history)) else Err
    case Previous(_, _, _) => PrevApplyOpts(ind, o)
  }

  function Update(ind: Indicator, v: OHLCV): Result<Indicator>
    decreases ind, 1
  {
    match ind
    case Leaf(accepts, admits, valueAt, opts, history) =>
      if admits(history, v) then Ok(Leaf(accepts, admits, valueAt, opts, history + [v])) else Err
    case Previous(_, _, _) => PrevUpdate(ind, v)
  }

  function ValueAt(ind: Indicator, t: int): Option<Interval>
    requires Configured(ind)
    decreases ind, 1
  {
    match ind
    case Leaf(_, _, valueAt, opts, history) => valueAt(opts, history, t)
    case Previous(_, _, _) => PrevValueAt(ind, t)
  }

  /** prev.ApplyOpts: rejects a maximum below the lookback before touching the
      source, then configures the source and stores the options only if the
      source accepted them. */
  function PrevApplyOpts(p: Indicator, o: SeriesOpts): (r: Result<Indicator>)
    requires p.Previous?
    ensures o.Max < p.lookback ==> r.Err?
    ensures o.Max >= p.lookback ==> (r.Ok? <==> ApplyOpts(p.src, o).Ok?)
    ensures r.Ok? ==> r.value == Previous(ApplyOpts(p.src, o).value, p.lookback, Some(o))
    decreases p, 0
  {
    if o.Max < p.lookback then Err
    else
      match ApplyOpts(p.src, o)
      case Err => Err
      case Ok(s) => Ok(Previous(s, p.lookback, Some(o)))
  }

  /** prev.Update: forwards the bar to the source once and propagates its error. */
  function PrevUpdate(p: Indicator, v: OHLCV): (r: Result<Indicator>)
    requires p.Previous?
    ensures r.Ok? <==> Update(p.src, v).Ok?
    ensures r.Ok? ==> r.value == p.(src := Update(p.src, v).value)
    decreases p, 0
  {
    match Update(p.src, v)
    case Err => Err
    case Ok(s) => Ok(p.(src := s))
  }

  /** prev.GetValueForInterval: asks the source at `t - lookback * Interval`
      and answers with the source's value stamped with the unshifted `t`. */
  function PrevValueAt(p: Indicator, t: int): (r: Option<Interval>)
    requires p.Previous? && Configured(p)
    ensures var shifted := t - p.lookback * p.opts.value.Interval;
      && (r.None? <==> ValueAt(p.src, shifted).None?)
      && (r.Some? ==> r.value.StartTime == t && r.value.Value == ValueAt(p.src, shifted).value.Value)
    decreases p, 0
  {
    match ValueAt(p.src, t - p.lookback * p.opts.value.Interval)
    case None => None
    case Some(v2) => Some(Interval(t, None, v2.Value, map[]))
  }

  /** Feeding bars one by one, stopping at the first failing Update. */
  function FeedAll(ind: Indicator, bars: seq<OHLCV>): Result<Indicator>
    decreases |bars|
  {
    if bars == [] then Ok(ind)
    else
      match FeedAll(ind, bars[..|bars| - 1])
      case Err => Err
      case Ok(i) => Update(i, bars[|bars| - 1])
  }

  /** `b` is `a`, or `a` after a successful Update with `v`. */
  ghost predicate Stepped(a: Indicator, b: Indicator, v: OHLCV) {
    b == a || Update(a, v) == Ok(b)
  }

  /** The states reachable from `a` by offering it the bars in order, each one
      either applied by a successful Update or not applied. */
  ghost function Reach(a: Indicator, bars: seq<OHLCV>): set<Indicator>
    decreases |bars|
  {
    if bars == [] then {a}
    else
      var before := Reach(a, bars[..|bars| - 1]);
      var v := bars[|bars| - 1];
      before + set x | x in before && Update(x, v).Ok? :: Update(x, v).value
  }

  ghost predicate FedBy(a: Indicator, b: Indicator, bars: seq<OHLCV>) {
    b in Reach(a, bars)
  }

  /** Every registered indicator accepts the bars in turn. */
  ghost predicate AllAccept(before: map<string, Indicator>, feed: seq<OHLCV>) {
    forall k | k in before :: FeedAll(before[k], feed).Ok?
  }

  /** What the series promises about its indicators after pushing `feed`:
      the same names, each indicator offered the bars in order, and every one
      fed all of them whenever all of them accept. */
  ghost predicate Fed(before: map<string, Indicator>, after: map<string, Indicator>, feed: seq<OHLCV>) {
    && after.Keys == before.Keys
    && (forall k | k in after :: FedBy(before[k], after[k], feed))
    && (AllAccept(before, feed) ==> forall k | k in after :: Ok(after[k]) == FeedAll(before[k], feed))
  }

  lemma FeedAllOne(a: Indicator, v: OHLCV)
    ensures FeedAll(a, [v]) == Update(a, v)
  {
    assert [v][..0] == [];
  }

  lemma FeedAllSnoc(a: Indicator, bars: seq<OHLCV>, v: OHLCV)
    ensures FeedAll(a, bars + [v]) ==
      match FeedAll(a, bars) case Err => Err case Ok(i) => Update(i, v)
  {
    assert (bars + [v])[..|bars|] == bars;
  }

  lemma FedBySnoc(a: Indicator, mid: Indicator, b: Indicator, bars: seq<OHLCV>, v: OHLCV)
    requires FedBy(a, mid, bars) && Stepped(mid, b, v)
    ensures FedBy(a, b, bars + [v])
  {
    assert (bars + [v])[..|bars|] == bars;
  }

  lemma FedByNil(a: Indicator)
    ensures FedBy(a, a, [])
  {
  }

  lemma FedNil(items: map<string, Indicator>)
    ensures Fed(items, items, [])
  {
  }

  /** A failure stays a failure when more bars follow. */
  lemma {:induction false} FeedAllPrefixErr(a: Indicator, bars: seq<OHLCV>, n: nat)
    requires n <= |bars| && FeedAll(a, bars[..n]).Err?
    ensures FeedAll(a, bars).Err?
    decreases |bars| - n
  {
    if n < |bars| {
      var pre := bars[..|bars| - 1];
      assert pre[..n] == bars[..n];
      FeedAllPrefixErr(a, pre, n);
    } else {
      assert bars[..n] == bars;
    }
  }

  lemma FedByOne(b: Indicator, c: Indicator, x: OHLCV)
    requires FedBy(b, c, [x])
    ensures Stepped(b, c, x)
  {
    assert [x][..0] == [];
    assert Reach(b, [x][..0]) == {b};
    if c != b {
      var y :| y in Reach(b, [x][..0]) && Update(y, x).Ok? && Update(y, x).value == c;
    }
  }

  /** Pushing `feed` and then one more bar is pushing `feed + [x]`. */
  lemma FedTrans(a: map<string, Indicator>, b: map<string, Indicator>, c: map<string, Indicator>,
                 feed: seq<OHLCV>, x: OHLCV)
    requires Fed(a, b, feed) && Fed(b, c, [x])
    ensures Fed(a, c, feed + [x])
  {
    forall k | k in c
      ensures FedBy(a[k], c[k], feed + [x])
    {
      FedByOne(b[k], c[k], x);
      FedBySnoc(a[k], b[k], c[k], feed, x);
    }
    if AllAccept(a, feed + [x]) {
      AcceptTrans(a, b, c, feed, x);
    }
  }

  lemma AcceptTrans(a: map<string, Indicator>, b: map<string, Indicator>, c: map<string, Indicator>,
                    feed: seq<OHLCV>, x: OHLCV)
    requires Fed(a, b, feed) && Fed(b, c, [x]) && AllAccept(a, feed + [x])
    ensures forall k | k in c :: Ok(c[k]) == FeedAll(a[k], feed + [x])
  {
    forall k | k in a
      ensures FeedAll(a[k], feed).Ok?
    {
      FeedAllSnoc(a[k], feed, x);
    }
    assert AllAccept(a, feed);
    forall k | k in b
      ensures FeedAll(b[k], [x]).Ok? && FeedAll(a[k], feed + [x]) == FeedAll(b[k], [x])
    {
      FeedAllSnoc(a[k], feed, x);
      FeedAllOne(b[k], x);
    }
    assert AllAccept(b, [x]);
  }
}
