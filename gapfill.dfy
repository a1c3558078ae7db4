/** The gap-filling protocol: what the loops of AddExec and AddOHLCV store
    when a later interval arrives, for an interval that divides a day. */
module GapFill {
  import opened Wrappers
  import opened Types
  import opened Align
  import opened BarStore

  /** The reference gap: `m` bars at `last.S + I, ..., last.S + m*I`; the
      first `m - 1` are fillers at the last close (or zero) with no volume, the
      `m`-th is the final bar. */
  function GapExpected(last: OHLCV, m: nat, f: Final, zeros: bool, interval: int): seq<OHLCV> {
    seq(m, j requires 0 <= j < m =>
      if j == m - 1 then FinalBar(f, last.S + m * interval)
      else NewOHLCVWithSamePx(if zeros then 0.0 else last.C, 0.0, last.S + (j + 1) * interval))
  }

  lemma GapExpectedAt(last: OHLCV, m: nat, f: Final, zeros: bool, interval: int, j: int)
    requires 0 <= j < m
    ensures var e := GapExpected(last, m, f, zeros, interval);
      && |e| == m
      && e[j] == if j == m - 1 then FinalBar(f, last.S + m * interval)
                 else NewOHLCVWithSamePx(if zeros then 0.0 else last.C, 0.0, last.S + (j + 1) * interval)
  {
  }

  /** The store after inserting the first `i` bars of `e`. */
  function GapStates(st: Store, e: seq<OHLCV>, i: nat, interval: int): Store
    requires i <= |e| && interval > 0
  {
    if i == 0 then st else Insert(GapStates(st, e, i - 1, interval), e[i - 1], interval)
  }

  /** What a gap needs: a divisor of the day, an aligned last bar that is the
      latest one stored, and a final bar stamped at the gap's end. */
  ghost predicate GapReady(st: Store, m: int, f: Final, interval: int) {
    && interval > 0 && SecondsPerDay % interval == 0
    && st.last.Some? && Aligned(st.last.value.S, interval) && m >= 1
    && Latest(st)
    && (f.BarFinal? ==> f.b.S == st.last.value.S + m * interval)
  }

  lemma {:induction false} AlignedSteps(t: int, j: nat, interval: int)
    requires interval > 0 && SecondsPerDay % interval == 0 && Aligned(t, interval)
    ensures Aligned(t + j * interval, interval)
  {
    if j > 0 {
      AlignedSteps(t, j - 1, interval);
      MulSucc(j - 1, interval);
      AlignedNext(t + (j - 1) * interval, interval);
    }
  }

  /** The `i`-th reference bar is aligned, `i` intervals past the last bar. */
  lemma GapNewKey(st: Store, m: int, f: Final, zeros: bool, interval: int, i: nat)
    requires GapReady(st, m, f, interval) && 0 < i <= m
    ensures var b := GapExpected(st.last.value, m, f, zeros, interval)[i - 1];
      && b.S == st.last.value.S + i * interval
      && st.last.value.S + (i - 1) * interval < b.S
      && Restamp(b, interval) == b
  {
    var last := st.last.value.S;
    var k := i - 1;
    GapExpectedAt(st.last.value, m, f, zeros, interval, k);
    MulSucc(k, interval);
    assert k + 1 == i;
    AlignedSteps(last, i, interval);
  }

  /** The keys after `i` reference bars: none beyond the `i`-th, each
      reference bar at its own key, every earlier bar kept. */
  lemma {:induction false} GapStatesBars(st: Store, m: int, f: Final, zeros: bool, interval: int, i: nat)
    requires GapReady(st, m, f, interval) && i <= m
    ensures var e := GapExpected(st.last.value, m, f, zeros, interval);
      var s := GapStates(st, e, i, interval);
      var last := st.last.value.S;
      && (forall k | k in s.bars :: k <= last + i * interval)
      && (forall j | 0 <= j < i :: e[j].S in s.bars && s.bars[e[j].S] == e[j])
      && (forall k | k in st.bars :: k in s.bars && s.bars[k] == st.bars[k])
  {
    if i > 0 {
      GapStatesBars(st, m, f, zeros, interval, i - 1);
      GapNewKey(st, m, f, zeros, interval, i);
    }
  }

  /** After `i` reference bars, `values` holds them in order and the last bar
      is the `i`-th one, attached. */
  lemma {:induction false} GapStatesFacts(st: Store, m: int, f: Final, zeros: bool, interval: int, i: nat)
    requires GapReady(st, m, f, interval) && i <= m
    ensures var e := GapExpected(st.last.value, m, f, zeros, interval);
      var s := GapStates(st, e, i, interval);
      && s.values == st.values + e[..i]
      && (i == 0 ==> s == st)
      && (i > 0 ==> s.last == Some(e[i - 1]) && s.attached)
  {
    var e := GapExpected(st.last.value, m, f, zeros, interval);
    if i > 0 {
      GapStatesFacts(st, m, f, zeros, interval, i - 1);
      GapStatesBars(st, m, f, zeros, interval, i - 1);
      GapNewKey(st, m, f, zeros, interval, i);
      assert e[..i] == e[..i - 1] + [e[i - 1]];
    }
  }

  /** The bar the loop builds in iteration `i`, after the first `i` reference
      bars, is the `i`-th reference bar. */
  lemma GapBarAt(s: Store, last: OHLCV, m: int, f: Final, zeros: bool, interval: int, i: nat)
    requires interval > 0 && s.last.Some? && i < m
    requires i == 0 ==> s.last.value == last
    requires i > 0 ==> s.last == Some(GapExpected(last, m, f, zeros, interval)[i - 1])
    requires f.BarFinal? ==> f.b.S == last.S + m * interval
    ensures GapBar(s, i, m - 1, f, zeros, interval) == GapExpected(last, m, f, zeros, interval)[i]
  {
    var e := GapExpected(last, m, f, zeros, interval);
    GapExpectedAt(last, m, f, zeros, interval, i);
    MulSucc(i, interval);
    if i > 0 {
      var k := i - 1;
      GapExpectedAt(last, m, f, zeros, interval, k);
      assert k != m - 1 && k + 1 == i;
      assert s.last.value == NewOHLCVWithSamePx(if zeros then 0.0 else last.C, 0.0, last.S + i * interval);
    } else {
      assert i * interval == 0;
    }
    var newt := s.last.value.S + interval;
    assert newt == last.S + (i + 1) * interval;
    if i == m - 1 {
      assert newt == last.S + m * interval;
      assert e[i] == FinalBar(f, newt);
    }
  }

  /** Running the gap loop from iteration `i` on the store of the first `i`
      reference bars inserts the rest of them. */
  lemma {:induction false} GapFromMatches(st: Store, m: int, f: Final, zeros: bool, interval: int, i: nat)
    requires GapReady(st, m, f, interval) && i <= m
    ensures var e := GapExpected(st.last.value, m, f, zeros, interval);
      var s := GapStates(st, e, i, interval);
      && s.last.Some?
      && GapFrom(s, i, m, m - 1, f, zeros, interval) == GapStates(st, e, m, interval)
    decreases m - i
  {
    var e := GapExpected(st.last.value, m, f, zeros, interval);
    GapStatesFacts(st, m, f, zeros, interval, i);
    if i < m {
      GapBarAt(GapStates(st, e, i, interval), st.last.value, m, f, zeros, interval, i);
      GapFromMatches(st, m, f, zeros, interval, i + 1);
    }
  }

  /** ... and hands the rest of them to the indicators, in order. */
  lemma {:induction false} GapFeedMatches(st: Store, m: int, f: Final, zeros: bool, interval: int, i: nat)
    requires GapReady(st, m, f, interval) && i <= m
    ensures var e := GapExpected(st.last.value, m, f, zeros, interval);
      var s := GapStates(st, e, i, interval);
      && s.last.Some?
      && GapFeed(s, i, m, m - 1, f, zeros, interval) == e[i..]
    decreases m - i
  {
    var e := GapExpected(st.last.value, m, f, zeros, interval);
    GapStatesFacts(st, m, f, zeros, interval, i);
    if i < m {
      GapBarAt(GapStates(st, e, i, interval), st.last.value, m, f, zeros, interval, i);
      GapFeedMatches(st, m, f, zeros, interval, i + 1);
      assert e[i..] == [e[i]] + e[i + 1..];
    }
  }

  /** A gap of `m` intervals appends exactly the reference bars to `values`,
      stores each at its own key, keeps every earlier bar, and leaves the last
      bar attached to the final one; the same bars, in the same order, are
      what AddExec hands to its indicators. */
  lemma GapFillExact(st: Store, m: int, f: Final, zeros: bool, interval: int)
    requires GapReady(st, m, f, interval) && ValidStore(st, interval)
    ensures var e := GapExpected(st.last.value, m, f, zeros, interval);
      var r := GapFrom(st, 0, m, m - 1, f, zeros, interval);
      && r.values == st.values + e
      && (forall j | 0 <= j < m :: e[j].S in r.bars && r.bars[e[j].S] == e[j])
      && (forall k | k in st.bars :: k in r.bars && r.bars[k] == st.bars[k])
      && r.last == Some(e[m - 1]) && r.attached
      && ValidStore(r, interval)
      && GapFeed(st, 0, m, m - 1, f, zeros, interval) == e
  {
    var e := GapExpected(st.last.value, m, f, zeros, interval);
    GapFromMatches(st, m, f, zeros, interval, 0);
    GapFeedMatches(st, m, f, zeros, interval, 0);
    GapStatesFacts(st, m, f, zeros, interval, m);
    GapStatesBars(st, m, f, zeros, interval, m);
    assert e[..m] == e;
    assert e[0..] == e;
    GapFromValid(st, 0, m, m - 1, f, zeros, interval);
  }

  /** Gap filling keeps the store invariant whatever the interval. */
  lemma {:induction false} GapFromValid(st: Store, i: int, m: int, usenew: int, f: Final, zeros: bool, interval: int)
    requires interval > 0 && ValidStore(st, interval) && st.last.Some?
    ensures ValidStore(GapFrom(st, i, m, usenew, f, zeros, interval), interval)
    decreases m - i
  {
    if i < m {
      var b := GapBar(st, i, usenew, f, zeros, interval);
      InsertValid(st, b, interval);
      GapFromValid(Insert(st, b, interval), i + 1, m, usenew, f, zeros, interval);
    }
  }
}
