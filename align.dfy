/** Time bucketing: a timestamp is mapped to the start of its interval,
    counting intervals from the UTC midnight of the timestamp's day. */
module Align {

  const SecondsPerDay: int := 86400

  /** Start of the UTC day containing `t` (Unix time has no leap seconds). */
  function DayStart(t: int): int {
    t - t % SecondsPerDay
  }

  /** The number of whole intervals in `t - st`, truncated toward zero as
      Go's float-to-int conversion does. */
  function MultiplierDiff(t: int, st: int, interval: int): int
    requires interval > 0
  {
    var diff := t - st;
    if diff >= 0 then diff / interval else -((-diff) / interval)
  }

  /** The start of the interval containing `t`. */
  function LastIntervalFromTime(t: int, interval: int): int
    requires interval > 0
  {
    var st := DayStart(t);
    st + MultiplierDiff(t, st, interval) * interval
  }

  predicate Aligned(t: int, interval: int)
    requires interval > 0
  {
    LastIntervalFromTime(t, interval) == t
  }

  lemma DayStartShape(t: int)
    ensures DayStart(t) % SecondsPerDay == 0
    ensures DayStart(t) <= t < DayStart(t) + SecondsPerDay
  {
  }

  /** A day start plus an offset inside the day has that day start. */
  lemma DayStartOfOffset(d: int, x: int)
    requires d % SecondsPerDay == 0 && 0 <= x < SecondsPerDay
    ensures DayStart(d + x) == d
  {
    var j := d / SecondsPerDay;
    assert d == SecondsPerDay * j;
    assert (d + x) % SecondsPerDay == x;
  }

  /** Dividing a multiple of `n` by `n`. */
  lemma DivMultiple(q: int, n: int)
    requires n > 0
    ensures (q * n) / n == q && (q * n) % n == 0
  {
    DivUnique(q * n, n, q, 0);
  }

  /** Quotient and remainder are unique. */
  lemma DivUnique(x: int, n: int, q: int, r: int)
    requires n > 0 && 0 <= r < n && x == q * n + r
    ensures x / n == q && x % n == r
  {
    var q', r' := x / n, x % n;
    assert x == q' * n + r';
    assert (q - q') * n == r' - r;
    if q > q' {
      MulMonotone(1, q - q', n);
    } else if q < q' {
      MulMonotone(1, q' - q, n);
    }
  }

  /** Euclidean division facts for a non-negative numerator. */
  lemma DivBounds(d: int, n: int)
    requires n > 0 && d >= 0
    ensures 0 <= (d / n) * n <= d < (d / n) * n + n
  {
  }

  /** The aligned start lies in the day of `t`, at a whole number of intervals
      from its midnight, and the interval it starts contains `t`. */
  lemma {:induction false} AlignBounds(t: int, interval: int)
    requires interval > 0
    ensures var a := LastIntervalFromTime(t, interval);
      && DayStart(a) == DayStart(t)
      && a <= t < a + interval
      && (a - DayStart(t)) % interval == 0
  {
    var st := DayStart(t);
    var d := t - st;
    DayStartShape(t);
    DivBounds(d, interval);
    var q := d / interval;
    assert LastIntervalFromTime(t, interval) == st + q * interval;
    DayStartOfOffset(st, q * interval);
    DivMultiple(q, interval);
  }

  /** Aligning twice is aligning once. */
  lemma {:induction false} AlignIdempotent(t: int, interval: int)
    requires interval > 0
    ensures Aligned(LastIntervalFromTime(t, interval), interval)
  {
    var a := LastIntervalFromTime(t, interval);
    AlignBounds(t, interval);
    var st := DayStart(t);
    var q := (t - st) / interval;
    assert a == st + q * interval;
    DivBounds(t - st, interval);
    DivMultiple(q, interval);
    assert DayStart(a) == st;
    assert MultiplierDiff(a, st, interval) == q;
  }

  /** Alignment is monotone. */
  lemma {:induction false} AlignMonotone(t1: int, t2: int, interval: int)
    requires interval > 0 && t1 <= t2
    ensures LastIntervalFromTime(t1, interval) <= LastIntervalFromTime(t2, interval)
  {
    AlignBounds(t1, interval);
    AlignBounds(t2, interval);
    DayStartShape(t1);
    DayStartShape(t2);
    var s1, s2 := DayStart(t1), DayStart(t2);
    if s1 == s2 {
      var d1, d2 := t1 - s1, t2 - s1;
      DivMonotone(d1, d2, interval);
    } else {
      DayStartMonotone(t1, t2);
    }
  }

  lemma DivMonotone(d1: int, d2: int, n: int)
    requires n > 0 && 0 <= d1 <= d2
    ensures (d1 / n) * n <= (d2 / n) * n
  {
    DivBounds(d1, n);
    DivBounds(d2, n);
    if d1 / n > d2 / n {
      MulMonotone(d2 / n + 1, d1 / n, n);
    }
  }

  lemma MulMonotone(a: int, b: int, n: int)
    requires n > 0 && a <= b
    ensures a * n <= b * n
  {
  }

  /** Distinct day starts are at least a day apart, in the order of their times. */
  lemma DayStartMonotone(t1: int, t2: int)
    requires t1 <= t2 && DayStart(t1) != DayStart(t2)
    ensures DayStart(t1) + SecondsPerDay <= DayStart(t2)
  {
    DayStartShape(t1);
    DayStartShape(t2);
    var j1, j2 := DayStart(t1) / SecondsPerDay, DayStart(t2) / SecondsPerDay;
    assert DayStart(t1) == SecondsPerDay * j1;
    assert DayStart(t2) == SecondsPerDay * j2;
    if j2 <= j1 {
      MulMonotone(j2, j1, SecondsPerDay);
    } else {
      MulMonotone(j1 + 1, j2, SecondsPerDay);
    }
  }

  /** A timestamp is aligned exactly when its offset from midnight is a
      whole number of intervals. */
  lemma {:induction false} AlignedIff(t: int, interval: int)
    requires interval > 0
    ensures Aligned(t, interval) <==> (t - DayStart(t)) % interval == 0
  {
    AlignBounds(t, interval);
    var d := t - DayStart(t);
    DayStartShape(t);
    if d % interval == 0 {
      DivUnique(d, interval, d / interval, 0);
    }
  }

  /** When the interval divides a day, the interval after an aligned start is
      aligned too (this is what the gap-filling loop relies on). */
  lemma {:induction false} AlignedNext(t: int, interval: int)
    requires interval > 0 && SecondsPerDay % interval == 0 && Aligned(t, interval)
    ensures Aligned(t + interval, interval)
  {
    var d := DayStart(t);
    DayStartShape(t);
    AlignedIff(t, interval);
    var k := (t - d) / interval;
    DivUnique(t - d, interval, k, 0);
    var p := SecondsPerDay / interval;
    DivUnique(SecondsPerDay, interval, p, 0);
    NextOffset(k, interval, p);
    AlignedIff(t + interval, interval);
    if (k + 1) * interval < SecondsPerDay {
      DayStartOfOffset(d, (k + 1) * interval);
      DivMultiple(k + 1, interval);
    } else {
      DayStartOfOffset(d + SecondsPerDay, 0);
    }
  }

  /** One more interval past an in-day multiple stays within the day. */
  lemma NextOffset(k: int, n: int, p: int)
    requires n > 0 && p * n == SecondsPerDay && 0 <= k * n < SecondsPerDay
    ensures (k + 1) * n == k * n + n <= SecondsPerDay
  {
    if k >= p {
      MulMonotone(p, k, n);
    }
    MulSucc(k, n);
    MulMonotone(k + 1, p, n);
  }

  lemma MulSucc(k: int, n: int)
    ensures (k + 1) * n == k * n + n
  {
  }

  /** Two aligned starts are a whole number of intervals apart when the
      interval divides a day. */
  lemma {:induction false} AlignedDistance(a: int, b: int, interval: int)
    requires interval > 0 && SecondsPerDay % interval == 0
    requires Aligned(a, interval) && Aligned(b, interval)
    ensures (a - b) % interval == 0
  {
    AlignedIff(a, interval);
    AlignedIff(b, interval);
    DayStartShape(a);
    DayStartShape(b);
    var p := SecondsPerDay / interval;
    DivUnique(SecondsPerDay, interval, p, 0);
    var ja, jb := DayStart(a) / SecondsPerDay, DayStart(b) / SecondsPerDay;
    var ka, kb := (a - DayStart(a)) / interval, (b - DayStart(b)) / interval;
    DivUnique(a - DayStart(a), interval, ka, 0);
    DivUnique(b - DayStart(b), interval, kb, 0);
    assert DayStart(a) == SecondsPerDay * ja;
    assert DayStart(b) == SecondsPerDay * jb;
    var j := ja - jb;
    assert DayStart(a) - DayStart(b) == SecondsPerDay * j;
    assert SecondsPerDay * j == (p * j) * interval by {
      assert SecondsPerDay == p * interval;
    }
    assert a - b == (p * j + ka - kb) * interval;
    DivMultiple(p * j + ka - kb, interval);
  }

  /** The gap count: for a timestamp whose interval starts after the aligned
      start `last`, the truncated number of intervals between them is at least
      one and lands exactly on the timestamp's interval start. */
  lemma {:induction false} GapCount(ts: int, last: int, interval: int)
    requires interval > 0 && SecondsPerDay % interval == 0 && Aligned(last, interval)
    requires LastIntervalFromTime(ts, interval) > last
    ensures var start := LastIntervalFromTime(ts, interval);
      var m := MultiplierDiff(ts, last, interval);
      && m >= 1 && start == last + m * interval
      && MultiplierDiff(start, last, interval) == m
  {
    var start := LastIntervalFromTime(ts, interval);
    AlignBounds(ts, interval);
    AlignIdempotent(ts, interval);
    AlignedDistance(start, last, interval);
    var m := (start - last) / interval;
    DivUnique(start - last, interval, m, 0);
    if m < 1 {
      MulMonotone(m, 0, interval);
    }
    DivUnique(ts - last, interval, m, ts - start);
  }
}
