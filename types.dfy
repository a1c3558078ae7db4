/** The value types of the engine: bars, executions, options and query results. */
module Types {
  import opened Wrappers

  /** A bar: open, high, low, close, volume and its interval start `S`
      (seconds since the Unix epoch). */
  datatype OHLCV = OHLCV(O: real, H: real, L: real, C: real, V: real, S: int)

  /** A trade execution: timestamp, price and quantity. */
  datatype TPQ = TPQ(Timestamp: int, Px: real, Qty: real)

  /** The empty-interval policy is a plain integer in the source; any value
      other than the three constants below is rejected where it is used. */
  type EmptyInst = int

  const EmptyInstUseLastClose: EmptyInst := 0
  const EmptyInstIgnore: EmptyInst := 1
  const EmptyInstUseZeros: EmptyInst := 2

  /** Series options: interval length in seconds, maximum bar count, policy. */
  datatype SeriesOpts = SeriesOpts(Interval: int, Max: int, EmptyInst: EmptyInst)

  /** A query result. `OHLCV` is the series' bar (None for indicator results);
      `Value` is an indicator's own value; `Indicators` maps the names of the
      registered indicators that have a value to that value. */
  datatype Interval = Interval(StartTime: int, OHLCV: Option<OHLCV>, Value: real,
                               Indicators: map<string, real>)

  /** A bar whose four prices are all `px`. */
  function NewOHLCVWithSamePx(px: real, qty: real, t: int): OHLCV
  {
    OHLCV(px, px, px, px, qty, t)
  }

  /** The usual shape of a bar: low and high bound the other prices. */
  predicate WellFormed(b: OHLCV) {
    b.L <= b.O <= b.H && b.L <= b.C <= b.H
  }
}
