/** The candle ("kline") record every component reads. Candles are values: they
    are never changed once loaded. */
module Klines {

  datatype Kline = Kline(
    timestamp: int,
    open: real,
    high: real,
    low: real,
    close: real,
    volume: real)

  /** The name of a kline field, as the string keys "open", "close", ... select it. */
  datatype Field = Open | High | Low | Close | Volume

  function Value(k: Kline, f: Field): real
  {
    match f
    case Open => k.open
    case High => k.high
    case Low => k.low
    case Close => k.close
    case Volume => k.volume
  }
}
