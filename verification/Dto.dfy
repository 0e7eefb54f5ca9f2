/** The request that handler, service, client and repository share by reference, and the
  * protobuf timestamps it is built from.
  */
module Dto {
  import opened Outcomes
  import opened Calendar

  /** What the shared request holds at one moment. */
  datatype Request = Request(base: string, target: string, from: int, to: int)

  class CurrencyRequestDTO {
    var baseCurrency: string
    var targetCurrency: string
    var dateFrom: int  // nanoseconds
    var dateTo: int

    constructor (base: string, target: string, from: int, to: int)
      ensures Value() == Request(base, target, from, to)
    {
      baseCurrency, targetCurrency, dateFrom, dateTo := base, target, from, to;
    }

    function Value(): Request
      reads this
    {
      Request(baseCurrency, targetCurrency, dateFrom, dateTo)
    }
  }

  /** `time.Time{}`, midnight of 0001-01-01. */
  const ZERO_TIME := Midnight(-719162)

  // ----- Protobuf -----

  datatype Timestamp = Timestamp(seconds: int, nanos: int)

  datatype GetRateRequest = GetRateRequest(
    currency: string, baseCurrency: string, dataFrom: Option<Timestamp>, dateTo: Option<Timestamp>)

  function ToTimestamp(ns: int): Timestamp {
    Timestamp(ns / NS_PER_SECOND, ns % NS_PER_SECOND)
  }

  function AsTime(t: Timestamp): int {
    t.seconds * NS_PER_SECOND + t.nanos
  }

  /** `CheckValid`: years 0001 to 9999. */
  predicate ValidTimestamp(t: Timestamp) {
    && -62_135_596_800 <= t.seconds <= 253_402_300_799
    && 0 <= t.nanos < NS_PER_SECOND
  }

  lemma TimestampKeepsInstant(ns: int)
    ensures AsTime(ToTimestamp(ns)) == ns
    ensures ToTimestamp(ns).seconds * 1_000_000_000 + ToTimestamp(ns).nanos == ns
    ensures 0 <= ToTimestamp(ns).nanos < 1_000_000_000
  {
  }

  /** A timestamp is valid exactly when its UTC day is in year 0001 to 9999. */
  lemma ValidTimestampIsYears(t: Timestamp)
    requires 0 <= t.nanos < NS_PER_SECOND
    ensures ValidTimestamp(t) <==> -719162 <= DayOf(AsTime(t)) && InYears(DayOf(AsTime(t)))
  {
    var d := DayOf(AsTime(t));
    assert d * NS_PER_DAY <= AsTime(t) < (d + 1) * NS_PER_DAY;
  }
}
