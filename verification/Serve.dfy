/** The read path on values: what the gateway accepts, how a request travels to the table, and what
  * the answer looks like on the way back.
  */
module Serve {
  import opened Outcomes
  import opened Calendar
  import opened Store
  import opened Text
  import opened Dto
  import opened Repository
  import opened Service
  import opened Ingest

  // ----- The gateway's query -----

  datatype HttpQuery = HttpQuery(currency: string, dateFrom: string, dateTo: string, base: string)

  datatype RateQuery = RateQuery(currency: string, from: int, to: int, base: string)

  const FIVE_YEARS := 365 * 5 * NS_PER_DAY

  const MAX_DURATION := 0x7FFF_FFFF_FFFF_FFFF

  /** `time.Since`: a difference of times saturates at the bounds of an int64. */
  function Since(now: int, t: int): int {
    if now - t > MAX_DURATION then MAX_DURATION
    else if now - t < -MAX_DURATION - 1 then -MAX_DURATION - 1
    else now - t
  }

  function ParseRateQuery(q: HttpQuery, now: int): Result<RateQuery, string> {
    if q.currency == "" then Err("currency is required")
    else if |q.currency| != 3 then Err("currency must be 3 letters")
    else if q.dateFrom == "" then Err("date_from is required")
    else if ParseDay(q.dateFrom).None? then Err("date_from must be YYYY-MM-DD")
    else if q.dateTo == "" then Err("date_to is required")
    else if ParseDay(q.dateTo).None? then Err("date_to must be YYYY-MM-DD")
    else
      var from, to := Midnight(ParseDay(q.dateFrom).value), Midnight(ParseDay(q.dateTo).value);
      if from > to then Err("date_from must be <= date_to")
      else if Since(now, from) > FIVE_YEARS then Err("date_from cannot be earlier than 5 years ago")
      else Ok(RateQuery(q.currency, from, to, q.base))
  }

  /** When the gateway accepts a query: a code of three bytes, two dates of the calendar in order, the
    * first at most 1825 days of 24 hours before now, and a query that keeps what was typed. */
  lemma AcceptedExactly(q: HttpQuery, now: int)
    ensures ParseRateQuery(q, now).Ok? <==>
            && |q.currency| == 3
            && ParseDay(q.dateFrom).Some? && ParseDay(q.dateTo).Some?
            && ParseDay(q.dateFrom).value <= ParseDay(q.dateTo).value
            && now - ParseDay(q.dateFrom).value * 86_400_000_000_000 <= 157_680_000_000_000_000
    ensures ParseRateQuery(q, now).Ok? ==>
            ParseRateQuery(q, now).value == RateQuery(q.currency, ParseDay(q.dateFrom).value * 86_400_000_000_000,
                                                      ParseDay(q.dateTo).value * 86_400_000_000_000, q.base)
  {
    hide ParseDay;
    NoDateInNothing();
  }

  lemma NoDateInNothing()
    ensures ParseDay("").None?
  {
  }

  /** The message the gateway's client sends. */
  function Asks(currency: string, base: string, from: int, to: int): GetRateRequest {
    GetRateRequest(currency, base, Some(ToTimestamp(from)), Some(ToTimestamp(to)))
  }

  function ToRequest(q: RateQuery): GetRateRequest {
    Asks(q.currency, q.base, q.from, q.to)
  }

  // ----- The backend's validation and its request -----

  function RateRequestValidation(req: GetRateRequest): Option<string> {
    if req.currency == "" then Some("exchange currency is required")
    else if req.dataFrom.None? then Some("data from is required")
    else if !ValidTimestamp(req.dataFrom.value) then Some("data_from is invalid")
    else if req.dateTo.None? then Some("data to is required")
    else if !ValidTimestamp(req.dateTo.value) then Some("data_to is invalid")
    else if AsTime(req.dateTo.value) < AsTime(req.dataFrom.value) then Some("date_to must be after data_from")
    else None
  }

  /** When the backend accepts a request: a currency, and two timestamps of years 0001 to 9999 that are
    * in order, compared by seconds and then by the fraction. */
  lemma ValidExactly(req: GetRateRequest)
    ensures RateRequestValidation(req).None? <==>
            && req.currency != ""
            && req.dataFrom.Some? && req.dateTo.Some?
            && var s, t := req.dataFrom.value, req.dateTo.value;
              && -62_135_596_800 <= s.seconds <= 253_402_300_799 && 0 <= s.nanos < 1_000_000_000
              && -62_135_596_800 <= t.seconds <= 253_402_300_799 && 0 <= t.nanos < 1_000_000_000
              && (s.seconds < t.seconds || (s.seconds == t.seconds && s.nanos <= t.nanos))
  {
  }

  /** `CurrencyRequestDTOFromProtobuf`. */
  function FromProtobuf(req: GetRateRequest, defaultBase: string): Request
    requires req.dataFrom.Some? && req.dateTo.Some?
  {
    Request(if req.baseCurrency == "" then defaultBase else req.baseCurrency, req.currency,
            AsTime(req.dataFrom.value), AsTime(req.dateTo.value))
  }

  /** The request the table is asked for a valid one. */
  function Resolved(unicode: string -> string, req: GetRateRequest, defaultBase: string): Request
    requires req.dataFrom.Some? && req.dateTo.Some?
  {
    Uppercased(unicode, FromProtobuf(req, defaultBase))
  }

  lemma ValidRequestsAreAnswerable(unicode: string -> string, req: GetRateRequest, defaultBase: string)
    requires RateRequestValidation(req).None?
    ensures req.dataFrom.Some? && req.dateTo.Some?
    ensures Answerable(Resolved(unicode, req, defaultBase))
  {
    ValidTimestampIsYears(req.dataFrom.value);
    ValidTimestampIsYears(req.dateTo.value);
  }

  /** What the gateway accepts the backend accepts too, exactly when date_from is not in year 0000,
    * which the five-year rule ensures whenever the clock is past the year 5. */
  lemma ValidationAgreement(q: HttpQuery, now: int)
    requires ParseRateQuery(q, now).Ok?
    ensures RateRequestValidation(ToRequest(ParseRateQuery(q, now).value)).None? <==>
            ParseRateQuery(q, now).value.from >= ZERO_TIME
    ensures now >= ZERO_TIME + FIVE_YEARS ==> RateRequestValidation(ToRequest(ParseRateQuery(q, now).value)).None?
  {
    var pq := ParseRateQuery(q, now).value;
    var from, to := ParseDay(q.dateFrom).value, ParseDay(q.dateTo).value;
    TimestampKeepsInstant(pq.from);
    TimestampKeepsInstant(pq.to);
    MidnightIsInDay(from);
    MidnightIsInDay(to);
    ValidTimestampIsYears(ToTimestamp(pq.from));
    ValidTimestampIsYears(ToTimestamp(pq.to));
  }

  lemma MidnightIsInDay(day: int)
    ensures DayOf(Midnight(day)) == day
  {
  }

  /** The dates the user typed are the bounds the table is filtered by. */
  lemma TypedDatesAreBounds(unicode: string -> string, q: HttpQuery, now: int, defaultBase: string, offset: int)
    requires ParseRateQuery(q, now).Ok?
    ensures var r := Resolved(unicode, ToRequest(ParseRateQuery(q, now).value), defaultBase);
      && ParseDay(q.dateFrom) == Some(DayOf(r.from)) && FormatDay(DayOf(r.from)) == q.dateFrom
      && ParseDay(q.dateTo) == Some(DayOf(r.to)) && FormatDay(DayOf(r.to)) == q.dateTo
      && r.target == ToUpper(unicode, q.currency)
      && r.base == ToUpper(unicode, if q.base == "" then defaultBase else q.base)
  {
    hide ParseDay, FormatDay, ToUpper, ToTimestamp, AsTime, DayOf, Midnight;
    var pq := ParseRateQuery(q, now).value;
    TimestampKeepsInstant(pq.from);
    TimestampKeepsInstant(pq.to);
    MidnightIsInDay(ParseDay(q.dateFrom).value);
    MidnightIsInDay(ParseDay(q.dateTo).value);
    FormatUndoesParse(q.dateFrom);
    FormatUndoesParse(q.dateTo);
  }

  // ----- The answer on its way back -----

  datatype RateRecord = RateRecord(date: Timestamp, rate: Rate)

  datatype GetRateResponse = GetRateResponse(currency: string, rates: seq<RateRecord>)

  datatype ClientRate = ClientRate(date: int, rate: Rate)

  datatype RatePoint = RatePoint(date: string, rate: Rate)

  datatype RateResponse = RateResponse(currency: string, rates: seq<RatePoint>)

  function ToRecord(r: CurrencyRate): RateRecord {
    RateRecord(ToTimestamp(r.date * 1000), r.rate)
  }

  function ToClientRate(r: RateRecord): ClientRate {
    ClientRate(AsTime(r.date), r.rate)
  }

  /** The printed date; outside years 0000 to 9999 it is not part of the model. */
  function DateText(ns: int): string {
    if InYears(DayOf(ns)) then FormatDay(DayOf(ns)) else ""
  }

  function ToPoint(r: ClientRate): RatePoint {
    RatePoint(DateText(r.date), r.rate)
  }

  /** The point the user finally sees for a row: its UTC date and its rate. */
  function PointOf(r: CurrencyRate): RatePoint {
    RatePoint(DateText(r.date * 1000), r.rate)
  }

  lemma RecordKeepsRate(r: CurrencyRate)
    ensures ToClientRate(ToRecord(r)) == ClientRate(r.date * 1000, r.rate)
  {
    TimestampKeepsInstant(r.date * 1000);
  }

  /** `points` shows every row of the answer exactly once, in some order. */
  ghost predicate Shows(points: seq<RatePoint>, answer: map<int, Rate>) {
    exists found: seq<CurrencyRate> :: Lists(found, answer) && IsImage(points, found)
  }

  predicate IsImage(points: seq<RatePoint>, found: seq<CurrencyRate>) {
    |points| == |found| && forall i | 0 <= i < |found| :: points[i] == PointOf(found[i])
  }

  lemma EmptyAnswer(found: seq<CurrencyRate>, answer: map<int, Rate>)
    requires Lists(found, answer)
    ensures found == [] <==> answer == map[]
  {
    if found != [] {
      assert found[0].date in answer;
    }
    if found == [] {
      assert forall d :: d !in answer;
    }
  }

  /** What the table is asked for a query the gateway accepts. */
  function QueryAsked(unicode: string -> string, q: HttpQuery, now: int, defaultBase: string, offset: int): Query
    requires ParseRateQuery(q, now).Ok?
  {
    QueryOf(Resolved(unicode, ToRequest(ParseRateQuery(q, now).value), defaultBase), offset)
  }

  /** The reference reading of a query the gateway accepts: the last writer's rate for the target, in
    * the rows of the base whose day lies between the two typed dates. */
  function LogQuery(unicode: string -> string, log: seq<SaveOp>, q: HttpQuery, now: int, defaultBase: string,
                    offset: int)
    : map<int, Rate>
    requires ParseRateQuery(q, now).Ok?
  {
    LogAnswer(log, QueryAsked(unicode, q, now, defaultBase, offset))
  }

  /** The reference reading, of the query as it was typed: a row is in the answer exactly when its day in
    * the session lies between the typed dates, both included, and some save has set the upper-cased
    * currency in the row of the upper-cased base, given or default; it has the last rate so set. */
  lemma LogQueryExactly(unicode: string -> string, log: seq<SaveOp>, q: HttpQuery, now: int, defaultBase: string,
                        offset: int, d: int)
    requires ParseRateQuery(q, now).Ok?
    ensures ParseDay(q.dateFrom).Some? && ParseDay(q.dateTo).Some?
    ensures var answer := LogQuery(unicode, log, q, now, defaultBase, offset);
      var base := ToUpper(unicode, if q.base == "" then defaultBase else q.base);
      var last := LastWrite(log, RowKey(d, base), ToUpper(unicode, q.currency));
      && (d in answer <==>
            && ParseDay(q.dateFrom).value <= (d + offset) / 86_400_000_000 <= ParseDay(q.dateTo).value
            && last.Some?)
      && (d in answer ==> answer[d] == last.value)
  {
    hide ParseDay, FormatDay, ToUpper, LogAnswer, LastWrite, ParseRateQuery, Resolved, DayOf;
    AcceptedExactly(q, now);
    TypedDatesAreBounds(unicode, q, now, defaultBase, offset);
    LogAnswerExactly(log, QueryAsked(unicode, q, now, defaultBase, offset), d);
  }

  /** With a UTC session, every date shown lies between the dates the user typed, as strings. */
  lemma ShownDatesWithinBounds(unicode: string -> string, log: seq<SaveOp>, q: HttpQuery, now: int,
                               defaultBase: string, points: seq<RatePoint>, i: nat)
    requires ParseRateQuery(q, now).Ok?
    requires Shows(points, LogQuery(unicode, log, q, now, defaultBase, 0)) && i < |points|
    ensures ParseDay(points[i].date).Some?
    ensures !StringLess(points[i].date, q.dateFrom) && !StringLess(q.dateTo, points[i].date)
  {
    var answer := LogQuery(unicode, log, q, now, defaultBase, 0);
    var found: seq<CurrencyRate> :| Lists(found, answer) && IsImage(points, found);
    var d := found[i].date;
    TypedDatesAreBounds(unicode, q, now, defaultBase, 0);
    UtcDayOfMicros(d);
    assert d in answer && points[i] == PointOf(found[i]);
    var from, to := ParseDay(q.dateFrom).value, ParseDay(q.dateTo).value;
    assert from <= UtcDay(d) <= to;
    FormatKeepsOrder(UtcDay(d), from);
    FormatKeepsOrder(to, UtcDay(d));
    ParseUndoesFormat(UtcDay(d));
  }

  /** What is shown: as many points as the answer has rows, each row as a point with its UTC day and its
    * rate, and no point that is not a row. */
  lemma ShownExactly(points: seq<RatePoint>, answer: map<int, Rate>)
    requires Shows(points, answer)
    ensures |points| == |answer|
    ensures forall d | d in answer && InYears(d / MICROS_PER_DAY) ::
              RatePoint(FormatDay(d / MICROS_PER_DAY), answer[d]) in points
    ensures forall p | p in points :: exists d :: d in answer && IsShownAs(d, answer[d], p)
  {
    hide Lists, FormatDay;
    var found: seq<CurrencyRate> :| Lists(found, answer) && IsImage(points, found);
    ListsCount(found, answer);
    forall d | d in answer && InYears(d / MICROS_PER_DAY)
      ensures RatePoint(FormatDay(d / MICROS_PER_DAY), answer[d]) in points
    {
      UtcDayOfMicros(d);
      var i := ListsEach(found, answer, d);
      assert points[i] == PointOf(found[i]);
    }
    forall p | p in points
      ensures exists d :: d in answer && IsShownAs(d, answer[d], p)
    {
      var i :| 0 <= i < |points| && points[i] == p;
      ListsOnly(found, answer, i);
      UtcDayOfMicros(found[i].date);
      assert IsShownAs(found[i].date, answer[found[i].date], p);
    }
  }

  /** The point has the row's rate and its UTC day, as far as days have a text. */
  predicate IsShownAs(d: int, rate: Rate, p: RatePoint) {
    p.rate == rate && (InYears(d / MICROS_PER_DAY) ==> p.date == FormatDay(d / MICROS_PER_DAY))
  }

  lemma ListsEach(found: seq<CurrencyRate>, answer: map<int, Rate>, d: int) returns (i: nat)
    requires Lists(found, answer) && d in answer
    ensures i < |found| && found[i] == CurrencyRate(d, answer[d])
  {
    i :| 0 <= i < |found| && found[i].date == d;
  }

  lemma ListsOnly(found: seq<CurrencyRate>, answer: map<int, Rate>, i: nat)
    requires Lists(found, answer) && i < |found|
    ensures found[i].date in answer && answer[found[i].date] == found[i].rate
  {
  }

  lemma ListsCount(found: seq<CurrencyRate>, answer: map<int, Rate>)
    requires Lists(found, answer)
    ensures |found| == |answer|
  {
    var any := (r: CurrencyRate) => true;
    AllHit(found, |found|, any);
    HitDates(found, answer, any);
    hide Lists, DatesOf;
    assert answer.Keys == DatesOf(found, |found|, any);
  }

  lemma {:induction false} AllHit(found: seq<CurrencyRate>, n: nat, any: CurrencyRate -> bool)
    requires n <= |found| && forall r :: any(r)
    ensures Hits(found, n, any) == n
  {
    if n > 0 { AllHit(found, n - 1, any); }
  }

  /** The dates among the first n rows that `hit` picks. */
  function DatesOf(found: seq<CurrencyRate>, n: nat, hit: CurrencyRate -> bool): set<int>
    requires n <= |found|
  {
    set k | 0 <= k < n && hit(found[k]) :: found[k].date
  }

  /** How many of the first n rows `hit` picks. */
  function Hits(found: seq<CurrencyRate>, n: nat, hit: CurrencyRate -> bool): nat
    requires n <= |found|
  {
    if n == 0 then 0 else Hits(found, n - 1, hit) + if hit(found[n - 1]) then 1 else 0
  }

  lemma {:induction false} Counted(found: seq<CurrencyRate>, n: nat, hit: CurrencyRate -> bool)
    requires n <= |found| && forall i, j | 0 <= i < j < |found| :: found[i].date != found[j].date
    ensures |DatesOf(found, n, hit)| == Hits(found, n, hit)
  {
    if n > 0 {
      Counted(found, n - 1, hit);
      OneMoreDate(found, n, hit);
      hide DatesOf;
    }
  }

  lemma OneMoreDate(found: seq<CurrencyRate>, n: nat, hit: CurrencyRate -> bool)
    requires 0 < n <= |found| && forall i, j | 0 <= i < j < |found| :: found[i].date != found[j].date
    ensures found[n - 1].date !in DatesOf(found, n - 1, hit)
    ensures DatesOf(found, n, hit) == DatesOf(found, n - 1, hit) + if hit(found[n - 1]) then {found[n - 1].date} else {}
  {
  }

  lemma {:induction false} Occurrences(found: seq<CurrencyRate>, points: seq<RatePoint>, n: nat, p: RatePoint,
                                       hit: CurrencyRate -> bool)
    requires IsImage(points, found) && n <= |found|
    requires forall r :: hit(r) <==> PointOf(r) == p
    ensures multiset(points[..n])[p] == Hits(found, n, hit)
  {
    hide PointOf;
    if n > 0 {
      Occurrences(found, points, n - 1, p, hit);
      assert points[..n] == points[..n - 1] + [points[n - 1]];
    }
  }

  /** A point occurs as often as there are rows with its rate on its UTC day. */
  lemma ShownAsOften(points: seq<RatePoint>, answer: map<int, Rate>, day: int, rate: Rate)
    requires Shows(points, answer) && InYears(day)
    ensures multiset(points)[RatePoint(FormatDay(day), rate)] ==
            |set d | d in answer && d / MICROS_PER_DAY == day && answer[d] == rate|
  {
    hide Lists, IsImage, PointOf, FormatDay;
    var p := RatePoint(FormatDay(day), rate);
    var found: seq<CurrencyRate> :| Lists(found, answer) && IsImage(points, found);
    var hit := (r: CurrencyRate) => r.date / MICROS_PER_DAY == day && r.rate == rate;
    forall r: CurrencyRate
      ensures hit(r) <==> PointOf(r) == p
    {
      PointOfDay(r, day);
    }
    ImageIsAsLong(points, found);
    Occurrences(found, points, |found|, p, hit);
    assert points[..|found|] == points;
    HitDates(found, answer, hit);
    assert DatesOf(found, |found|, hit) == set d | d in answer && d / MICROS_PER_DAY == day && answer[d] == rate;
  }

  lemma ImageIsAsLong(points: seq<RatePoint>, found: seq<CurrencyRate>)
    requires IsImage(points, found)
    ensures |points| == |found|
  {
  }

  lemma HitDates(found: seq<CurrencyRate>, answer: map<int, Rate>, hit: CurrencyRate -> bool)
    requires Lists(found, answer)
    ensures |DatesOf(found, |found|, hit)| == Hits(found, |found|, hit)
    ensures forall d :: d in DatesOf(found, |found|, hit) <==> d in answer && hit(CurrencyRate(d, answer[d]))
  {
    Counted(found, |found|, hit);
    forall d
      ensures d in DatesOf(found, |found|, hit) <==> d in answer && hit(CurrencyRate(d, answer[d]))
    {
      if d in answer && hit(CurrencyRate(d, answer[d])) {
        var i := ListsEach(found, answer, d);
      }
    }
  }

  lemma PointOfDay(r: CurrencyRate, day: int)
    requires InYears(day)
    ensures PointOf(r).rate == r.rate
    ensures PointOf(r).date == FormatDay(day) <==> r.date / MICROS_PER_DAY == day
  {
    UtcDayOfMicros(r.date);
    hide FormatDay, ParseDay;
    ParseUndoesFormat(day);
    NoDateInNothing();
    if InYears(r.date / MICROS_PER_DAY) {
      ParseUndoesFormat(r.date / MICROS_PER_DAY);
    }
  }

  /** A save keyed by the target currency is shown: after any later saves the gateway's answer to an
    * accepted query for it has a point with its day, and with its rate if no later save sets it. */
  lemma SavedIsShown(unicode: string -> string, log: seq<SaveOp>, op: SaveOp, later: seq<SaveOp>, q: HttpQuery,
                     now: int, defaultBase: string, offset: int, points: seq<RatePoint>)
    requires ParseRateQuery(q, now).Ok?
    requires op.base == ToUpper(unicode, if q.base == "" then defaultBase else q.base)
    requires ToUpper(unicode, q.currency) in op.rates
    requires ParseDay(q.dateFrom).value <= (StoredMicros(op.date) + offset) / MICROS_PER_DAY <= ParseDay(q.dateTo).value
    requires Shows(points, LogQuery(unicode, log + [op] + later, q, now, defaultBase, offset))
    ensures exists p, rate ::
              && p in points && IsShownAs(StoredMicros(op.date), rate, p)
              && (NeverSetAgain(later, op, ToUpper(unicode, q.currency)) ==>
                    rate == op.rates[ToUpper(unicode, q.currency)])
  {
    hide Shows, ParseRateQuery, LogAnswer, IsShownAs, ToUpper, ParseDay, Resolved, IsImage;
    var d, asked := StoredMicros(op.date), QueryAsked(unicode, q, now, defaultBase, offset);
    TypedDatesAreBounds(unicode, q, now, defaultBase, offset);
    SavedIsServed(log, op, later, asked);
    var answer := LogAnswer(log + [op] + later, asked);
    var p := RowIsShown(points, answer, d);
    assert IsShownAs(d, answer[d], p);
  }

  lemma RowIsShown(points: seq<RatePoint>, answer: map<int, Rate>, d: int) returns (p: RatePoint)
    requires Shows(points, answer) && d in answer
    ensures p in points && IsShownAs(d, answer[d], p)
  {
    hide FormatDay;
    var found: seq<CurrencyRate> :| Lists(found, answer) && IsImage(points, found);
    var i := ListsEach(found, answer, d);
    UtcDayOfMicros(d);
    p := points[i];
  }

  // ----- The session's time zone -----

  /** A save as the repository lets it through. */
  predicate Storable(op: SaveOp) {
    Marshals(op.rates) && Varchar10(op.base) == Some(op.base)
  }

  lemma StorableIsStored(op: SaveOp)
    ensures Storable(op) <==>
            exists date, base, rates, fate :: Stored(date, base, rates, fate) == Some(op)
  {
    if Storable(op) {
      assert Stored(op.date, op.base, op.rates, Committed) == Some(op);
    }
  }

  predicate WithinTyped(points: seq<RatePoint>, q: HttpQuery) {
    forall i | 0 <= i < |points| ::
      !StringLess(points[i].date, q.dateFrom) && !StringLess(q.dateTo, points[i].date)
  }

  /** Whatever is stored and asked, the dates shown lie between the dates typed. */
  ghost predicate ShowsWithinTyped(unicode: string -> string, defaultBase: string, offset: int) {
    forall log: seq<SaveOp>, q: HttpQuery, now: int, points: seq<RatePoint> |
      && (forall i | 0 <= i < |log| :: Storable(log[i]))
      && ParseRateQuery(q, now).Ok?
      && Shows(points, LogQuery(unicode, log, q, now, defaultBase, offset)) ::
      WithinTyped(points, q)
  }

  /** The dates shown stay within those typed, for every table and accepted query, exactly when the
    * session is on UTC. */
  lemma UtcSessionNeeded(unicode: string -> string, defaultBase: string, offset: int)
    ensures ShowsWithinTyped(unicode, defaultBase, offset) <==> offset == 0
  {
    hide ParseRateQuery, Shows, LogQuery, StringLess;
    if offset == 0 {
      forall log: seq<SaveOp>, q: HttpQuery, now: int, points: seq<RatePoint> |
        && (forall i | 0 <= i < |log| :: Storable(log[i]))
        && ParseRateQuery(q, now).Ok?
        && Shows(points, LogQuery(unicode, log, q, now, defaultBase, offset))
        ensures WithinTyped(points, q)
      {
        forall i | 0 <= i < |points|
          ensures !StringLess(points[i].date, q.dateFrom) && !StringLess(q.dateTo, points[i].date)
        {
          ShownDatesWithinBounds(unicode, log, q, now, defaultBase, points, i);
        }
      }
    } else {
      var log, q, now, points := StrayDate(unicode, defaultBase, offset);
    }
  }

  const FIRST_OF_MAY := 19844  // 2024-05-01

  lemma FirstOfMay()
    ensures ParseDay("2024-05-01") == Some(FIRST_OF_MAY)
  {
    ReadsFirstOfMay("2024-05-01");
    hide ReadCivil, DateShape;
  }

  lemma ReadsFirstOfMay(s: string)
    requires s == "2024-05-01"
    ensures DateShape(s) && ReadCivil(s) == Civil(2024, 5, 1)
  {
    assert s[0] == '2' && s[1] == '0' && s[2] == '2' && s[3] == '4' && s[5] == '0' && s[6] == '5';
    assert s[4] == '-' && s[7] == '-' && s[8] == '0' && s[9] == '1';
  }

  /** Off UTC, a stored EUR/USD rate is shown under a day that was not asked for: that of the first
    * microsecond of the session's day, or of its last one. */
  lemma StrayDate(unicode: string -> string, defaultBase: string, offset: int)
    returns (log: seq<SaveOp>, q: HttpQuery, now: int, points: seq<RatePoint>)
    requires offset != 0
    ensures q == HttpQuery("USD", "2024-05-01", "2024-05-01", "EUR") && ParseRateQuery(q, now).Ok?
    ensures |log| == 1 && log[0].base == "EUR" && log[0].rates == map["USD" := Finite(1)] && Storable(log[0])
    ensures Shows(points, LogQuery(unicode, log, q, now, defaultBase, offset))
    ensures |points| == 1 && !WithinTyped(points, q)
  {
    hide ParseRateQuery, Resolved, QueryOf, LogAnswer, Lists, StringLess, FormatDay, DateText;
    var day := FIRST_OF_MAY;
    var d := if offset > 0 then day * MICROS_PER_DAY - offset else (day + 1) * MICROS_PER_DAY - 1 - offset;
    log := [SaveOp(d * 1000, "EUR", map["USD" := Finite(1)])];
    q := EurUsdQuery();
    now := Midnight(day);
    EurUsdIsAsked(unicode, defaultBase, offset);
    StrayDay(day, d, offset);
    OnlyRow(log[0], Query("USD", "EUR", day, day, offset), d);
    var found := [CurrencyRate(d, Finite(1))];
    points := [PointOf(found[0])];
    assert IsImage(points, found);
    StrayText(d, day);
  }

  function EurUsdQuery(): HttpQuery { HttpQuery("USD", "2024-05-01", "2024-05-01", "EUR") }

  /** On that day the gateway accepts the query and asks the table for EUR rows and the USD rate. */
  lemma EurUsdIsAsked(unicode: string -> string, defaultBase: string, offset: int)
    ensures ParseRateQuery(EurUsdQuery(), Midnight(FIRST_OF_MAY)).Ok?
    ensures var pq := ParseRateQuery(EurUsdQuery(), Midnight(FIRST_OF_MAY)).value;
      QueryOf(Resolved(unicode, ToRequest(pq), defaultBase), offset) ==
      Query("USD", "EUR", FIRST_OF_MAY, FIRST_OF_MAY, offset)
    ensures FormatDay(FIRST_OF_MAY) == "2024-05-01"
  {
    FirstOfMay();
    EurUsdIsAccepted();
    UpperCodes(unicode);
    hide ParseRateQuery, ParseDay, FormatDay, Resolved, ToUpper;
    TypedDatesAreBounds(unicode, EurUsdQuery(), Midnight(FIRST_OF_MAY), defaultBase, offset);
  }

  lemma EurUsdIsAccepted()
    ensures ParseRateQuery(EurUsdQuery(), Midnight(FIRST_OF_MAY)).Ok?
  {
    FirstOfMay();
    hide ParseDay;
  }

  lemma UpperCodes(unicode: string -> string)
    ensures ToUpper(unicode, "USD") == "USD" && ToUpper(unicode, "EUR") == "EUR"
  {
    assert AsciiUpper("USD") == "USD" && AsciiUpper("EUR") == "EUR";
  }

  lemma StrayDay(day: int, d: int, offset: int)
    requires offset != 0
    requires d == if offset > 0 then day * MICROS_PER_DAY - offset else (day + 1) * MICROS_PER_DAY - 1 - offset
    ensures (d + offset) / MICROS_PER_DAY == day && UtcDay(d) != day && StoredMicros(d * 1000) == d
  {
    UtcDayOfMicros(d);
  }

  /** A log of one save answers a query that matches it with that save's rate only. */
  lemma OnlyRow(op: SaveOp, q: Query, d: int)
    requires StoredMicros(op.date) == d && op.base == q.base && q.target in op.rates && InInterval(d, q)
    ensures LogAnswer([op], q) == map[d := op.rates[q.target]]
    ensures Lists([CurrencyRate(d, op.rates[q.target])], LogAnswer([op], q))
  {
    assert DatesIn([op]) == {d} by {
      assert [op][0] == op;
    }
    assert [CurrencyRate(d, op.rates[q.target])][0].date == d;
  }

  lemma StrayText(d: int, day: int)
    requires InYears(day) && UtcDay(d) != day
    ensures StringLess(DateText(d * 1000), FormatDay(day)) || StringLess(FormatDay(day), DateText(d * 1000))
  {
    if InYears(UtcDay(d)) {
      FormatKeepsOrder(UtcDay(d), day);
      FormatKeepsOrder(day, UtcDay(d));
    } else {
      ParseUndoesFormat(day);
    }
  }

  // ----- Case -----

  datatype Code = InvalidArgument | NotFound | Unknown

  /** What the backend answers to a request, over this log: `found` is the scan it made. */
  ghost predicate BackendReply(unicode: string -> string, log: seq<SaveOp>, offset: int, defaultBase: string,
                               req: GetRateRequest, fails: bool,
                               r: Result<GetRateResponse, Code>, found: seq<CurrencyRate>)
  {
    if RateRequestValidation(req).Some? then r == Err(InvalidArgument)
    else if fails then r == Err(Unknown)
    else
      var asked := Resolved(unicode, req, defaultBase);
      var answer := LogAnswer(log, QueryOf(asked, offset));
      && Lists(found, answer)
      && (answer == map[] <==> r == Err(NotFound))
      && (answer != map[] ==> r.Ok? && r.value.currency == asked.target && AreRecords(r.value.rates, found))
  }

  /** What the backend answers a valid request with, read off the request: the upper-cased currency, and
    * as records exactly the rows of the base whose day lies between the two timestamps' days, with the
    * last rate written for the currency; NotFound when there is none. */
  lemma BackendReplyExactly(unicode: string -> string, log: seq<SaveOp>, offset: int, defaultBase: string,
                            req: GetRateRequest, r: Result<GetRateResponse, Code>, found: seq<CurrencyRate>,
                            d: int, rate: Rate)
    requires BackendReply(unicode, log, offset, defaultBase, req, false, r, found) && RateRequestValidation(req).None?
    ensures req.dataFrom.Some? && req.dateTo.Some?
    ensures r.Ok? || r == Err(NotFound)
    ensures r.Ok? ==> r.value.currency == ToUpper(unicode, req.currency) && r.value.rates != []
    ensures r.Ok? ==> forall x | x in r.value.rates :: exists t :: IsRecordAt(x, t, x.rate)
    ensures var base := ToUpper(unicode, if req.baseCurrency == "" then defaultBase else req.baseCurrency);
      (r.Ok? && exists x :: x in r.value.rates && IsRecordAt(x, d, rate)) <==>
      && req.dataFrom.value.seconds / 86_400 <= (d + offset) / MICROS_PER_DAY <= req.dateTo.value.seconds / 86_400
      && LastWrite(log, RowKey(d, base), ToUpper(unicode, req.currency)) == Some(rate)
  {
    hide LogAnswer, LastWrite, ToUpper, ToRecord, DayOf, AsTime;
    SecondsGiveTheDay(req.dataFrom.value);
    SecondsGiveTheDay(req.dateTo.value);
    var asked := QueryOf(Resolved(unicode, req, defaultBase), offset);
    EmptyAnswer(found, LogAnswer(log, asked));
    hide Lists;
    ListedRows(found, log, asked, CurrencyRate(d, rate));
    if r.Ok? {
      RecordsAreRows(r.value.rates, found, d, rate);
    }
  }

  lemma SecondsGiveTheDay(t: Timestamp)
    requires 0 <= t.nanos < NS_PER_SECOND
    ensures DayOf(AsTime(t)) == t.seconds / 86_400
  {
  }

  lemma RecordsAreRows(records: seq<RateRecord>, found: seq<CurrencyRate>, d: int, rate: Rate)
    requires AreRecords(records, found)
    ensures (exists x :: x in records && IsRecordAt(x, d, rate)) <==>
            CurrencyRate(d, rate) in found
    ensures forall x | x in records :: exists t :: IsRecordAt(x, t, x.rate)
  {
    hide AreRecords, ToRecord;
    forall i | 0 <= i < |found|
      ensures i < |records| && IsRecordAt(records[i], found[i].date, found[i].rate)
    {
      RecordIsRow(records, found, i);
    }
    RecordsAreAsMany(records, found);
    if CurrencyRate(d, rate) in found {
      var i :| 0 <= i < |found| && found[i] == CurrencyRate(d, rate);
      assert records[i] in records && IsRecordAt(records[i], d, rate);
    }
  }

  predicate IsRecordAt(x: RateRecord, d: int, rate: Rate) {
    x.rate == rate && x.date.seconds * 1_000_000_000 + x.date.nanos == d * 1000
  }

  lemma RecordIsRow(records: seq<RateRecord>, found: seq<CurrencyRate>, i: nat)
    requires AreRecords(records, found) && i < |found|
    ensures i < |records| && IsRecordAt(records[i], found[i].date, found[i].rate)
  {
    TimestampKeepsInstant(found[i].date * 1000);
  }

  lemma RecordsAreAsMany(records: seq<RateRecord>, found: seq<CurrencyRate>)
    requires AreRecords(records, found)
    ensures |records| == |found|
  {
  }

  predicate AreRecords(records: seq<RateRecord>, found: seq<CurrencyRate>) {
    |records| == |found| && forall i | 0 <= i < |found| :: records[i] == ToRecord(found[i])
  }

  lemma RecordsWithout(left: seq<CurrencyRate>, r: CurrencyRate, right: seq<CurrencyRate>, y: seq<RateRecord>)
    returns (rest: seq<RateRecord>)
    requires AreRecords(y, left + [r] + right)
    ensures AreRecords(rest, left + right) && multiset(y) == multiset(rest) + multiset{ToRecord(r)}
  {
    var k := |left|;
    assert y == y[..k] + [y[k]] + y[k + 1..];
    rest := y[..k] + y[k + 1..];
    assert (left + [r] + right)[k] == r;
    assert forall i | 0 <= i < |rest| :: (left + right)[i] == (left + [r] + right)[if i < k then i else i + 1];
  }

  lemma {:induction false} SameRecords(a: seq<CurrencyRate>, b: seq<CurrencyRate>,
                                       x: seq<RateRecord>, y: seq<RateRecord>)
    requires multiset(a) == multiset(b) && AreRecords(x, a) && AreRecords(y, b)
    ensures multiset(x) == multiset(y)
    decreases |a|
  {
    if a == [] {
      assert |multiset(b)| == |b|;
    } else {
      var r := a[0];
      var la, ra := SplitAt(a, r);
      var lb, rb := SplitAt(b, r);
      hide AreRecords;
      var x' := RecordsWithout(la, r, ra, x);
      var y' := RecordsWithout(lb, r, rb, y);
      SameRecords(la + ra, lb + rb, x', y');
    }
  }

  /** Two requests equal up to the case of ASCII codes ask the table for the same thing. */
  lemma CaseDoesNotMatter(unicode: string -> string, a: GetRateRequest, b: GetRateRequest, defaultBase: string)
    requires a.dataFrom.Some? && a.dateTo.Some? && a.dataFrom == b.dataFrom && a.dateTo == b.dateTo
    requires IsAscii(a.currency) && IsAscii(b.currency) && EqualFold(a.currency, b.currency)
    requires IsAscii(a.baseCurrency) && IsAscii(b.baseCurrency) && EqualFold(a.baseCurrency, b.baseCurrency)
    ensures Resolved(unicode, a, defaultBase) == Resolved(unicode, b, defaultBase)
    ensures RateRequestValidation(a) == RateRequestValidation(b)
  {
    UpperIdentifiesCase(unicode, a.currency, b.currency);
    UpperIdentifiesCase(unicode, a.baseCurrency, b.baseCurrency);
  }

  /** The backend's replies to two requests equal up to the case of ASCII codes are the same error, or
    * carry the same currency and the same rates, in whatever order the scans found them. */
  lemma CaseDoesNotChangeReply(unicode: string -> string, log: seq<SaveOp>, offset: int, defaultBase: string,
                               fails: bool, a: GetRateRequest, b: GetRateRequest,
                               ra: Result<GetRateResponse, Code>, fa: seq<CurrencyRate>,
                               rb: Result<GetRateResponse, Code>, fb: seq<CurrencyRate>)
    requires BackendReply(unicode, log, offset, defaultBase, a, fails, ra, fa)
    requires BackendReply(unicode, log, offset, defaultBase, b, fails, rb, fb)
    requires a.dataFrom == b.dataFrom && a.dateTo == b.dateTo
    requires IsAscii(a.currency) && IsAscii(b.currency) && EqualFold(a.currency, b.currency)
    requires IsAscii(a.baseCurrency) && IsAscii(b.baseCurrency) && EqualFold(a.baseCurrency, b.baseCurrency)
    ensures match ra
            case Err(code) => rb == Err(code)
            case Ok(x) => rb.Ok? && rb.value.currency == x.currency && multiset(rb.value.rates) == multiset(x.rates)
  {
    hide Lists, LogAnswer, EqualFold, IsAscii, Resolved, ValidTimestamp, AsTime, QueryOf;
    FoldKeepsEmpty(a.currency, b.currency);
    if RateRequestValidation(a).None? && !fails {
      CaseDoesNotMatter(unicode, a, b, defaultBase);
      var answer := LogAnswer(log, QueryOf(Resolved(unicode, a, defaultBase), offset));
      ListsIsMultiset(fa, answer);
      ListsIsMultiset(fb, answer);
      if answer != map[] {
        SameRecords(fa, fb, ra.value.rates, rb.value.rates);
      }
    }
  }

  lemma FoldKeepsEmpty(a: string, b: string)
    requires EqualFold(a, b)
    ensures a == "" <==> b == ""
  {
  }

  // ----- What the worker stores -----

  lemma NotADate(s: string)
    requires |s| != 10
    ensures ParseDay(s).None?
  {
  }

  /** What the worker stores is never what the gateway asks for: in every world the worker's jobs
    * alone can reach, every accepted query for an ASCII currency has an empty answer. */
  lemma WorkerRatesAreNotServed(unicode: string -> string, c: Config, ms: seq<Move>, q: HttpQuery, now: int,
                                defaultBase: string, offset: int)
    requires WorldExec(c, Empty(), ms).Some?
    requires ParseRateQuery(q, now).Ok? && IsAscii(q.currency)
    ensures LogQuery(unicode, WorldExec(c, Empty(), ms).value.log, q, now, defaultBase, offset) == map[]
  {
    hide WorldExec, LogAnswer, TableAnswer, ParseDay, ToUpper;
    UpperTwice(unicode, q.currency);
    NotADate(ToUpper(unicode, q.currency));
    OnlyDatesAreStored(c, ms, QueryOf(Resolved(unicode, ToRequest(ParseRateQuery(q, now).value), defaultBase), offset));
  }
}
