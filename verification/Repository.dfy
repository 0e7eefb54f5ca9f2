/** `PostgresRepository`: the table as the database holds it, a heap of rows under a unique index on
  * (date, base_currency), proved to agree with the log of everything committed to it.
  */
module Repository {
  import opened Outcomes
  import opened Calendar
  import opened Errors
  import opened Store
  import opened Dto

  datatype Row = Row(key: RowKey, rates: Rates)

  /** What becomes of a statement: a lost acknowledgement is an error for a row that was stored. */
  datatype Fate = Committed | Refused | Unacknowledged

  /** json.Marshal rejects a NaN or an infinity anywhere in the map. */
  predicate Marshals(rates: Rates) {
    forall c | c in rates :: rates[c].Finite?
  }

  /** Assignment to VARCHAR(10): only blanks may be cut off. */
  function Varchar10(s: string): Option<string> {
    if |s| <= 10 then Some(s)
    else if forall i | 10 <= i < |s| :: s[i] == ' ' then Some(s[..10])
    else None
  }

  /** What is stored is the text less blanks past the tenth place; anything else there is refused. */
  lemma Varchar10Exactly(s: string, t: string)
    ensures Varchar10(s) == Some(t) <==>
            && |t| <= 10 && t <= s && (|t| < 10 ==> t == s)
            && forall i | |t| <= i < |s| :: s[i] == ' '
  {
    if t <= s {
      assert t == s[..|t|];
      assert |t| == |s| ==> t == s;
    }
  }

  const MARSHAL_ERROR := Wrapped("failed to marshal currency rates", Plain("json"))
  const SAVE_ERROR := Wrapped("failed to save exchange rates", Plain("pq"))
  const QUERY_ERROR := Wrapped("failed to query exchange rates", Plain("pq"))

  /** The save that reaches the table, if any. */
  function Stored(date: int, base: string, rates: Rates, fate: Fate): Option<SaveOp> {
    if !Marshals(rates) || Varchar10(base).None? || fate.Refused? then None
    else Some(SaveOp(date, Varchar10(base).value, rates))
  }

  function SaveResult(date: int, base: string, rates: Rates, fate: Fate): Option<Error> {
    if !Marshals(rates) then Some(MARSHAL_ERROR)
    else if Varchar10(base).None? || !fate.Committed? then Some(SAVE_ERROR)
    else None
  }

  predicate UniqueKeys(rows: seq<Row>) {
    forall i, j | 0 <= i < j < |rows| :: rows[i].key != rows[j].key
  }

  function TableOf(rows: seq<Row>): Table {
    if rows == [] then map[]
    else TableOf(rows[..|rows| - 1])[rows[|rows| - 1].key := rows[|rows| - 1].rates]
  }

  /** A date literal: PostgreSQL has no year 0000. */
  function SqlDate(s: string): Option<int> {
    match ParseDay(s)
    case Some(day) => if -719162 <= day then Some(day) else None
    case None => None
  }

  predicate SqlDay(day: int) { -719162 <= day && InYears(day) }

  function QueryOf(r: Request, offset: int): Query {
    Query(r.target, r.base, DayOf(r.from), DayOf(r.to), offset)
  }

  predicate Answerable(r: Request) {
    SqlDay(DayOf(r.from)) && SqlDay(DayOf(r.to))
  }

  lemma SqlDateIsTheDay(day: int)
    requires InYears(day)
    ensures SqlDate(FormatDay(day)) == if SqlDay(day) then Some(day) else None
  {
    ParseUndoesFormat(day);
  }

  class PostgresRepository {
    var rows: seq<Row>
    const offset: int  // of the session's time zone
    ghost var log: seq<SaveOp>

    /** The unique index holds, and the rows are the merged log. */
    ghost predicate Valid()
      reads this
    {
      UniqueKeys(rows) && TableOf(rows) == Replay(log)
    }

    constructor (offset: int)
      ensures Valid() && log == [] && this.offset == offset
    {
      rows := [];
      this.offset := offset;
      log := [];
    }

    /** One upsert, or none: a failed save leaves the rows alone unless only its reply was lost. */
    method Save(date: int, base: string, rates: Rates, fate: Fate) returns (err: Option<Error>)
      requires Valid()
      modifies this
      ensures Valid()
      ensures err == SaveResult(date, base, rates, fate)
      ensures err == None <==>
              (forall c | c in rates :: rates[c].Finite?) && Varchar10(base).Some? && fate == Committed
      ensures err == None ==> log == old(log) + [SaveOp(date, Varchar10(base).value, rates)]
      ensures if (forall c | c in rates :: rates[c].Finite?) && Varchar10(base).Some? && fate != Refused
              then log == old(log) + [SaveOp(date, Varchar10(base).value, rates)]
              else log == old(log) && rows == old(rows)
      ensures match Stored(date, base, rates, fate)
              case None => log == old(log) && rows == old(rows)
              case Some(op) => log == old(log) + [op]
    {
      hide Replay, TableOf, Varchar10, KeyOf;
      if !Marshals(rates) {
        return Some(MARSHAL_ERROR);
      }
      if Varchar10(base).None? || fate.Refused? {
        return Some(SAVE_ERROR);
      }
      var op := SaveOp(date, Varchar10(base).value, rates);
      var key := KeyOf(op);
      ReplaySnoc(log, op);
      if exists i | 0 <= i < |rows| :: rows[i].key == key {
        var i :| 0 <= i < |rows| && rows[i].key == key;
        RewriteRow(rows, i, rows[i].rates + rates);
        rows := rows[i := Row(key, rows[i].rates + rates)];
      } else {
        AppendRow(rows, Row(key, rates));
        rows := rows + [Row(key, rates)];
        assert map[] + rates == rates;
      }
      log := log + [op];
      err := if fate.Committed? then None else Some(SAVE_ERROR);
    }

    /** A scan in no particular order lists exactly the last-writer-wins answer of the log. */
    method FindInInterval(dto: CurrencyRequestDTO, fails: bool) returns (r: Result<seq<CurrencyRate>, Error>)
      requires Valid()
      ensures r.Ok? <==> !fails && Answerable(dto.Value())
      ensures r.Ok? <==>
              && !fails
              && -719162 <= dto.dateFrom / NS_PER_DAY < 2932897  // years 0001 to 9999
              && -719162 <= dto.dateTo / NS_PER_DAY < 2932897
      ensures r.Ok? ==> Lists(r.value, LogAnswer(log, QueryOf(dto.Value(), offset)))
      ensures r.Ok? ==> forall x: CurrencyRate :: x in r.value <==>
                && dto.dateFrom / NS_PER_DAY <= (x.date + offset) / MICROS_PER_DAY <= dto.dateTo / NS_PER_DAY
                && LastWrite(log, RowKey(x.date, dto.baseCurrency), dto.targetCurrency) == Some(x.rate)
      ensures r.Ok? ==> forall i, j | 0 <= i < j < |r.value| :: r.value[i].date != r.value[j].date
      ensures r.Err? ==> r.error == QUERY_ERROR
    {
      var from, to := DayOf(dto.dateFrom), DayOf(dto.dateTo);
      hide LogAnswer, TableAnswer, LastWrite, Replay, TableOf, UniqueKeys, Lists, FormatDay, ParseDay, SqlDate;
      if fails || !InYears(from) || !InYears(to) {
        return Err(QUERY_ERROR);
      }
      var lower, upper := SqlDate(FormatDay(from)), SqlDate(FormatDay(to));
      SqlDateIsTheDay(from);
      SqlDateIsTheDay(to);
      if lower.None? || upper.None? {
        return Err(QUERY_ERROR);
      }
      var q := Query(dto.targetCurrency, dto.baseCurrency, lower.value, upper.value, offset);
      var found := Scan(q);
      LogRefinement(log, q);
      forall x: CurrencyRate {
        ListedRows(found, log, q, x);
      }
      r := Ok(found);
    }

    /** The rows come in the order the heap has them; what is promised does not depend on it. */
    method Scan(q: Query) returns (found: seq<CurrencyRate>)
      requires Valid()
      ensures Lists(found, TableAnswer(TableOf(rows), q))
    {
      found := [];
      var n := 0;
      while n < |rows|
        invariant n <= |rows|
        invariant Lists(found, TableAnswer(TableOf(rows[..n]), q))
      {
        var row := rows[n];
        NextRow(rows, n, q);
        if Matches(row, q) {
          var r := CurrencyRate(row.key.date, row.rates[q.target]);
          ListsSnoc(found, TableAnswer(TableOf(rows[..n]), q), r);
          found := found + [r];
        }
        n := n + 1;
      }
      assert rows[..n] == rows;
    }
  }

  predicate Matches(row: Row, q: Query) {
    row.key.base == q.base && InInterval(row.key.date, q) && q.target in row.rates
  }

  lemma {:induction false} KeysOfTable(rows: seq<Row>, k: RowKey)
    ensures k in TableOf(rows) <==> exists i :: 0 <= i < |rows| && rows[i].key == k
  {
    if rows != [] {
      KeysOfTable(rows[..|rows| - 1], k);
      assert forall i | 0 <= i < |rows| - 1 :: rows[..|rows| - 1][i] == rows[i];
    }
  }

  lemma {:induction false} RewriteRow(rows: seq<Row>, i: nat, rates: Rates)
    requires UniqueKeys(rows) && i < |rows|
    ensures rows[i].key in TableOf(rows) && TableOf(rows)[rows[i].key] == rows[i].rates
    ensures TableOf(rows[i := Row(rows[i].key, rates)]) == TableOf(rows)[rows[i].key := rates]
  {
    var n := |rows| - 1;
    var updated := rows[i := Row(rows[i].key, rates)];
    if i < n {
      assert updated[..n] == rows[..n][i := Row(rows[i].key, rates)] && updated[n] == rows[n];
      RewriteRow(rows[..n], i, rates);
      UpdatesCommute(TableOf(rows[..n]), rows[i].key, rates, rows[n].key, rows[n].rates);
    } else {
      assert updated[..n] == rows[..n];
    }
  }

  lemma UpdatesCommute(t: Table, j: RowKey, x: Rates, k: RowKey, y: Rates)
    requires j != k
    ensures t[j := x][k := y] == t[k := y][j := x]
  {
  }

  lemma AppendRow(rows: seq<Row>, row: Row)
    requires forall i | 0 <= i < |rows| :: rows[i].key != row.key
    ensures row.key !in TableOf(rows)
    ensures TableOf(rows + [row]) == TableOf(rows)[row.key := row.rates]
  {
    KeysOfTable(rows, row.key);
    assert (rows + [row])[..|rows|] == rows;
  }

  /** A row with a new key adds its own date to an answer, or nothing. */
  lemma AnswerExtends(t: Table, row: Row, q: Query)
    requires row.key !in t
    ensures Matches(row, q) ==> row.key.date !in TableAnswer(t, q)
    ensures TableAnswer(t[row.key := row.rates], q) ==
            if Matches(row, q) then TableAnswer(t, q)[row.key.date := row.rates[q.target]] else TableAnswer(t, q)
  {
    var t' := t[row.key := row.rates];
    forall d
      ensures d in TableAnswer(t', q) <==> d in TableAnswer(t, q) || (Matches(row, q) && d == row.key.date)
      ensures d in TableAnswer(t, q) ==> d in TableAnswer(t', q) && TableAnswer(t', q)[d] == TableAnswer(t, q)[d]
      ensures Matches(row, q) && d == row.key.date ==>
              d !in TableAnswer(t, q) && d in TableAnswer(t', q) && TableAnswer(t', q)[d] == row.rates[q.target]
    {
      AnswerIsLookup(t, q, d);
      AnswerIsLookup(t', q, d);
      hide TableAnswer;
      assert Matches(row, q) && d == row.key.date ==> row.key == RowKey(d, q.base);
    }
  }

  lemma NextRow(rows: seq<Row>, n: nat, q: Query)
    requires UniqueKeys(rows) && n < |rows|
    ensures Matches(rows[n], q) ==> rows[n].key.date !in TableAnswer(TableOf(rows[..n]), q)
    ensures TableAnswer(TableOf(rows[..n + 1]), q) ==
            if Matches(rows[n], q) then TableAnswer(TableOf(rows[..n]), q)[rows[n].key.date := rows[n].rates[q.target]]
            else TableAnswer(TableOf(rows[..n]), q)
  {
    assert rows[..n + 1][..n] == rows[..n];
    KeysOfTable(rows[..n], rows[n].key);
    AnswerExtends(TableOf(rows[..n]), rows[n], q);
  }

  lemma ListsSnoc(found: seq<CurrencyRate>, answer: map<int, Rate>, r: CurrencyRate)
    requires Lists(found, answer) && r.date !in answer
    ensures Lists(found + [r], answer[r.date := r.rate])
  {
    var more := found + [r];
    assert more[|found|] == r;
    forall d | d in answer
      ensures exists i :: 0 <= i < |more| && more[i].date == d
    {
      var i :| 0 <= i < |found| && found[i].date == d;
      assert more[i].date == d;
    }
  }
}
