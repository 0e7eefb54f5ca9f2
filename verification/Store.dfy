/** The exchange_rates table on values: what one Save does to it, what one query answers, and the
  * append-only log of saves that it must agree with.
  */
module Store {
  import opened Outcomes
  import opened Calendar

  /** Rate values stay opaque, except that JSON has no NaN and no infinities. */
  datatype Rate = Finite(bits: int) | NotANumber | Infinite

  type Rates = map<string, Rate>

  datatype RowKey = RowKey(date: int, base: string)  // date in microseconds, as TIMESTAMPTZ keeps it

  type Table = map<RowKey, Rates>

  datatype SaveOp = SaveOp(date: int, base: string, rates: Rates)  // date in nanoseconds

  datatype CurrencyRate = CurrencyRate(date: int, rate: Rate)

  /** The bounds are days; `offset` is the session time zone in microseconds east of UTC. */
  datatype Query = Query(target: string, base: string, from: int, to: int, offset: int)

  const MICROS_PER_DAY := 86_400_000_000

  /** A TIMESTAMPTZ column rounds to the nearest microsecond. */
  function StoredMicros(ns: int): int { (ns + 500) / 1000 }

  function KeyOf(op: SaveOp): RowKey { RowKey(StoredMicros(op.date), op.base) }

  // ----- Saving -----

  /** INSERT ... ON CONFLICT (date, base_currency) DO UPDATE SET currency_rates = old || new. */
  function Upsert(t: Table, op: SaveOp): Table {
    t[KeyOf(op) := (if KeyOf(op) in t then t[KeyOf(op)] else map[]) + op.rates]
  }

  /** The table a log of saves builds from the empty one. */
  function Replay(log: seq<SaveOp>): Table {
    if log == [] then map[] else Upsert(Replay(log[..|log| - 1]), log[|log| - 1])
  }

  // ----- Querying -----

  /** `date::date BETWEEN from AND to`, in the session's time zone. */
  predicate InInterval(micros: int, q: Query) {
    q.from <= (micros + q.offset) / MICROS_PER_DAY <= q.to
  }

  function Lookup(t: Table, k: RowKey, target: string): Option<Rate> {
    if k in t && target in t[k] then Some(t[k][target]) else None
  }

  /** The table's answer: for every matching row its date and the target's rate. */
  function TableAnswer(t: Table, q: Query): map<int, Rate> {
    map k | k in t && k.base == q.base && InInterval(k.date, q) && q.target in t[k] :: k.date := t[k][q.target]
  }

  /** The rate of the last save to row `k` that carries `target`, reading the log backwards. */
  function LastWrite(log: seq<SaveOp>, k: RowKey, target: string): Option<Rate> {
    if log == [] then None
    else
      var op := log[|log| - 1];
      if KeyOf(op) == k && target in op.rates then Some(op.rates[target])
      else LastWrite(log[..|log| - 1], k, target)
  }

  function DatesIn(log: seq<SaveOp>): set<int> {
    set i | 0 <= i < |log| :: StoredMicros(log[i].date)
  }

  /** The log's answer, last writer wins. */
  function LogAnswer(log: seq<SaveOp>, q: Query): map<int, Rate> {
    map d | d in DatesIn(log) && InInterval(d, q) && LastWrite(log, RowKey(d, q.base), q.target).Some? ::
      LastWrite(log, RowKey(d, q.base), q.target).value
  }

  lemma {:induction false} TableFollowsLog(log: seq<SaveOp>, k: RowKey, target: string)
    ensures Lookup(Replay(log), k, target) == LastWrite(log, k, target)
    ensures LastWrite(log, k, target).Some? ==> k.date in DatesIn(log)
  {
    if log != [] {
      TableFollowsLog(log[..|log| - 1], k, target);
      assert DatesIn(log[..|log| - 1]) <= DatesIn(log);
      assert StoredMicros(log[|log| - 1].date) in DatesIn(log);
    }
  }

  /** A log's last write is that of the last save, at this microsecond and base, with the target. */
  lemma {:induction false} LastWriteIsLast(log: seq<SaveOp>, k: RowKey, target: string, rate: Rate)
    ensures LastWrite(log, k, target) == Some(rate) <==>
            exists i :: && 0 <= i < |log| && Writes(log[i], k, target) && log[i].rates[target] == rate
                        && forall j | i < j < |log| :: !Writes(log[j], k, target)
  {
    if log != [] {
      var n := |log| - 1;
      LastWriteIsLast(log[..n], k, target, rate);
      assert forall i | 0 <= i < n :: log[..n][i] == log[i];
    }
  }

  /** The save sets this rate of this row: its time rounds to the row's microsecond. */
  predicate Writes(op: SaveOp, k: RowKey, target: string) {
    -500 <= op.date - 1000 * k.date < 500 && op.base == k.base && target in op.rates
  }

  lemma AnswerIsLookup(t: Table, q: Query, d: int)
    ensures d in TableAnswer(t, q) <==> InInterval(d, q) && Lookup(t, RowKey(d, q.base), q.target).Some?
    ensures d in TableAnswer(t, q) ==> TableAnswer(t, q)[d] == Lookup(t, RowKey(d, q.base), q.target).value
  {
    if InInterval(d, q) && Lookup(t, RowKey(d, q.base), q.target).Some? {
      assert RowKey(d, q.base).date == d;
    }
  }

  /** Log refinement: after any sequence of saves, every query of the merged table gets the
    * last-writer-wins answer of the append-only log. */
  lemma LogRefinement(log: seq<SaveOp>, q: Query)
    ensures TableAnswer(Replay(log), q) == LogAnswer(log, q)
  {
    var t, l := TableAnswer(Replay(log), q), LogAnswer(log, q);
    forall d
      ensures d in t <==> d in l
      ensures d in t ==> t[d] == l[d]
    {
      AnswerIsLookup(Replay(log), q, d);
      TableFollowsLog(log, RowKey(d, q.base), q.target);
    }
  }

  /** What the log's answer holds: the rows of the base whose day lies in the closed interval, each with
    * the last rate written for the target. */
  lemma LogAnswerExactly(log: seq<SaveOp>, q: Query, d: int)
    ensures d in LogAnswer(log, q) <==>
            q.from <= (d + q.offset) / MICROS_PER_DAY <= q.to && LastWrite(log, RowKey(d, q.base), q.target).Some?
    ensures d in LogAnswer(log, q) ==> LogAnswer(log, q)[d] == LastWrite(log, RowKey(d, q.base), q.target).value
  {
    TableFollowsLog(log, RowKey(d, q.base), q.target);
  }

  // ----- A scan lists an answer -----

  /** The rows a scan returns, in whatever order: every answered date once, with its rate. */
  ghost predicate Lists(found: seq<CurrencyRate>, answer: map<int, Rate>) {
    && (forall i | 0 <= i < |found| :: found[i].date in answer && answer[found[i].date] == found[i].rate)
    && (forall i, j | 0 <= i < j < |found| :: found[i].date != found[j].date)
    && (forall d | d in answer :: exists i :: 0 <= i < |found| && found[i].date == d)
  }

  lemma ListedRows(found: seq<CurrencyRate>, log: seq<SaveOp>, q: Query, r: CurrencyRate)
    requires Lists(found, LogAnswer(log, q))
    ensures r in found <==>
            && q.from <= (r.date + q.offset) / MICROS_PER_DAY <= q.to
            && LastWrite(log, RowKey(r.date, q.base), q.target) == Some(r.rate)
  {
    LogAnswerExactly(log, q, r.date);
    hide LogAnswer, LastWrite;
    if r.date in LogAnswer(log, q) && LogAnswer(log, q)[r.date] == r.rate {
      var i :| 0 <= i < |found| && found[i].date == r.date;
      assert found[i] == r;
    }
  }

  function Entries(answer: map<int, Rate>): set<CurrencyRate> {
    set d | d in answer :: CurrencyRate(d, answer[d])
  }

  /** A listing is the answer as a multiset, so all scan orders return the same multiset. */
  lemma ListsIsMultiset(found: seq<CurrencyRate>, answer: map<int, Rate>)
    ensures Lists(found, answer) <==> multiset(found) == multiset(Entries(answer))
  {
    if Lists(found, answer) {
      forall r: CurrencyRate
        ensures multiset(found)[r] == multiset(Entries(answer))[r]
      {
        if r in Entries(answer) {
          var i :| 0 <= i < |found| && found[i].date == r.date;
          OccursOnce(found, i);
        } else {
          assert r !in found;
        }
      }
    }
    if multiset(found) == multiset(Entries(answer)) {
      forall i | 0 <= i < |found|
        ensures found[i] in Entries(answer)
      {
        assert found[i] in multiset(found);
      }
      forall i, j | 0 <= i < j < |found|
        ensures found[i].date != found[j].date
      {
        if found[i].date == found[j].date {
          OccursTwice(found, i, j);
        }
      }
      forall d | d in answer
        ensures exists i :: 0 <= i < |found| && found[i].date == d
      {
        assert CurrencyRate(d, answer[d]) in multiset(found);
      }
    }
  }

  lemma OccursOnce(found: seq<CurrencyRate>, i: nat)
    requires i < |found| && forall j, k | 0 <= j < k < |found| :: found[j].date != found[k].date
    ensures multiset(found)[found[i]] == 1
  {
    assert found == found[..i] + [found[i]] + found[i + 1..];
    assert found[i] !in found[..i] && found[i] !in found[i + 1..];
  }

  lemma OccursTwice(found: seq<CurrencyRate>, i: nat, j: nat)
    requires i < j < |found| && found[i] == found[j]
    ensures multiset(found)[found[i]] >= 2
  {
    assert found == found[..i] + [found[i]] + found[i + 1..j] + [found[j]] + found[j + 1..];
  }

  // ----- Algebra of saves and queries -----

  /** Adjacent intervals split an answer into two disjoint parts. */
  lemma IntervalsSplit(t: Table, q: Query, mid: int)
    requires q.from - 1 <= mid <= q.to
    ensures var left, right := TableAnswer(t, q.(to := mid)), TableAnswer(t, q.(from := mid + 1));
      && left.Keys !! right.Keys
      && TableAnswer(t, q) == left + right
  {
    var left, right := TableAnswer(t, q.(to := mid)), TableAnswer(t, q.(from := mid + 1));
    forall d
      ensures d in TableAnswer(t, q) <==> d in left + right
      ensures !(d in left && d in right)
      ensures d in TableAnswer(t, q) ==> TableAnswer(t, q)[d] == (left + right)[d]
    {
      AnswerIsLookup(t, q, d);
      AnswerIsLookup(t, q.(to := mid), d);
      AnswerIsLookup(t, q.(from := mid + 1), d);
    }
  }

  /** Two saves that write no rate differently. */
  ghost predicate Compatible(x: SaveOp, y: SaveOp) {
    KeyOf(x) == KeyOf(y) ==> forall c | c in x.rates && c in y.rates :: x.rates[c] == y.rates[c]
  }

  /** Two saves to one row are one save of the merge, right-biased. */
  lemma SavesMerge(t: Table, x: SaveOp, y: SaveOp)
    requires KeyOf(x) == KeyOf(y)
    ensures Upsert(Upsert(t, x), y) == Upsert(t, y.(rates := x.rates + y.rates))
  {
    var before := if KeyOf(x) in t then t[KeyOf(x)] else map[];
    assert before + x.rates + y.rates == before + (x.rates + y.rates);
  }

  /** Saves to one row commute exactly when their merge does not depend on its bias. */
  lemma SavesToOneRow(t: Table, x: SaveOp, y: SaveOp)
    requires KeyOf(x) == KeyOf(y)
    ensures Upsert(Upsert(t, x), y) == Upsert(Upsert(t, y), x) <==> x.rates + y.rates == y.rates + x.rates
  {
    SavesMerge(t, x, y);
    SavesMerge(t, y, x);
    var before := if KeyOf(x) in t then t[KeyOf(x)] else map[];
    SameSuffix(before, x.rates + y.rates, y.rates + x.rates);
    assert Upsert(t, y.(rates := x.rates + y.rates))[KeyOf(x)] == before + (x.rates + y.rates);
    assert Upsert(t, x.(rates := y.rates + x.rates))[KeyOf(x)] == before + (y.rates + x.rates);
  }

  lemma SameSuffix(before: Rates, a: Rates, b: Rates)
    requires a.Keys == b.Keys
    ensures before + a == before + b <==> a == b
  {
    if before + a == before + b {
      forall c | c in a
        ensures a[c] == b[c]
      {
        assert (before + a)[c] == a[c] && (before + b)[c] == b[c];
      }
    }
  }

  lemma BiasMatters(a: Rates, b: Rates)
    ensures a + b == b + a <==> forall c | c in a && c in b :: a[c] == b[c]
  {
    assert forall c | c in a && c in b :: (a + b)[c] == b[c] && (b + a)[c] == a[c];
    if forall c | c in a && c in b :: a[c] == b[c] {
      assert forall c | c in a + b :: (a + b)[c] == (b + a)[c];
    }
  }

  lemma DifferentRowsCommute(t: Table, x: SaveOp, y: SaveOp)
    requires KeyOf(x) != KeyOf(y)
    ensures Upsert(Upsert(t, x), y) == Upsert(Upsert(t, y), x)
  {
    hide KeyOf;
  }

  /** Two saves commute exactly when they touch different rows or agree on their common currencies. */
  lemma SavesCommuteExactly(t: Table, x: SaveOp, y: SaveOp)
    ensures Upsert(Upsert(t, x), y) == Upsert(Upsert(t, y), x) <==> Compatible(x, y)
  {
    hide Upsert, KeyOf;
    if KeyOf(x) != KeyOf(y) {
      DifferentRowsCommute(t, x, y);
    } else {
      SavesToOneRow(t, x, y);
      BiasMatters(x.rates, y.rates);
    }
  }

  lemma {:induction false} EmptySaveLeavesWrites(log: seq<SaveOp>, e: SaveOp, later: seq<SaveOp>,
                                                 k: RowKey, target: string)
    requires e.rates == map[]
    ensures LastWrite(log + [e] + later, k, target) == LastWrite(log + later, k, target)
  {
    var with, without := log + [e] + later, log + later;
    if later == [] {
      assert with[..|with| - 1] == log && without == log;
    } else {
      assert with[..|with| - 1] == log + [e] + later[..|later| - 1];
      assert without[..|without| - 1] == log + later[..|later| - 1];
      EmptySaveLeavesWrites(log, e, later[..|later| - 1], k, target);
    }
  }

  /** Skipping the save of an empty fetch cannot be observed: saving the empty map instead gives the
    * same answer to every query, then and after any further saves. */
  lemma SkippedSaveIsUnobservable(log: seq<SaveOp>, e: SaveOp, later: seq<SaveOp>, q: Query)
    requires e.rates == map[]
    ensures TableAnswer(Replay(log + [e] + later), q) == TableAnswer(Replay(log + later), q)
  {
    hide Replay, TableAnswer, LastWrite;
    var with, without := TableAnswer(Replay(log + [e] + later), q), TableAnswer(Replay(log + later), q);
    forall d
      ensures d in with <==> d in without
      ensures d in with ==> with[d] == without[d]
    {
      AnswerIsLookup(Replay(log + [e] + later), q, d);
      AnswerIsLookup(Replay(log + later), q, d);
      TableFollowsLog(log + [e] + later, RowKey(d, q.base), q.target);
      TableFollowsLog(log + later, RowKey(d, q.base), q.target);
      EmptySaveLeavesWrites(log, e, later, RowKey(d, q.base), q.target);
    }
  }

  // ----- Reordered logs -----

  ghost predicate AllCompatible(log: seq<SaveOp>) {
    forall i, j | 0 <= i < |log| && 0 <= j < |log| :: Compatible(log[i], log[j])
  }

  lemma ReplaySnoc(log: seq<SaveOp>, op: SaveOp)
    ensures Replay(log + [op]) == Upsert(Replay(log), op)
  {
    assert (log + [op])[..|log|] == log;
  }

  /** A save moves past compatible ones to the end of the log. */
  lemma {:induction false} MoveToEnd(log: seq<SaveOp>, op: SaveOp, rest: seq<SaveOp>)
    requires forall i | 0 <= i < |rest| :: Compatible(op, rest[i])
    ensures Replay(log + [op] + rest) == Replay(log + rest + [op])
  {
    if rest == [] {
      assert log + [op] + rest == log + rest + [op];
    } else {
      var init, last := rest[..|rest| - 1], rest[|rest| - 1];
      var t := Replay(log + init);
      calc {
        Replay(log + [op] + rest);
        { assert log + [op] + rest == log + [op] + init + [last]; ReplaySnoc(log + [op] + init, last); }
        Upsert(Replay(log + [op] + init), last);
        { MoveToEnd(log, op, init); ReplaySnoc(log + init, op); }
        Upsert(Upsert(t, op), last);
        { SavesCommuteExactly(t, op, last); }
        Upsert(Upsert(t, last), op);
        { ReplaySnoc(log + init, last); assert log + init + [last] == log + rest; }
        Upsert(Replay(log + rest), op);
        { ReplaySnoc(log + rest, op); }
        Replay(log + rest + [op]);
      }
    }
  }

  /** Takes one occurrence of `x` out of a list. */
  lemma SplitAt<T>(b: seq<T>, x: T) returns (left: seq<T>, right: seq<T>)
    requires x in multiset(b)
    ensures b == left + [x] + right
    ensures multiset(left + right) == multiset(b) - multiset{x}
  {
    var j :| 0 <= j < |b| && b[j] == x;
    left, right := b[..j], b[j + 1..];
    assert b == left + [x] + right;
  }

  /** Two logs with the same saves, in any order, build the same table when no two saves conflict. */
  lemma {:induction false} OrderDoesNotMatter(a: seq<SaveOp>, b: seq<SaveOp>)
    requires multiset(a) == multiset(b) && AllCompatible(a)
    ensures Replay(a) == Replay(b)
  {
    if a == [] {
      assert |multiset(b)| == |b|;
    } else {
      var init, op := a[..|a| - 1], a[|a| - 1];
      assert a == init + [op];
      var left, right := SplitAt(b, op);
      assert multiset(right) <= multiset(left + right) <= multiset(a);
      assert multiset(init) == multiset(left + right) by {
        assert a == init + [op];
      }
      SomeOfCompatible(a, init);
      SomeOfCompatible(a, right);
      hide Replay, Compatible, AllCompatible;
      MoveToEnd(left, op, right);
      OrderDoesNotMatter(init, left + right);
      ReplaySnoc(left + right, op);
      ReplaySnoc(init, op);
      assert a == init + [op];
    }
  }

  /** Saves taken from compatible ones are compatible with each of them, and with each other. */
  lemma SomeOfCompatible(log: seq<SaveOp>, some: seq<SaveOp>)
    requires AllCompatible(log) && multiset(some) <= multiset(log)
    ensures forall i, j | 0 <= i < |log| && 0 <= j < |some| :: Compatible(log[i], some[j])
    ensures AllCompatible(some)
  {
    hide Compatible;
    forall j | 0 <= j < |some|
      ensures exists n :: 0 <= n < |log| && log[n] == some[j]
    {
      assert some[j] in multiset(some);
    }
  }

  // ----- The session's time zone -----

  /** The day the gateway prints for a stored date: always in UTC. */
  function UtcDay(micros: int): int { DayOf(micros * 1000) }

  lemma UtcDayOfMicros(micros: int)
    ensures UtcDay(micros) == micros / MICROS_PER_DAY
  {
  }
}
