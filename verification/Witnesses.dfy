/** Concrete runs of the worker: two jobs that race, and a fetch that is stored and never served. */
module Witnesses {
  import opened Outcomes
  import opened Calendar
  import opened Backoff
  import Retry
  import opened Store
  import opened Text
  import opened Dto
  import opened Repository
  import opened Ecb
  import opened Service
  import opened Ingest
  import opened Races
  import opened Worker
  import opened Serve

  const SETTINGS := Config(RetryPolicy(1, 1, 1), "EUR", "USD")

  /** The ECB's answer with one observation, for 2024-05-01. */
  function Answer(rate: Rate): Reply {
    Answered(200, Document([Obs("2024-05-01", Number(rate))]))
  }

  function Fetched(rate: Rate): Rates { map["2024-05-01" := rate] }

  /** A fetch whose first attempt gets that answer. */
  function OneAttempt(): seq<Retry.Event> {
    [Retry.Check, Retry.Call, Retry.Return(None, 0.0)]
  }

  lemma AnswerIsFetched(req: Request, rate: Rate)
    requires CompleteRequest(req)
    ensures Attempt(req, Answer(rate)) == Ok(Fetched(rate))
  {
    FirstOfMay();
    hide Parses, RatesOf, ParseDay;
    OneObservation("2024-05-01", rate);
  }

  lemma OneObservation(period: string, rate: Rate)
    requires period != "" && ParseDay(period).Some?
    ensures var obs := [Obs(period, Number(rate))];
      Records(obs).Ok? && RatesOf(Records(obs).value) == map[period := rate]
  {
    hide ParseDay;
    NothingRead();
    var o := Obs(period, Number(rate));
    NextObservation([], o);
    hide Records, RatesOf;
    assert [] + [o] == [o];
  }

  lemma NothingRead()
    ensures Records([]) == Ok([]) && RatesOf([]) == map[]
  {
  }

  lemma OneAttemptRuns(p: RetryPolicy)
    requires p.maxAttempts >= 1
    ensures Retry.Exec(p, OneAttempt()).Some?
    ensures var s := Retry.Exec(p, OneAttempt()).value;
      s.phase == Retry.Returned(None) && s.outcomes == [None]
  {
    Retry.ExecSnoc(p, [], Retry.Check);
    Retry.ExecSnoc(p, [Retry.Check], Retry.Call);
    Retry.ExecSnoc(p, [Retry.Check, Retry.Call], Retry.Return(None, 0.0));
    assert [] + [Retry.Check] == [Retry.Check];
    assert [Retry.Check] + [Retry.Call] == [Retry.Check, Retry.Call];
    assert [Retry.Check, Retry.Call] + [Retry.Return(None, 0.0)] == OneAttempt();
  }

  lemma FetchHappens(req: Request, rate: Rate)
    requires CompleteRequest(req)
    ensures Fetches(SETTINGS.policy, req, OneAttempt(), [Answer(rate)], Ok(Fetched(rate)))
  {
    OneAttemptRuns(SETTINGS.policy);
    AnswerIsFetched(req, rate);
    hide Attempt;
    assert Answers(req, [Answer(rate)]) == [None];
  }

  /** From any world, a job that starts at `now` and gets that answer commits it. */
  lemma JobCommits(w: World, id: nat, now: int, bits: int) returns (ms: seq<Move>)
    requires id !in w.jobs && now > 0
    ensures WorldExec(SETTINGS, w, ms).Some?
    ensures var w' := WorldExec(SETTINGS, w, ms).value;
      && w'.log == w.log + [SaveOp(now, "EUR", Fetched(Finite(bits)))]
      && w'.jobs.Keys == w.jobs.Keys + {id}
  {
    var yesterday := now - NS_PER_DAY;
    var fetched := Ok(Fetched(Finite(bits)));
    FetchHappens(RequestOf(SETTINGS, now, yesterday), Finite(bits));
    FetchedIsStored(now, bits);
    hide Fetches, WorldExec, SavedBy, JobError, Fetched, Upsert;
    ms := JobRunsAlone(SETTINGS, w, id, now, yesterday, OneAttempt(), [Answer(Finite(bits))], fetched, Committed);
  }

  lemma FetchedIsStored(now: int, bits: int)
    ensures SavedBy(now, "EUR", Ok(Fetched(Finite(bits))), Committed) == Some(SaveOp(now, "EUR", Fetched(Finite(bits))))
  {
    assert "2024-05-01" in Fetched(Finite(bits));
  }

  /** Two jobs do race: started a tenth of a microsecond apart and given different rates for one date,
    * the same events in two interleavings end with different tables. */
  lemma JobsRace() returns (a: seq<Move>, b: seq<Move>)
    ensures SameEvents(a, b) && WorldExec(SETTINGS, Empty(), a).Some? && WorldExec(SETTINGS, Empty(), b).Some?
    ensures var now, log := Midnight(FIRST_OF_MAY), WorldExec(SETTINGS, Empty(), a).value.log;
      multiset(log) == multiset{SaveOp(now, "EUR", Fetched(Finite(1))), SaveOp(now + 100, "EUR", Fetched(Finite(2)))}
    ensures WorldExec(SETTINGS, Empty(), a).value.table != WorldExec(SETTINGS, Empty(), b).value.table
  {
    var now := Midnight(FIRST_OF_MAY);
    var first := JobCommits(Empty(), 0, now, 1);
    var w := WorldExec(SETTINGS, Empty(), first).value;
    var second := JobCommits(w, 1, now + 100, 2);
    hide WorldExec, Fetched, Project;
    ExecAppends(SETTINGS, Empty(), first, second);
    var run := first + second;
    var x, y := SaveOp(now, "EUR", Fetched(Finite(1))), SaveOp(now + 100, "EUR", Fetched(Finite(2)));
    assert WorldExec(SETTINGS, Empty(), run).value.log == [x, y];
    Conflict(now);
    a, b := ConflictRaces(SETTINGS, run, 0, 1);
    InterleavingDoesNotMatter(SETTINGS, run, a);
  }

  lemma Conflict(now: int)
    requires now % 1000 == 0
    ensures !Compatible(SaveOp(now, "EUR", Fetched(Finite(1))), SaveOp(now + 100, "EUR", Fetched(Finite(2))))
  {
    assert "2024-05-01" in Fetched(Finite(1)) && "2024-05-01" in Fetched(Finite(2));
  }

  /** The worker's pair, fetched, stored and asked for on its day: the gateway's query for the
    * currency is empty, and the rate is found under the date instead. */
  lemma FetchedButNotServed(unicode: string -> string, defaultBase: string) returns (ms: seq<Move>)
    ensures WorldExec(SETTINGS, Empty(), ms).Some?
    ensures ParseRateQuery(EurUsdQuery(), Midnight(FIRST_OF_MAY)).Ok? && IsAscii(EurUsdQuery().currency)
    ensures var w, now := WorldExec(SETTINGS, Empty(), ms).value, Midnight(FIRST_OF_MAY);
      && w.log == [SaveOp(now, "EUR", Fetched(Finite(1)))]
      && LogQuery(unicode, w.log, EurUsdQuery(), now, defaultBase, 0) == map[]
      && LogAnswer(w.log, Query("2024-05-01", "EUR", FIRST_OF_MAY, FIRST_OF_MAY, 0)) ==
         map[StoredMicros(now) := Finite(1)]
  {
    EurUsdIsAccepted();
    hide WorldExec, Fetched, LogAnswer, LogQuery, ParseRateQuery, StoredMicros;
    var now := Midnight(FIRST_OF_MAY);
    ms := JobCommits(Empty(), 0, now, 1);
    AnsweredUnderItsDate(now);
    WorkerRatesAreNotServed(unicode, SETTINGS, ms, EurUsdQuery(), now, defaultBase, 0);
    assert [] + [SaveOp(now, "EUR", Fetched(Finite(1)))] == [SaveOp(now, "EUR", Fetched(Finite(1)))];
  }

  lemma AnsweredUnderItsDate(now: int)
    requires now == Midnight(FIRST_OF_MAY)
    ensures LogAnswer([SaveOp(now, "EUR", Fetched(Finite(1)))],
                      Query("2024-05-01", "EUR", FIRST_OF_MAY, FIRST_OF_MAY, 0)) == map[StoredMicros(now) := Finite(1)]
  {
    hide LogAnswer;
    MidnightIsStored(FIRST_OF_MAY);
    OnlyRow(SaveOp(now, "EUR", Fetched(Finite(1))), Query("2024-05-01", "EUR", FIRST_OF_MAY, FIRST_OF_MAY, 0),
            StoredMicros(now));
  }

  lemma MidnightIsStored(day: int)
    ensures StoredMicros(Midnight(day)) == day * MICROS_PER_DAY
  {
  }
}
