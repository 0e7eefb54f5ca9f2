/** The worker as the program runs it: one job from start to count, which is one run of that job in
  * the interleaving machine.
  */
module Worker {
  import opened Outcomes
  import opened Errors
  import opened Store
  import opened Text
  import opened Dto
  import opened Repository
  import Retry
  import opened Ecb
  import opened EcbClient
  import opened Service
  import opened Ingest
  import opened Races

  /** The world after a job has run alone: its save, if any, and one count for one observation. */
  function AfterJob(w: World, id: nat, saved: Option<SaveOp>, ok: bool): World {
    World(
      w.jobs[id := Job(Counted(ok), saved)],
      match saved case Some(op) => Upsert(w.table, op) case None => w.table,
      match saved case Some(op) => w.log + [op] case None => w.log,
      match saved case Some(_) => w.committers + [id] case None => w.committers,
      w.observations + 1,
      if ok then w.successes + 1 else w.successes,
      if ok then w.failures else w.failures + 1)
  }

  /** From a world without the job: begin, fetch, save unless there is nothing to save, and finish. */
  lemma JobRunsAlone(c: Config, w: World, id: nat, now: int, yesterday: int,
                     run: seq<Retry.Event>, replies: seq<Reply>, fetched: Result<Rates, Error>, fate: Fate)
    returns (ms: seq<Move>)
    requires id !in w.jobs && Fetches(c.policy, RequestOf(c, now, yesterday), run, replies, fetched)
    ensures WorldExec(c, w, ms) ==
            Some(AfterJob(w, id, SavedBy(now, c.base, fetched, fate), JobError(now, c.base, fetched, fate).None?))
  {
    var saved, ok := SavedBy(now, c.base, fetched, fate), JobError(now, c.base, fetched, fate).None?;
    ms := JobFetches(c, w, id, now, yesterday, run, replies, fetched);
    if fetched.Ok? && fetched.value != map[] {
      ms := JobSaves(c, w, ms, id, now, fetched.value, fate);
    }
    hide WorldExec, Fetches, Stored, SaveResult, AfterJob;
    ms := JobFinishes(c, w, ms, id, saved, ok);
  }

  /** The world once the job's call of the service has returned. */
  function SavedWorld(w: World, id: nat, saved: Option<SaveOp>, ok: bool): World {
    var w' := w.(jobs := w.jobs[id := Job(Finished(ok), saved)]);
    match saved
    case Some(op) => w'.(table := Upsert(w.table, op), log := w.log + [op], committers := w.committers + [id])
    case None => w'
  }

  lemma JobFetches(c: Config, w: World, id: nat, now: int, yesterday: int,
                   run: seq<Retry.Event>, replies: seq<Reply>, fetched: Result<Rates, Error>)
    returns (ms: seq<Move>)
    requires id !in w.jobs && Fetches(c.policy, RequestOf(c, now, yesterday), run, replies, fetched)
    ensures WorldExec(c, w, ms) == Some(w.(jobs := w.jobs[id := Job(Fetched(now, fetched), None)]))
  {
    EmptyRun(c, w);
    OneMoreMove(c, w, [], Move(id, Begin(now, yesterday)));
    OneMoreMove(c, w, [Move(id, Begin(now, yesterday))], Move(id, Fetch(run, replies, fetched)));
    hide WorldExec, Fetches;
    ms := [Move(id, Begin(now, yesterday))] + [Move(id, Fetch(run, replies, fetched))];
    assert [] + [Move(id, Begin(now, yesterday))] == [Move(id, Begin(now, yesterday))];
    var begun, ended := Job(Fetching(now, yesterday), None), Job(Fetched(now, fetched), None);
    assert w.jobs[id := begun][id := ended] == w.jobs[id := ended];
  }

  /** The stage a fetch leads to. */
  function Fetched(now: int, fetched: Result<Rates, Error>): Stage {
    match fetched
    case Err(_) => Finished(false)
    case Ok(rates) => if rates == map[] then Finished(true) else Saving(now, rates)
  }

  lemma JobSaves(c: Config, w: World, ms: seq<Move>, id: nat, now: int, rates: Rates, fate: Fate)
    returns (ms': seq<Move>)
    requires WorldExec(c, w, ms) == Some(w.(jobs := w.jobs[id := Job(Saving(now, rates), None)]))
    ensures WorldExec(c, w, ms') ==
            Some(SavedWorld(w, id, Stored(now, c.base, rates, fate), SaveResult(now, c.base, rates, fate).None?))
  {
    hide WorldExec, Stored, SaveResult, Upsert;
    OneMoreMove(c, w, ms, Move(id, Save(fate)));
    ms' := ms + [Move(id, Save(fate))];
    var ended := Job(Finished(SaveResult(now, c.base, rates, fate).None?), Stored(now, c.base, rates, fate));
    assert w.jobs[id := Job(Saving(now, rates), None)][id := ended] == w.jobs[id := ended];
  }

  lemma JobFinishes(c: Config, w: World, ms: seq<Move>, id: nat, saved: Option<SaveOp>, ok: bool)
    returns (ms': seq<Move>)
    requires WorldExec(c, w, ms) == Some(SavedWorld(w, id, saved, ok))
    ensures WorldExec(c, w, ms') == Some(AfterJob(w, id, saved, ok))
  {
    hide WorldExec, Fetches, Upsert, Stored, SaveResult;
    OneMoreMove(c, w, ms, Move(id, Observe));
    OneMoreMove(c, w, ms + [Move(id, Observe)], Move(id, Count));
    ms' := ms + [Move(id, Observe)] + [Move(id, Count)];
    var finished, observed, counted := Job(Finished(ok), saved), Job(Observed(ok), saved), Job(Counted(ok), saved);
    assert w.jobs[id := finished][id := observed][id := counted] == w.jobs[id := counted];
  }

  class CurrencyWorker {
    const service: CurrencyService
    const baseCurrency: string
    const targetCurrency: string
    var observations: nat
    var successes: nat
    var failures: nat
    ghost var jobs: map<nat, Job>
    ghost var committers: seq<nat>
    ghost var history: seq<Move>  // the moves of all its jobs

    constructor (service: CurrencyService, base: string, target: string)
      requires service.repo.Valid() && service.repo.rows == [] && service.repo.log == []
      ensures this.service == service && baseCurrency == base && targetCurrency == target
      ensures Valid() && jobs == map[]
    {
      this.service, baseCurrency, targetCurrency := service, base, target;
      observations, successes, failures := 0, 0, 0;
      jobs, committers, history := map[], [], [];
    }

    /** The world is the one its jobs have reached from the empty table. */
    ghost predicate Valid()
      reads this, service.repo
    {
      service.repo.Valid() && WorldExec(Settings(), Empty(), history) == Some(View())
    }

    ghost function Settings(): Config {
      Config(service.client.retry, ToUpper(service.unicode, baseCurrency), ToUpper(service.unicode, targetCurrency))
    }

    /** This worker and its table as a state of the interleaving machine. */
    ghost function View(): World
      reads this, service.repo
    {
      World(jobs, TableOf(service.repo.rows), service.repo.log, committers, observations, successes, failures)
    }

    /** `runOnce`: from a world to the one that the moves of job `id` lead to. */
    method RunOnce(ghost id: nat, ctx: Context, now: int, yesterday: int, fate: Fate)
      returns (ghost ms: seq<Move>)
      requires Valid() && id !in jobs
      modifies this, ctx, service.client, service.repo
      ensures Valid() && history == old(history) + ms
      ensures WorldExec(Settings(), old(View()), ms) == Some(View())
      ensures jobs.Keys == old(jobs.Keys) + {id} && jobs[id].stage.Counted?
      ensures observations == old(observations) + 1
      ensures successes == old(successes) + if jobs[id].stage.ok then 1 else 0
      ensures failures == old(failures) + if jobs[id].stage.ok then 0 else 1
    {
      hide Fetches, SavedBy, JobError, WorldExec, TableOf, Replay, Upsert, ToUpper, ErrorCounts, Durations, UniqueKeys;
      hide Marshals, Varchar10;
      ghost var before := View();
      var dto := new CurrencyRequestDTO(baseCurrency, targetCurrency, now, now);
      ghost var run, replies, fetched;
      var err;
      err, run, replies, fetched := service.FetchAndSaveCurrencyRates(ctx, dto, now, yesterday, fate);
      ms := JobRunsAlone(Settings(), before, id, now, yesterday, run, replies, fetched, fate);
      ghost var saved := SavedBy(now, Settings().base, fetched, fate);
      observations := observations + 1;
      if err.Some? {
        failures := failures + 1;
      } else {
        successes := successes + 1;
      }
      ExecAppends(Settings(), Empty(), history, ms);
      jobs, history := jobs[id := Job(Counted(err.None?), saved)], history + ms;
      if saved.Some? {
        committers := committers + [id];
        ReplaySnoc(before.log, saved.value);
      }
      assert View() == AfterJob(before, id, saved, err.None?);
    }
  }
}
