/** Startup and cron jobs interleaving on the shared table and counters.  A job is a small machine of
  * its own; the world is their product with the table, the log of commits and the worker's counters.
  */
module Ingest {
  import opened Outcomes
  import opened Calendar
  import opened Errors
  import opened Backoff
  import Retry
  import opened Store
  import opened Dto
  import opened Repository
  import opened Ecb

  datatype Config = Config(policy: RetryPolicy, base: string, target: string)  // upper-cased codes

  // ----- One job -----

  datatype Stage =
    | NotStarted
    | Fetching(now: int, yesterday: int)
    | Saving(at: int, rates: Rates)
    | Finished(ok: bool)   // FetchAndSaveCurrencyRates has returned
    | Observed(ok: bool)   // its duration is observed, its outcome not yet counted
    | Counted(ok: bool)

  datatype Job = Job(stage: Stage, commit: Option<SaveOp>)

  datatype JobEvent =
    | Begin(now: int, yesterday: int)
    | Fetch(run: seq<Retry.Event>, replies: seq<Reply>, result: Result<Rates, Error>)
    | Save(fate: Fate)
    | Observe
    | Count

  function Fresh(): Job { Job(NotStarted, None) }

  function RequestOf(c: Config, now: int, yesterday: int): Request {
    Request(c.base, c.target, yesterday, now)
  }

  /** The job after an event, or nothing when the event cannot happen there. */
  ghost function JobStep(c: Config, j: Job, e: JobEvent): Option<Job> {
    match (j.stage, e)
    case (NotStarted, Begin(now, yesterday)) => Some(j.(stage := Fetching(now, yesterday)))
    case (Fetching(now, yesterday), Fetch(run, replies, result)) =>
      if !Fetches(c.policy, RequestOf(c, now, yesterday), run, replies, result) then None
      else
        (match result
         case Err(_) => Some(j.(stage := Finished(false)))
         case Ok(rates) =>
           if rates == map[] then Some(j.(stage := Finished(true)))
           else Some(j.(stage := Saving(now, rates))))
    case (Saving(at, rates), Save(fate)) =>
      Some(Job(Finished(SaveResult(at, c.base, rates, fate).None?), Stored(at, c.base, rates, fate)))
    case (Finished(ok), Observe) => Some(j.(stage := Observed(ok)))
    case (Observed(ok), Count) => Some(j.(stage := Counted(ok)))
    case _ => None
  }

  ghost function JobExec(c: Config, es: seq<JobEvent>): Option<Job> {
    if es == [] then Some(Fresh())
    else
      match JobExec(c, es[..|es| - 1])
      case None => None
      case Some(j) => JobStep(c, j, es[|es| - 1])
  }

  ghost predicate DateKeys(rates: Rates) {
    forall key | key in rates :: ParseDay(key).Some?
  }

  /** A job commits at most once, only a non-empty map from a successful fetch, keyed by dates. */
  ghost predicate JobInv(c: Config, j: Job) {
    && (j.stage.NotStarted? || j.stage.Fetching? || j.stage.Saving? ==> j.commit.None?)
    && (j.stage.Saving? ==> j.stage.rates != map[] && DateKeys(j.stage.rates))
    && (j.commit.Some? ==> j.commit.value.rates != map[] && DateKeys(j.commit.value.rates))
  }

  lemma JobStepKeepsInv(c: Config, j: Job, e: JobEvent)
    requires JobInv(c, j) && JobStep(c, j, e).Some?
    ensures JobInv(c, JobStep(c, j, e).value)
    ensures j.commit.Some? ==> JobStep(c, j, e).value.commit == j.commit
  {
    hide Fetches;
    if e.Fetch? && e.result.Ok? {
      var req := RequestOf(c, j.stage.now, j.stage.yesterday);
      forall key | key in e.result.value
        ensures ParseDay(key).Some?
      {
        FetchedKeysAreDates(c.policy, req, e.run, e.replies, e.result, key);
      }
    }
  }

  // ----- The world -----

  datatype World = World(
    jobs: map<nat, Job>,
    table: Table,
    log: seq<SaveOp>,        // commits in commit order
    committers: seq<nat>,    // the job of each commit
    observations: nat,       // durations observed
    successes: nat,
    failures: nat)

  datatype Move = Move(id: nat, event: JobEvent)

  function Empty(): World { World(map[], map[], [], [], 0, 0, 0) }

  function JobOf(w: World, id: nat): Job {
    if id in w.jobs then w.jobs[id] else Fresh()
  }

  ghost function WorldStep(c: Config, w: World, m: Move): Option<World> {
    match JobStep(c, JobOf(w, m.id), m.event)
    case None => None
    case Some(j) =>
      var w' := w.(jobs := w.jobs[m.id := j]);
      match m.event
      case Save(_) =>
        (match j.commit
         case None => Some(w')
         case Some(op) =>
           Some(w'.(table := Upsert(w.table, op), log := w.log + [op], committers := w.committers + [m.id])))
      case Observe => Some(w'.(observations := w.observations + 1))
      case Count =>
        if j.stage == Counted(true) then Some(w'.(successes := w.successes + 1))
        else Some(w'.(failures := w.failures + 1))
      case _ => Some(w')
  }

  ghost function WorldExec(c: Config, w: World, ms: seq<Move>): Option<World> {
    if ms == [] then Some(w)
    else
      match WorldExec(c, w, ms[..|ms| - 1])
      case None => None
      case Some(w') => WorldStep(c, w', ms[|ms| - 1])
  }

  // ----- What every interleaving keeps -----

  function InStage(jobs: map<nat, Job>, stages: set<Stage>): set<nat> {
    set id | id in jobs && jobs[id].stage in stages
  }

  /** The table is the fold of the commits in commit order, and each commit is one job's. */
  ghost predicate CommitInv(c: Config, w: World) {
    && w.table == Replay(w.log)
    && |w.log| == |w.committers|
    && (forall id | id in w.jobs :: JobInv(c, w.jobs[id]))
    && (forall i | 0 <= i < |w.log| :: w.committers[i] in w.jobs && w.jobs[w.committers[i]].commit == Some(w.log[i]))
    && (forall i, j | 0 <= i < j < |w.log| :: w.committers[i] != w.committers[j])
    && (forall id | id in w.jobs && w.jobs[id].commit.Some? :: id in w.committers)
  }

  /** Each counter counts the jobs that have passed its line. */
  ghost predicate CounterInv(w: World) {
    && w.successes == |InStage(w.jobs, {Counted(true)})|
    && w.failures == |InStage(w.jobs, {Counted(false)})|
    && w.observations == w.successes + w.failures + |InStage(w.jobs, {Observed(true), Observed(false)})|
  }

  lemma StepKeepsCommits(c: Config, w: World, m: Move)
    requires CommitInv(c, w) && WorldStep(c, w, m).Some?
    ensures CommitInv(c, WorldStep(c, w, m).value)
  {
    hide Fetches, JobInv, Stored, SaveResult, Replay, Upsert;
    var j := JobOf(w, m.id);
    var j' := JobStep(c, j, m.event).value;
    FreshInv(c);
    JobStepKeepsInv(c, j, m.event);
    if m.event.Save? && j'.commit.Some? {
      SavingHasNoCommit(c, j);
      CommitKeepsInv(c, w, m.id, j');
    }
  }

  /** A first commit of a job extends the log and the list of committers. */
  lemma CommitKeepsInv(c: Config, w: World, id: nat, j: Job)
    requires CommitInv(c, w) && JobInv(c, j) && j.commit.Some? && JobOf(w, id).commit.None?
    ensures CommitInv(c, w.(jobs := w.jobs[id := j], table := Upsert(w.table, j.commit.value),
                            log := w.log + [j.commit.value], committers := w.committers + [id]))
  {
    hide JobInv, Replay, Upsert;
    ReplaySnoc(w.log, j.commit.value);
    var committers := w.committers + [id];
    assert committers[|w.log|] == id;
    assert forall x | x in w.committers :: x in committers;
  }

  lemma FreshInv(c: Config)
    ensures JobInv(c, Fresh())
  {
  }

  lemma SavingHasNoCommit(c: Config, j: Job)
    requires JobInv(c, j) && j.stage.Saving?
    ensures j.commit.None?
  {
  }

  /** Moving one job between stages moves it between the sets that count them. */
  lemma StageMoves(jobs: map<nat, Job>, id: nat, j: Job, stages: set<Stage>)
    ensures |InStage(jobs[id := j], stages)| ==
            |InStage(jobs, stages)|
            - (if id in jobs && jobs[id].stage in stages then 1 else 0)
            + (if j.stage in stages then 1 else 0)
  {
    var before, after := InStage(jobs, stages), InStage(jobs[id := j], stages);
    assert id in before <==> id in jobs && jobs[id].stage in stages;
    assert id in after <==> j.stage in stages;
    assert before - {id} == after - {id};
    hide InStage;
    Without(before, id);
    Without(after, id);
  }

  lemma Without(ids: set<nat>, id: nat)
    ensures |ids - {id}| == |ids| - if id in ids then 1 else 0
  {
  }

  lemma StepKeepsCounters(c: Config, w: World, m: Move)
    requires CounterInv(w) && WorldStep(c, w, m).Some?
    ensures CounterInv(WorldStep(c, w, m).value)
  {
    hide Fetches, InStage;
    var j := JobStep(c, JobOf(w, m.id), m.event).value;
    StageMoves(w.jobs, m.id, j, {Counted(true)});
    StageMoves(w.jobs, m.id, j, {Counted(false)});
    StageMoves(w.jobs, m.id, j, {Observed(true), Observed(false)});
  }

  /** In every interleaving of jobs: the table is the fold of the commits in commit order, and
    * successes, failures and jobs between observing and counting add up to the observations. */
  lemma {:induction false} EveryInterleaving(c: Config, ms: seq<Move>)
    requires WorldExec(c, Empty(), ms).Some?
    ensures CommitInv(c, WorldExec(c, Empty(), ms).value)
    ensures CounterInv(WorldExec(c, Empty(), ms).value)
  {
    if ms == [] {
      assert InStage(Empty().jobs, {Counted(true)}) == {} == InStage(Empty().jobs, {Counted(false)});
      assert InStage(Empty().jobs, {Observed(true), Observed(false)}) == {};
    } else {
      EveryInterleaving(c, ms[..|ms| - 1]);
      var w := WorldExec(c, Empty(), ms[..|ms| - 1]).value;
      StepKeepsCommits(c, w, ms[|ms| - 1]);
      StepKeepsCounters(c, w, ms[|ms| - 1]);
    }
  }

  // ----- Independence of the interleaving -----

  /** The events of one job, in their order. */
  function Project(ms: seq<Move>, id: nat): seq<JobEvent> {
    if ms == [] then []
    else
      var m := ms[|ms| - 1];
      Project(ms[..|ms| - 1], id) + if m.id == id then [m.event] else []
  }

  /** A move is one step of its own job, and of no other. */
  lemma OneJobMoves(c: Config, w: World, m: Move, id: nat)
    requires WorldStep(c, w, m).Some?
    ensures JobStep(c, JobOf(w, m.id), m.event).Some?
    ensures var w' := WorldStep(c, w, m).value;
      && JobOf(w', id) == (if id == m.id then JobStep(c, JobOf(w, m.id), m.event).value else JobOf(w, id))
      && (id in w'.jobs <==> id in w.jobs || id == m.id)
  {
    hide JobStep, Upsert;
  }

  lemma JobExecSnoc(c: Config, es: seq<JobEvent>, e: JobEvent)
    requires JobExec(c, es).Some?
    ensures JobExec(c, es + [e]) == JobStep(c, JobExec(c, es).value, e)
  {
    hide JobStep;
    assert (es + [e])[..|es|] == es;
  }

  /** A job's state depends on its own events only. */
  lemma {:induction false} JobsAreIndependent(c: Config, ms: seq<Move>, id: nat)
    requires WorldExec(c, Empty(), ms).Some?
    ensures JobExec(c, Project(ms, id)) == Some(JobOf(WorldExec(c, Empty(), ms).value, id))
    ensures id in WorldExec(c, Empty(), ms).value.jobs <==> Project(ms, id) != []
  {
    if ms != [] {
      var init, m := ms[..|ms| - 1], ms[|ms| - 1];
      JobsAreIndependent(c, init, id);
      OneJobMoves(c, WorldExec(c, Empty(), init).value, m, id);
      JobExecSnoc(c, Project(init, id), m.event);
      hide WorldStep, JobStep, JobExec, JobOf;
      assert Project(init, id) + [] == Project(init, id);
    }
  }

  /** The interleavings are all of them: moves can happen exactly when every job's own events can, so no
    * job ever waits for another. */
  lemma {:induction false} EveryShuffleRuns(c: Config, ms: seq<Move>)
    ensures WorldExec(c, Empty(), ms).Some? <==> forall id: nat :: JobExec(c, Project(ms, id)).Some?
  {
    if WorldExec(c, Empty(), ms).Some? {
      forall id: nat
        ensures JobExec(c, Project(ms, id)).Some?
      {
        JobsAreIndependent(c, ms, id);
      }
    } else {
      var init, m := ms[..|ms| - 1], ms[|ms| - 1];
      EveryShuffleRuns(c, init);
      if WorldExec(c, Empty(), init).Some? {
        JobsAreIndependent(c, init, m.id);
        JobExecSnoc(c, Project(init, m.id), m.event);
        MoveIsJobStep(c, WorldExec(c, Empty(), init).value, m);
        assert JobExec(c, Project(ms, m.id)).None?;
      } else {
        hide WorldExec, WorldStep, JobStep;
        var id: nat :| JobExec(c, Project(init, id)).None?;
        assert Project(init, id) + [] == Project(init, id);
        assert (Project(init, id) + [m.event])[..|Project(init, id)|] == Project(init, id);
        assert JobExec(c, Project(ms, id)).None?;
      }
    }
  }

  lemma MoveIsJobStep(c: Config, w: World, m: Move)
    ensures WorldStep(c, w, m).Some? <==> JobStep(c, JobOf(w, m.id), m.event).Some?
  {
    hide JobStep, Upsert;
  }

  /** The commits, as the jobs remember them, are the log. */
  function CommitsOf(jobs: map<nat, Job>, ids: seq<nat>): seq<SaveOp>
    requires forall id | id in ids :: id in jobs && jobs[id].commit.Some?
  {
    seq(|ids|, i requires 0 <= i < |ids| => jobs[ids[i]].commit.value)
  }

  ghost predicate Distinct(ids: seq<nat>) {
    forall i, j | 0 <= i < j < |ids| :: ids[i] != ids[j]
  }

  lemma TakeOut(b: seq<nat>, id: nat) returns (left: seq<nat>, right: seq<nat>)
    requires Distinct(b) && id in b
    ensures b == left + [id] + right && Distinct(left + right)
    ensures forall x :: x in left + right <==> x in b && x != id
  {
    var k :| 0 <= k < |b| && b[k] == id;
    left, right := b[..k], b[k + 1..];
    assert b == left + [id] + right;
    assert id !in left && id !in right;
    var rest := left + right;
    forall i, j | 0 <= i < j < |rest|
      ensures rest[i] != rest[j]
    {
      assert b[if i < k then i else i + 1] != b[if j < k then j else j + 1];
    }
  }

  /** Two duplicate-free lists of the same jobs carry the same commits. */
  lemma {:induction false} SameJobsSameCommits(jobs: map<nat, Job>, a: seq<nat>, b: seq<nat>)
    requires Distinct(a) && Distinct(b) && forall id :: id in a <==> id in b
    requires forall id | id in a || id in b :: id in jobs && jobs[id].commit.Some?
    ensures multiset(CommitsOf(jobs, a)) == multiset(CommitsOf(jobs, b))
  {
    assert b != [] ==> b[0] in b;
    if a != [] {
      var init, id := a[..|a| - 1], a[|a| - 1];
      assert a == init + [id] + [] && init + [] == init && id !in init;
      var left, right := TakeOut(b, id);
      assert forall x :: x in a <==> x in init || x == id;
      assert Distinct(init);
      hide CommitsOf, Distinct;
      CommitsSplit(jobs, init, id, []);
      CommitsSplit(jobs, left, id, right);
      SameJobsSameCommits(jobs, init, left + right);
    }
  }

  lemma CommitsSplit(jobs: map<nat, Job>, left: seq<nat>, id: nat, right: seq<nat>)
    requires forall x | x in left + [id] + right :: x in jobs && jobs[x].commit.Some?
    ensures forall x | x in left + right :: x in left + [id] + right
    ensures multiset(CommitsOf(jobs, left + [id] + right)) ==
            multiset(CommitsOf(jobs, left + right)) + multiset{jobs[id].commit.value}
  {
    var l, r := CommitsOf(jobs, left), CommitsOf(jobs, right);
    assert CommitsOf(jobs, left + [id] + right) == l + [jobs[id].commit.value] + r;
    assert CommitsOf(jobs, left + right) == l + r;
  }

  /** Two interleavings of the same jobs' events end with the same jobs, counters and commits; with
    * the same table too when no two commits conflict, in particular when their rows differ. */
  lemma InterleavingDoesNotMatter(c: Config, a: seq<Move>, b: seq<Move>)
    requires WorldExec(c, Empty(), a).Some? && WorldExec(c, Empty(), b).Some?
    requires forall id: nat :: Project(a, id) == Project(b, id)
    ensures var x, y := WorldExec(c, Empty(), a).value, WorldExec(c, Empty(), b).value;
      && x.jobs == y.jobs
      && multiset(x.log) == multiset(y.log)
      && x.observations == y.observations && x.successes == y.successes && x.failures == y.failures
      && (AllCompatible(x.log) ==> x.table == y.table)
  {
    hide WorldExec, Replay, CommitInv, InStage, AllCompatible;
    var x, y := WorldExec(c, Empty(), a).value, WorldExec(c, Empty(), b).value;
    EveryInterleaving(c, a);
    EveryInterleaving(c, b);
    SameJobs(c, a, b);
    SameCommitters(c, x, y);
    TableIsReplay(c, x);
    TableIsReplay(c, y);
    if AllCompatible(x.log) {
      OrderDoesNotMatter(x.log, y.log);
    }
  }

  lemma TableIsReplay(c: Config, w: World)
    requires CommitInv(c, w)
    ensures w.table == Replay(w.log)
  {
  }

  lemma SameJobs(c: Config, a: seq<Move>, b: seq<Move>)
    requires WorldExec(c, Empty(), a).Some? && WorldExec(c, Empty(), b).Some?
    requires forall id: nat :: Project(a, id) == Project(b, id)
    ensures WorldExec(c, Empty(), a).value.jobs == WorldExec(c, Empty(), b).value.jobs
  {
    hide WorldExec, Project, JobExec;
    var x, y := WorldExec(c, Empty(), a).value.jobs, WorldExec(c, Empty(), b).value.jobs;
    forall id: nat
      ensures id in x <==> id in y
      ensures id in x ==> x[id] == y[id]
    {
      JobsAreIndependent(c, a, id);
      JobsAreIndependent(c, b, id);
    }
  }

  lemma SameCommitters(c: Config, x: World, y: World)
    requires CommitInv(c, x) && CommitInv(c, y) && x.jobs == y.jobs
    ensures multiset(x.log) == multiset(y.log)
  {
    hide JobInv;
    forall id
      ensures id in x.committers <==> id in y.committers
    {
      if id in x.committers {
        var i :| 0 <= i < |x.committers| && x.committers[i] == id;
        assert x.jobs[x.committers[i]].commit == Some(x.log[i]);
      }
      if id in y.committers {
        var i :| 0 <= i < |y.committers| && y.committers[i] == id;
        assert y.jobs[y.committers[i]].commit == Some(y.log[i]);
      }
    }
    SameJobsSameCommits(x.jobs, x.committers, y.committers);
    assert CommitsOf(x.jobs, x.committers) == x.log;
    assert CommitsOf(y.jobs, y.committers) == y.log;
  }

  lemma DistinctRowsAreCompatible(log: seq<SaveOp>)
    requires forall i, j | 0 <= i < j < |log| :: KeyOf(log[i]) != KeyOf(log[j])
    ensures AllCompatible(log)
  {
  }

  // ----- What the counters count -----

  /** The last event of a job, and the state it found. */
  lemma LastJobStep(c: Config, es: seq<JobEvent>, j: Job) returns (init: seq<JobEvent>, before: Job, e: JobEvent)
    requires JobExec(c, es) == Some(j) && !j.stage.NotStarted?
    ensures es == init + [e] && JobExec(c, init) == Some(before) && JobStep(c, before, e) == Some(j)
  {
    hide JobStep;
    init, e := es[..|es| - 1], es[|es| - 1];
    before := JobExec(c, init).value;
  }

  /** The events of a counted job: begin, fetch, save unless there is nothing to save, observe, count.  It
    * counts as a success exactly when the fetch succeeded and the save, if any, was acknowledged. */
  lemma CountedJob(c: Config, es: seq<JobEvent>, j: Job)
    returns (now: int, yesterday: int, run: seq<Retry.Event>, replies: seq<Reply>, result: Result<Rates, Error>,
             fate: Fate)
    requires JobExec(c, es) == Some(j) && j.stage.Counted?
    ensures var saves := result.Ok? && result.value != map[];
      && es == [Begin(now, yesterday), Fetch(run, replies, result)]
               + (if saves then [Save(fate)] else []) + [Observe, Count]
      && Fetches(c.policy, Request(c.base, c.target, yesterday, now), run, replies, result)
      && (j.stage.ok <==>
          result.Ok? && (saves ==> Marshals(result.value) && Varchar10(c.base).Some? && fate == Committed))
      && j.commit == if saves && Marshals(result.value) && Varchar10(c.base).Some? && fate != Refused
                     then Some(SaveOp(now, Varchar10(c.base).value, result.value)) else None
  {
    hide JobExec, Fetches, Marshals, Varchar10;
    var toCount, observed, count := LastJobStep(c, es, j);
    var toObserve, finished, observe := LastJobStep(c, toCount, observed);
    var toFinish, before, e := LastJobStep(c, toObserve, finished);
    fate := Refused;
    var toFetch, fetching, fetch := toFinish, before, e;
    if e.Save? {
      fate := e.fate;
      toFetch, fetching, fetch := LastJobStep(c, toFinish, before);
    }
    run, replies, result := fetch.run, fetch.replies, fetch.result;
    var toBegin, start, begin := LastJobStep(c, toFetch, fetching);
    now, yesterday := begin.now, begin.yesterday;
    NothingBefore(c, toBegin, start);
  }

  lemma NothingBefore(c: Config, es: seq<JobEvent>, j: Job)
    requires JobExec(c, es) == Some(j) && j.stage.NotStarted?
    ensures es == [] && j.commit == None
  {
    hide Fetches;
  }

  /** In every interleaving, a job is counted as a success exactly when it fetched the empty map or its
    * map was saved and acknowledged, and then that map is in the log; a job that commits and is counted
    * as a failure is one whose acknowledgement was lost. */
  lemma SuccessIsStored(c: Config, ms: seq<Move>, id: nat)
    returns (now: int, yesterday: int, run: seq<Retry.Event>, replies: seq<Reply>, result: Result<Rates, Error>,
             fate: Fate)
    requires WorldExec(c, Empty(), ms).Some?
    requires var w := WorldExec(c, Empty(), ms).value; id in w.jobs && w.jobs[id].stage.Counted?
    ensures Begin(now, yesterday) in Project(ms, id) && Fetch(run, replies, result) in Project(ms, id)
    ensures Fetches(c.policy, Request(c.base, c.target, yesterday, now), run, replies, result)
    ensures result.Ok? && result.value != map[] ==> Save(fate) in Project(ms, id)
    ensures var w := WorldExec(c, Empty(), ms).value;
      && |w.committers| == |w.log|
      && (w.jobs[id].stage.ok <==>
            result.Ok? &&
            (result.value != map[] ==> Marshals(result.value) && Varchar10(c.base).Some? && fate == Committed))
      && (w.jobs[id].stage.ok ==> result.value == map[] || id in w.committers)
      && (id in w.committers ==> (w.jobs[id].stage.ok <==> fate == Committed))
      && (id in w.committers ==> result.Ok? && result.value != map[] && fate != Refused)
      && (forall i | 0 <= i < |w.log| && w.committers[i] == id ::
            result.Ok? && Some(w.log[i].base) == Varchar10(c.base) &&
            w.log[i] == SaveOp(now, w.log[i].base, result.value))
  {
    hide WorldStep, JobStep, JobExec, Fetches, JobInv, Replay, Marshals, Varchar10;
    var w := WorldExec(c, Empty(), ms).value;
    EveryInterleaving(c, ms);
    JobsAreIndependent(c, ms, id);
    now, yesterday, run, replies, result, fate := CountedJob(c, Project(ms, id), w.jobs[id]);
    hide Project;
    assert Project(ms, id)[0] == Begin(now, yesterday) && Project(ms, id)[1] == Fetch(run, replies, result);
    assert result.Ok? && result.value != map[] ==> Project(ms, id)[2] == Save(fate);
  }

  // ----- What the worker can put in the table -----

  /** Among a job's events is a finished fetch that returned these rates for the job's request. */
  ghost predicate WasFetched(c: Config, es: seq<JobEvent>, at: int, rates: Rates) {
    exists i, yesterday :: 0 <= i < |es| && FetchedAt(c, es[i], at, yesterday, rates)
  }

  ghost predicate FetchedAt(c: Config, e: JobEvent, at: int, yesterday: int, rates: Rates) {
    e.Fetch? && e.result == Ok(rates) && Fetches(c.policy, RequestOf(c, at, yesterday), e.run, e.replies, e.result)
  }

  lemma {:induction false} JobSavesWhatItFetched(c: Config, es: seq<JobEvent>, j: Job)
    requires JobExec(c, es) == Some(j)
    ensures j.stage.Saving? ==> j.commit.None? && WasFetched(c, es, j.stage.at, j.stage.rates) && j.stage.rates != map[]
    ensures j.stage.NotStarted? || j.stage.Fetching? ==> j.commit.None?
    ensures j.commit.Some? ==> WasFetched(c, es, j.commit.value.date, j.commit.value.rates)
                               && j.commit.value.rates != map[] && Marshals(j.commit.value.rates)
                               && Varchar10(c.base) == Some(j.commit.value.base)
  {
    hide Fetches, Marshals;
    if es != [] {
      var n := |es| - 1;
      var before := JobExec(c, es[..n]).value;
      JobSavesWhatItFetched(c, es[..n], before);
      forall at, rates | WasFetched(c, es[..n], at, rates)
        ensures WasFetched(c, es, at, rates)
      {
        var i, yesterday :| 0 <= i < n && FetchedAt(c, es[..n][i], at, yesterday, rates);
        assert FetchedAt(c, es[i], at, yesterday, rates);
      }
      if j.stage.Saving? {
        assert FetchedAt(c, es[n], j.stage.at, before.stage.yesterday, j.stage.rates);
      }
    }
  }

  /** In every interleaving, each commit is the non-empty map that its own job's fetch returned, under
    * that job's clock reading and the worker's base. */
  lemma EveryCommitWasFetched(c: Config, ms: seq<Move>, i: nat)
    requires WorldExec(c, Empty(), ms).Some? && i < |WorldExec(c, Empty(), ms).value.log|
    ensures var w := WorldExec(c, Empty(), ms).value;
      && |w.committers| == |w.log|
      && WasFetched(c, Project(ms, w.committers[i]), w.log[i].date, w.log[i].rates)
      && w.log[i].rates != map[] && Varchar10(c.base) == Some(w.log[i].base)
  {
    hide WorldStep, JobStep, WasFetched, Replay, JobInv;
    var w := WorldExec(c, Empty(), ms).value;
    EveryInterleaving(c, ms);
    JobsAreIndependent(c, ms, w.committers[i]);
    JobSavesWhatItFetched(c, Project(ms, w.committers[i]), JobOf(w, w.committers[i]));
  }

  lemma {:induction false} ReplayedKeys(log: seq<SaveOp>, k: RowKey, target: string)
    requires forall i | 0 <= i < |log| :: DateKeys(log[i].rates)
    requires LastWrite(log, k, target).Some?
    ensures ParseDay(target).Some?
  {
    if !(KeyOf(log[|log| - 1]) == k && target in log[|log| - 1].rates) {
      ReplayedKeys(log[..|log| - 1], k, target);
    }
  }

  /** In every table the worker's jobs alone can reach, every rate is stored under a date, never
    * under a currency: a query gets an answer only for a target of the form YYYY-MM-DD. */
  lemma OnlyDatesAreStored(c: Config, ms: seq<Move>, q: Query)
    requires WorldExec(c, Empty(), ms).Some?
    ensures var t := WorldExec(c, Empty(), ms).value.table;
      forall k, key | k in t && key in t[k] :: ParseDay(key).Some?
    ensures ParseDay(q.target).None? ==> TableAnswer(WorldExec(c, Empty(), ms).value.table, q) == map[]
    ensures ParseDay(q.target).None? ==> LogAnswer(WorldExec(c, Empty(), ms).value.log, q) == map[]
  {
    var w := WorldExec(c, Empty(), ms).value;
    EveryInterleaving(c, ms);
    CommittedKeys(c, w);
    forall k, key | k in w.table && key in w.table[k]
      ensures ParseDay(key).Some?
    {
      TableFollowsLog(w.log, k, key);
      ReplayedKeys(w.log, k, key);
    }
    LogRefinement(w.log, q);
    if ParseDay(q.target).None? {
      forall d
        ensures d !in TableAnswer(w.table, q)
      {
        AnswerIsLookup(w.table, q, d);
      }
    }
  }

  lemma CommittedKeys(c: Config, w: World)
    requires CommitInv(c, w)
    ensures forall i | 0 <= i < |w.log| :: DateKeys(w.log[i].rates)
  {
    forall i | 0 <= i < |w.log|
      ensures DateKeys(w.log[i].rates)
    {
      assert JobInv(c, w.jobs[w.committers[i]]);
    }
  }

  /** No later save to the row of `op` carries the target. */
  predicate NeverSetAgain(later: seq<SaveOp>, op: SaveOp, target: string) {
    forall i | 0 <= i < |later| && KeyOf(later[i]) == KeyOf(op) :: target !in later[i].rates
  }

  /** A save keyed by the target currency is served: whatever is saved later, the queried interval
    * keeps an entry at its date, and its rate as long as no later save to the row sets that target. */
  lemma {:induction false} SavedIsServed(log: seq<SaveOp>, op: SaveOp, later: seq<SaveOp>, q: Query)
    requires q.target in op.rates && q.base == op.base && InInterval(StoredMicros(op.date), q)
    ensures StoredMicros(op.date) in LogAnswer(log + [op] + later, q)
    ensures NeverSetAgain(later, op, q.target) ==>
            LogAnswer(log + [op] + later, q)[StoredMicros(op.date)] == op.rates[q.target]
  {
    var all := log + [op] + later;
    LaterSavesKeep(log, op, later, q.target);
    TableFollowsLog(all, KeyOf(op), q.target);
  }

  lemma {:induction false} LaterSavesKeep(log: seq<SaveOp>, op: SaveOp, later: seq<SaveOp>, target: string)
    requires target in op.rates
    ensures LastWrite(log + [op] + later, KeyOf(op), target).Some?
    ensures NeverSetAgain(later, op, target) ==>
            LastWrite(log + [op] + later, KeyOf(op), target) == Some(op.rates[target])
  {
    if later != [] {
      var init := later[..|later| - 1];
      var all := log + [op] + later;
      assert all[..|all| - 1] == log + [op] + init;
      LaterSavesKeep(log, op, init, target);
    }
  }
}
