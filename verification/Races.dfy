/** When the table depends on how jobs interleave: exactly when two of their commits conflict. */
module Races {
  import opened Outcomes
  import opened Store
  import opened Ingest

  /** Both interleavings hold the same events of every job, each job's in its own order. */
  ghost predicate SameEvents(a: seq<Move>, b: seq<Move>) {
    forall id: nat :: Project(a, id) == Project(b, id)
  }

  /** Every interleaving of the same events ends with the same table. */
  ghost predicate RaceFree(c: Config, a: seq<Move>)
    requires WorldExec(c, Empty(), a).Some?
  {
    forall b | SameEvents(a, b) && WorldExec(c, Empty(), b).Some? ::
      WorldExec(c, Empty(), b).value.table == WorldExec(c, Empty(), a).value.table
  }

  // ----- Running jobs one after another -----

  lemma EmptyRun(c: Config, w: World)
    ensures WorldExec(c, w, []) == Some(w)
  {
  }

  lemma OneMoreMove(c: Config, w: World, ms: seq<Move>, m: Move)
    requires WorldExec(c, w, ms).Some?
    ensures WorldExec(c, w, ms + [m]) == WorldStep(c, WorldExec(c, w, ms).value, m)
  {
    assert (ms + [m])[..|ms|] == ms;
  }

  lemma {:induction false} ExecAppends(c: Config, w: World, a: seq<Move>, b: seq<Move>)
    requires WorldExec(c, w, a).Some?
    ensures WorldExec(c, w, a + b) == WorldExec(c, WorldExec(c, w, a).value, b)
  {
    hide WorldStep;
    if b == [] {
      assert a + b == a;
    } else {
      assert (a + b)[..|a + b| - 1] == a + b[..|b| - 1];
      ExecAppends(c, w, a, b[..|b| - 1]);
    }
  }

  lemma {:induction false} ProjectAppends(a: seq<Move>, b: seq<Move>, id: nat)
    ensures Project(a + b, id) == Project(a, id) + Project(b, id)
  {
    if b == [] {
      assert a + b == a;
    } else {
      assert (a + b)[..|a + b| - 1] == a + b[..|b| - 1];
      ProjectAppends(a, b[..|b| - 1], id);
    }
  }

  /** The events of one job as moves. */
  function Alone(id: nat, es: seq<JobEvent>): seq<Move> {
    if es == [] then [] else Alone(id, es[..|es| - 1]) + [Move(id, es[|es| - 1])]
  }

  lemma {:induction false} ProjectAlone(id: nat, es: seq<JobEvent>, other: nat)
    ensures Project(Alone(id, es), other) == if other == id then es else []
  {
    if es != [] {
      var n := |es| - 1;
      ProjectAlone(id, es[..n], other);
      assert Alone(id, es)[..|Alone(id, es)| - 1] == Alone(id, es[..n]);
      assert es == es[..n] + [es[n]];
    }
  }

  function Committed(j: Job): seq<SaveOp> {
    match j.commit case Some(op) => [op] case None => []
  }

  /** A job that runs alone leaves its own state and appends its commit, if any. */
  lemma {:induction false} JobAlone(c: Config, w: World, id: nat, es: seq<JobEvent>, j: Job)
    requires JobExec(c, es) == Some(j) && id !in w.jobs
    ensures WorldExec(c, w, Alone(id, es)).Some?
    ensures var w' := WorldExec(c, w, Alone(id, es)).value;
      && JobOf(w', id) == j && w'.jobs.Keys - {id} == w.jobs.Keys
      && w'.log == w.log + Committed(j)
  {
    NothingHappened(c, w, id);
    hide WorldExec, WorldStep, JobExec, JobStep, JobOf, Committed, Alone;
    if es != [] {
      var init, e := es[..|es| - 1], es[|es| - 1];
      var before := LastEvent(c, id, es);
      JobAlone(c, w, id, init, before);
      CommitStep(c, init, before, e);
      JobMoves(c, WorldExec(c, w, Alone(id, init)).value, Move(id, e), before);
      OneMoreMove(c, w, Alone(id, init), Move(id, e));
    }
  }

  lemma LastEvent(c: Config, id: nat, es: seq<JobEvent>) returns (before: Job)
    requires es != [] && JobExec(c, es).Some?
    ensures var init, e := es[..|es| - 1], es[|es| - 1];
      && JobExec(c, init) == Some(before) && JobStep(c, before, e) == JobExec(c, es)
      && Alone(id, es) == Alone(id, init) + [Move(id, e)]
  {
    hide JobStep;
    before := JobExec(c, es[..|es| - 1]).value;
  }

  lemma {:induction false} NothingHappened(c: Config, w: World, id: nat)
    requires id !in w.jobs
    ensures WorldExec(c, w, Alone(id, [])) == Some(w) && JobExec(c, []) == Some(JobOf(w, id))
    ensures Committed(JobOf(w, id)) == [] && w.jobs.Keys - {id} == w.jobs.Keys
  {
  }

  lemma JobMoves(c: Config, w: World, m: Move, before: Job)
    requires JobOf(w, m.id) == before && JobStep(c, before, m.event).Some?
    requires if m.event.Save? then before.commit.None? else JobStep(c, before, m.event).value.commit == before.commit
    ensures WorldStep(c, w, m).Some?
    ensures var w', j := WorldStep(c, w, m).value, JobStep(c, before, m.event).value;
      && JobOf(w', m.id) == j && w'.jobs.Keys == w.jobs.Keys + {m.id}
      && w'.log == w.log + (if m.event.Save? then Committed(j) else [])
      && Committed(j) == Committed(before) + (if m.event.Save? then Committed(j) else [])
  {
    hide JobStep, Upsert;
  }

  /** A job's commit appears with its save, and stays. */
  lemma CommitStep(c: Config, es: seq<JobEvent>, j: Job, e: JobEvent)
    requires JobExec(c, es) == Some(j) && JobStep(c, j, e).Some?
    ensures if e.Save? then j.commit.None? else JobStep(c, j, e).value.commit == j.commit
  {
    JobSavesWhatItFetched(c, es, j);
  }

  /** The jobs of `order`, each run to where its events take it, one after another. */
  function InTurn(a: seq<Move>, order: seq<nat>): seq<Move> {
    if order == [] then []
    else InTurn(a, order[..|order| - 1]) + Alone(order[|order| - 1], Project(a, order[|order| - 1]))
  }

  function CommitsInTurn(jobs: map<nat, Job>, order: seq<nat>): seq<SaveOp>
    requires forall id | id in order :: id in jobs
  {
    if order == [] then []
    else CommitsInTurn(jobs, order[..|order| - 1]) + Committed(jobs[order[|order| - 1]])
  }

  lemma {:induction false} InTurnProjects(a: seq<Move>, order: seq<nat>, id: nat)
    requires Distinct(order)
    ensures Project(InTurn(a, order), id) == if id in order then Project(a, id) else []
  {
    if order != [] {
      var init, last := order[..|order| - 1], order[|order| - 1];
      assert order == init + [last] && last !in init;
      InTurnProjects(a, init, id);
      ProjectAppends(InTurn(a, init), Alone(last, Project(a, last)), id);
      ProjectAlone(last, Project(a, last), id);
    }
  }

  lemma {:induction false} InTurnRuns(c: Config, a: seq<Move>, order: seq<nat>)
    requires WorldExec(c, Empty(), a).Some? && Distinct(order)
    requires forall id | id in order :: id in WorldExec(c, Empty(), a).value.jobs
    ensures WorldExec(c, Empty(), InTurn(a, order)).Some?
    ensures var w := WorldExec(c, Empty(), InTurn(a, order)).value;
      && w.log == CommitsInTurn(WorldExec(c, Empty(), a).value.jobs, order)
      && (forall id | id !in order :: id !in w.jobs)
  {
    hide WorldExec, JobExec, Project, Alone;
    if order == [] {
      EmptyRun(c, Empty());
    } else {
      var init, last := order[..|order| - 1], order[|order| - 1];
      assert order == init + [last] && last !in init;
      InTurnRuns(c, a, init);
      JobsAreIndependent(c, a, last);
      JobAlone(c, WorldExec(c, Empty(), InTurn(a, init)).value, last, Project(a, last),
               WorldExec(c, Empty(), a).value.jobs[last]);
      ExecAppends(c, Empty(), InTurn(a, init), Alone(last, Project(a, last)));
    }
  }

  // ----- Races -----

  lemma {:induction false} Enumerate(ids: set<nat>) returns (order: seq<nat>)
    ensures Distinct(order) && forall id :: id in order <==> id in ids
  {
    order := [];
    if ids != {} {
      var id :| id in ids;
      var rest := Enumerate(ids - {id});
      order := rest + [id];
    }
  }

  /** Two jobs run last, in either order, end the log with their commits in that order. */
  lemma LastTwo(jobs: map<nat, Job>, others: seq<nat>, i: nat, j: nat)
    requires forall id | id in others + [i, j] :: id in jobs
    requires jobs[i].commit.Some? && jobs[j].commit.Some?
    ensures forall id | id in others :: id in jobs
    ensures CommitsInTurn(jobs, others + [i, j]) ==
            CommitsInTurn(jobs, others) + [jobs[i].commit.value] + [jobs[j].commit.value]
  {
    assert forall id | id in others :: id in others + [i, j];
    assert i in others + [i, j] && j in others + [i, j];
    var order := others + [i, j];
    assert order[..|order| - 1] == others + [i];
    assert (others + [i])[..|others + [i]| - 1] == others;
  }

  /** The run in which all other jobs go first, then `i`, then `j`. */
  lemma RunLast(c: Config, a: seq<Move>, others: seq<nat>, i: nat, j: nat) returns (b: seq<Move>)
    requires WorldExec(c, Empty(), a).Some? && Distinct(others) && i != j && i !in others && j !in others
    requires forall id :: id in WorldExec(c, Empty(), a).value.jobs <==> id in others || id == i || id == j
    requires WorldExec(c, Empty(), a).value.jobs[i].commit.Some? && WorldExec(c, Empty(), a).value.jobs[j].commit.Some?
    ensures SameEvents(a, b) && WorldExec(c, Empty(), b).Some?
    ensures forall id | id in others :: id in WorldExec(c, Empty(), a).value.jobs
    ensures var jobs := WorldExec(c, Empty(), a).value.jobs;
      WorldExec(c, Empty(), b).value.table ==
      Upsert(Upsert(Replay(CommitsInTurn(jobs, others)), jobs[i].commit.value), jobs[j].commit.value)
  {
    hide WorldExec, Replay, Upsert, CommitsInTurn;
    var jobs := WorldExec(c, Empty(), a).value.jobs;
    var order := others + [i, j];
    assert forall id :: id in order <==> id in jobs;
    InTurnRuns(c, a, order);
    b := InTurn(a, order);
    forall id: nat
      ensures Project(a, id) == Project(b, id)
    {
      JobsAreIndependent(c, a, id);
      InTurnProjects(a, order, id);
    }
    LastTwo(jobs, others, i, j);
    EveryInterleaving(c, b);
    var first := CommitsInTurn(jobs, others);
    ReplaySnoc(first, jobs[i].commit.value);
    ReplaySnoc(first + [jobs[i].commit.value], jobs[j].commit.value);
  }

  /** Two conflicting commits can be made in either order, with different tables. */
  lemma ConflictRaces(c: Config, a: seq<Move>, m: nat, n: nat) returns (b: seq<Move>, b': seq<Move>)
    requires WorldExec(c, Empty(), a).Some?
    requires m < |WorldExec(c, Empty(), a).value.log| && n < |WorldExec(c, Empty(), a).value.log|
    requires !Compatible(WorldExec(c, Empty(), a).value.log[m], WorldExec(c, Empty(), a).value.log[n])
    ensures SameEvents(a, b) && WorldExec(c, Empty(), b).Some?
    ensures SameEvents(a, b') && WorldExec(c, Empty(), b').Some?
    ensures WorldExec(c, Empty(), b).value.table != WorldExec(c, Empty(), b').value.table
  {
    hide WorldExec, Replay, Upsert, CommitsInTurn, JobInv;
    var w := WorldExec(c, Empty(), a).value;
    EveryInterleaving(c, a);
    var i, j := w.committers[m], w.committers[n];
    assert m != n;
    var others := Enumerate(w.jobs.Keys - {i, j});
    b := RunLast(c, a, others, i, j);
    b' := RunLast(c, a, others, j, i);
    SavesCommuteExactly(Replay(CommitsInTurn(w.jobs, others)), w.log[m], w.log[n]);
  }

  /** The table does not depend on the interleaving exactly when no two commits conflict. */
  lemma RaceFreeExactly(c: Config, a: seq<Move>)
    requires WorldExec(c, Empty(), a).Some?
    ensures RaceFree(c, a) <==> AllCompatible(WorldExec(c, Empty(), a).value.log)
  {
    hide WorldExec, Compatible;
    var log := WorldExec(c, Empty(), a).value.log;
    if AllCompatible(log) {
      forall b | SameEvents(a, b) && WorldExec(c, Empty(), b).Some?
        ensures WorldExec(c, Empty(), b).value.table == WorldExec(c, Empty(), a).value.table
      {
        InterleavingDoesNotMatter(c, a, b);
      }
    } else {
      var m, n :| 0 <= m < |log| && 0 <= n < |log| && !Compatible(log[m], log[n]);
      var b, b' := ConflictRaces(c, a, m, n);
    }
  }

  /** In particular, jobs whose clock readings round to different microseconds do not race. */
  lemma DistinctTimesDoNotRace(c: Config, a: seq<Move>)
    requires WorldExec(c, Empty(), a).Some?
    requires var log := WorldExec(c, Empty(), a).value.log;
      forall i, j | 0 <= i < j < |log| :: StoredMicros(log[i].date) != StoredMicros(log[j].date)
    ensures RaceFree(c, a)
  {
    hide WorldExec, RaceFree;
    DistinctRowsAreCompatible(WorldExec(c, Empty(), a).value.log);
    RaceFreeExactly(c, a);
  }
}
