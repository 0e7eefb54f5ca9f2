/** `RetryPolicy.Do` as a machine whose steps interleave with an environment that may cancel the
  * context between any two of them.
  */
module Retry {
  import opened Outcomes
  import opened Errors
  import opened Backoff

  type Outcome = Option<Error>  // what one call of fn returned: nothing, or an error

  datatype Phase =
    | Top                                // at the loop guard
    | Admitted                           // guard and ctx.Err() passed, fn not called yet
    | Calling                            // fn is running
    | Waiting(jitter: real)              // in the select, timer armed
    | Returned(result: Option<Error>)

  datatype State = State(
    phase: Phase,
    attempt: nat,
    lastErr: Option<Error>,
    ctx: Option<Cause>,        // the context's error, once it has one
    calls: seq<int>,           // the argument of every call of fn that has started
    outcomes: seq<Outcome>,    // what the finished calls returned
    jitters: seq<real>)        // one for every sleep that ran to its end

  datatype Event =
    | Cancel(cause: Cause)
    | Check
    | Call
    | Return(outcome: Outcome, jitter: real)
    | TimerFires
    | DoneFires

  function Init(): State {
    State(Top, 0, None, None, [], [], [])
  }

  /** The next state, or nothing when the event cannot happen there. */
  function Step(p: RetryPolicy, s: State, e: Event): Option<State> {
    match (s.phase, e)
    case (Returned(_), _) => None
    case (_, Cancel(cause)) =>
      if s.ctx.None? then Some(s.(ctx := Some(cause))) else None
    case (Top, Check) =>
      if s.attempt >= p.maxAttempts then
        Some(s.(phase := Returned(Some(Exhausted(p.maxAttempts, s.lastErr)))))
      else if s.ctx.Some? then
        Some(s.(phase := Returned(Some(FromContext(s.ctx.value)))))
      else
        Some(s.(phase := Admitted))
    case (Admitted, Call) =>
      Some(s.(phase := Calling, calls := s.calls + [s.attempt]))
    case (Calling, Return(outcome, jitter)) =>
      if !Jitter(jitter) then None else
      var s' := s.(outcomes := s.outcomes + [outcome]);
      if outcome.None? then
        Some(s'.(phase := Returned(None)))
      else if !IsRetriable(outcome.value) then
        Some(s'.(phase := Returned(outcome), lastErr := outcome))
      else if s.attempt == p.maxAttempts - 1 then
        Some(s'.(phase := Returned(Some(Exhausted(p.maxAttempts, outcome))), lastErr := outcome))
      else
        Some(s'.(phase := Waiting(jitter), lastErr := outcome))
    case (Waiting(jitter), TimerFires) =>
      Some(s.(phase := Top, attempt := s.attempt + 1, jitters := s.jitters + [jitter]))
    case (Waiting(_), DoneFires) =>
      if s.ctx.Some? then Some(s.(phase := Returned(Some(FromContext(s.ctx.value))))) else None
    case _ => None
  }

  /** The state a run leads to, or nothing when it is not a run of the machine. */
  function Exec(p: RetryPolicy, es: seq<Event>): Option<State> {
    if es == [] then Some(Init())
    else
      match Exec(p, es[..|es| - 1])
      case None => None
      case Some(s) => Step(p, s, es[|es| - 1])
  }

  lemma ExecSnoc(p: RetryPolicy, es: seq<Event>, e: Event)
    requires Exec(p, es).Some?
    ensures Exec(p, es + [e]) == Step(p, Exec(p, es).value, e)
  {
    assert (es + [e])[..|es|] == es;
  }

  // ----- What every reachable state keeps -----

  predicate RetriableOutcome(o: Outcome) {
    o.Some? && IsRetriable(o.value)
  }

  /** How the phase ties the attempt counter to the calls made so far. */
  predicate Progress(p: RetryPolicy, s: State) {
    match s.phase
    case Top => |s.calls| == |s.outcomes| == s.attempt <= Max0(p.maxAttempts)
    case Admitted => |s.calls| == |s.outcomes| == s.attempt < p.maxAttempts
    case Calling => |s.calls| == |s.outcomes| + 1 == s.attempt + 1 <= p.maxAttempts
    case Waiting(_) => |s.calls| == |s.outcomes| == s.attempt + 1 < p.maxAttempts
    case Returned(_) => |s.calls| == |s.outcomes| <= Max0(p.maxAttempts)
  }

  predicate Inv(p: RetryPolicy, s: State) {
    && Progress(p, s)
    && (forall i | 0 <= i < |s.calls| :: s.calls[i] == i)
    && (forall i | 0 <= i < |s.outcomes| - 1 :: RetriableOutcome(s.outcomes[i]))
    && (!s.phase.Returned? ==> forall i | 0 <= i < |s.outcomes| :: RetriableOutcome(s.outcomes[i]))
    && (!s.phase.Returned? ==> s.lastErr == Last(s.outcomes))
    && (s.phase.Returned? ==> Explained(p, s))
    && |s.jitters| == s.attempt
    && (s.jitters != [] ==> |s.jitters| < p.maxAttempts)
    && (forall i | 0 <= i < |s.jitters| :: Jitter(s.jitters[i]))
    && (s.phase.Waiting? ==> Jitter(s.phase.jitter))
  }

  function Last(outcomes: seq<Outcome>): Outcome {
    if outcomes == [] then None else outcomes[|outcomes| - 1]
  }

  /** The four ways a run can end. */
  predicate Explained(p: RetryPolicy, s: State)
    requires s.phase.Returned?
  {
    || Succeeded(s)
    || FailedFast(s)
    || RanOut(p, s)
    || WasCancelled(p, s)
  }

  predicate Succeeded(s: State)
    requires s.phase.Returned?
  {
    s.phase.result == None && s.outcomes != [] && Last(s.outcomes) == None
  }

  predicate FailedFast(s: State)
    requires s.phase.Returned?
  {
    && s.outcomes != [] && Last(s.outcomes).Some? && !IsRetriable(Last(s.outcomes).value)
    && s.phase.result == Last(s.outcomes)
  }

  predicate RanOut(p: RetryPolicy, s: State)
    requires s.phase.Returned?
  {
    && |s.outcomes| == Max0(p.maxAttempts)
    && (forall i | 0 <= i < |s.outcomes| :: RetriableOutcome(s.outcomes[i]))
    && s.phase.result == Some(Exhausted(p.maxAttempts, Last(s.outcomes)))
  }

  predicate WasCancelled(p: RetryPolicy, s: State)
    requires s.phase.Returned?
  {
    && s.ctx.Some? && |s.outcomes| < p.maxAttempts
    && (forall i | 0 <= i < |s.outcomes| :: RetriableOutcome(s.outcomes[i]))
    && s.phase.result == Some(FromContext(s.ctx.value))
  }

  lemma StepKeepsInv(p: RetryPolicy, s: State, e: Event)
    requires Inv(p, s) && Step(p, s, e).Some?
    ensures Inv(p, Step(p, s, e).value)
  {
    hide IsRetriable, Jitter;
  }

  lemma {:induction false} RunKeepsInv(p: RetryPolicy, es: seq<Event>)
    requires Exec(p, es).Some?
    ensures Inv(p, Exec(p, es).value)
  {
    if es != [] {
      RunKeepsInv(p, es[..|es| - 1]);
      StepKeepsInv(p, Exec(p, es[..|es| - 1]).value, es[|es| - 1]);
    }
  }

  // ----- How a finished run ended -----

  predicate AllRetriable(outcomes: seq<Outcome>) {
    forall i | 0 <= i < |outcomes| :: RetriableOutcome(outcomes[i])
  }

  /** The calls of a finished run, and each exit exactly when it is due. */
  lemma RunCharacterisation(p: RetryPolicy, es: seq<Event>, s: State)
    requires Exec(p, es) == Some(s) && s.phase.Returned?
    ensures |s.calls| == |s.outcomes| <= Max0(p.maxAttempts)
    ensures forall i | 0 <= i < |s.calls| :: s.calls[i] == i
    ensures forall i | 0 <= i < |s.outcomes| - 1 :: RetriableOutcome(s.outcomes[i])
    ensures s.phase.result == None <==> s.outcomes != [] && Last(s.outcomes) == None
    ensures s.phase.result.Some? && s.phase.result == Last(s.outcomes) <==>
            s.outcomes != [] && Last(s.outcomes).Some? && !IsRetriable(Last(s.outcomes).value)
    ensures s.phase.result == Some(Exhausted(p.maxAttempts, Last(s.outcomes))) <==>
            p.maxAttempts <= 0 || (|s.outcomes| == p.maxAttempts && AllRetriable(s.outcomes))
    ensures RanOut(p, s) && p.maxAttempts >= 1 ==> Last(s.outcomes).Some?
    ensures AllRetriable(s.outcomes) && |s.outcomes| < p.maxAttempts ==>
            s.ctx.Some? && s.phase.result == Some(FromContext(s.ctx.value))
  {
    RunKeepsInv(p, es);
  }

  /** A caller can tell exhaustion from every other failure: only then does the error it gets
    * still have a retriable error in its chain. */
  lemma OnlyExhaustionStaysRetriable(p: RetryPolicy, es: seq<Event>, s: State)
    requires Exec(p, es) == Some(s) && s.phase.Returned?
    ensures RetriableOutcome(s.phase.result) <==> p.maxAttempts >= 1 && RanOut(p, s)
  {
    RunKeepsInv(p, es);
    RunCharacterisation(p, es, s);
    if p.maxAttempts >= 1 && RanOut(p, s) {
      assert RetriableOutcome(Last(s.outcomes));
    }
  }

  // ----- Cancellation -----

  /** Steps a cancelled run can still take. */
  function StepsLeft(phase: Phase): nat {
    match phase
    case Returned(_) => 0
    case Top => 1
    case Waiting(_) => 2
    case Calling => 3
    case Admitted => 4
  }

  /** After a cancellation every step uses one up, and only an admitted attempt still makes its call. */
  lemma CancelledStep(p: RetryPolicy, s: State, e: Event)
    requires s.ctx.Some? && Step(p, s, e).Some?
    ensures var s' := Step(p, s, e).value;
      && s'.ctx == s.ctx && StepsLeft(s'.phase) < StepsLeft(s.phase)
      && |s'.calls| + (if s'.phase == Admitted then 1 else 0) <= |s.calls| + if s.phase == Admitted then 1 else 0
  {
    hide IsRetriable, Jitter;
  }

  lemma {:induction false} AfterCancellation(p: RetryPolicy, before: seq<Event>, cause: Cause, after: seq<Event>)
    requires Exec(p, before + [Cancel(cause)] + after).Some?
    ensures Exec(p, before).Some? && !Exec(p, before).value.phase.Returned?
    ensures var s1, s2 := Exec(p, before).value, Exec(p, before + [Cancel(cause)] + after).value;
      && s2.ctx == Some(cause)
      && |after| + StepsLeft(s2.phase) <= StepsLeft(s1.phase)
      && |s2.calls| + (if s2.phase == Admitted then 1 else 0) <= |s1.calls| + if s1.phase == Admitted then 1 else 0
  {
    var all := before + [Cancel(cause)] + after;
    if after == [] {
      assert all == before + [Cancel(cause)];
      assert all[..|all| - 1] == before;
    } else {
      var shorter := after[..|after| - 1];
      assert all[..|all| - 1] == before + [Cancel(cause)] + shorter;
      AfterCancellation(p, before, cause, shorter);
      CancelledStep(p, Exec(p, before + [Cancel(cause)] + shorter).value, after[|after| - 1]);
      hide Step;
    }
  }

  /** However the run goes on after a cancellation, at most one more call of fn starts, that one only
    * when the cancellation fell between the check and the call, and at most four steps remain. */
  lemma CancellationSafety(p: RetryPolicy, before: seq<Event>, cause: Cause, after: seq<Event>)
    requires Exec(p, before + [Cancel(cause)] + after).Some?
    ensures Exec(p, before).Some?
    ensures var s1, s2 := Exec(p, before).value, Exec(p, before + [Cancel(cause)] + after).value;
      && |s2.calls| - |s1.calls| <= (if s1.phase == Admitted then 1 else 0)
      && (s1.phase.Waiting? ==> s2.calls == s1.calls)
      && |after| <= 4
  {
    AfterCancellation(p, before, cause, after);
    var prefix := before + [Cancel(cause)];
    CallsOnlyGrow(p, prefix, after);
    assert prefix[..|prefix| - 1] == before;
  }

  lemma {:induction false} CallsOnlyGrow(p: RetryPolicy, es: seq<Event>, more: seq<Event>)
    requires Exec(p, es + more).Some?
    ensures Exec(p, es).Some? && Exec(p, es).value.calls <= Exec(p, es + more).value.calls
  {
    if more == [] {
      assert es + more == es;
    } else {
      assert (es + more)[..|es + more| - 1] == es + more[..|more| - 1];
      CallsOnlyGrow(p, es, more[..|more| - 1]);
    }
  }

  // ----- Termination -----

  function Budget(p: RetryPolicy, s: State): int {
    (if s.ctx.None? then 1 else 0) +
    match s.phase
    case Returned(_) => 0
    case Top => 4 * (Max0(p.maxAttempts) - s.attempt) + 1
    case Admitted => 4 * (Max0(p.maxAttempts) - s.attempt)
    case Calling => 4 * (Max0(p.maxAttempts) - s.attempt) - 1
    case Waiting(_) => 4 * (Max0(p.maxAttempts) - s.attempt) - 2
  }

  /** Every run is bounded, cancelled or not, and a run that has not returned can always go on
    * without waiting for a cancellation. */
  lemma {:induction false} EveryRunTerminates(p: RetryPolicy, es: seq<Event>)
    requires Exec(p, es).Some?
    ensures |es| + Budget(p, Exec(p, es).value) <= 4 * Max0(p.maxAttempts) + 2
    ensures |es| <= 4 * Max0(p.maxAttempts) + 2
    ensures !Exec(p, es).value.phase.Returned? ==>
            exists e: Event :: !e.Cancel? && Step(p, Exec(p, es).value, e).Some?
  {
    if es != [] {
      var init := es[..|es| - 1];
      EveryRunTerminates(p, init);
      RunKeepsInv(p, init);
      BudgetFalls(p, Exec(p, init).value, es[|es| - 1]);
      hide Step;
    }
    RunKeepsInv(p, es);
    CanGoOn(p, Exec(p, es).value);
  }

  lemma BudgetFalls(p: RetryPolicy, s: State, e: Event)
    requires Inv(p, s) && Step(p, s, e).Some?
    ensures Budget(p, Step(p, s, e).value) < Budget(p, s)
  {
    hide IsRetriable, Jitter, RetriableOutcome, Explained;
  }

  lemma CanGoOn(p: RetryPolicy, s: State)
    requires Inv(p, s)
    ensures Budget(p, s) >= 0
    ensures !s.phase.Returned? ==> exists e: Event :: !e.Cancel? && Step(p, s, e).Some?
  {
    hide IsRetriable, RetriableOutcome, Explained;
    match s.phase
    case Returned(_) =>
    case Top => assert Step(p, s, Check).Some?;
    case Admitted => assert Step(p, s, Call).Some?;
    case Calling => assert Step(p, s, Return(None, 0.0)).Some?;
    case Waiting(_) => assert Step(p, s, TimerFires).Some?;
  }

  // ----- The time a run sleeps -----

  /** If base * 2^(maxAttempts - 2) is an int64, no run sleeps longer than 1.3 times the closed form
    * over its sleeps, nor shorter than 0.7 times it less a nanosecond a sleep. */
  lemma RunWaitBounds(p: RetryPolicy, es: seq<Event>)
    requires PositiveDelays(p) && (p.maxAttempts >= 2 ==> Fits(p, p.maxAttempts - 2))
    requires Exec(p, es).Some?
    ensures var js := Exec(p, es).value.jitters;
      && |js| <= Max0(p.maxAttempts - 1)
      && 0.7 * ClosedForm(p, |js|) as real - |js| as real <= TotalWait(p, js) as real
      && TotalWait(p, js) as real <= 1.3 * ClosedForm(p, |js|) as real
  {
    RunKeepsInv(p, es);
    var js := Exec(p, es).value.jitters;
    if js != [] { ScaledGrows(p.baseDelay as int, |js| - 1, p.maxAttempts - 2); }
    TotalWaitBounds(p, js);
  }

  /** Whatever the policy, overflowing or not, no run sleeps longer than 1.3 times the cap a retry. */
  lemma RunWaitIsCapped(p: RetryPolicy, es: seq<Event>)
    requires Exec(p, es).Some?
    ensures TotalWait(p, Exec(p, es).value.jitters) as real <=
            1.3 * (Max0(p.maxDelay as int) * Max0(p.maxAttempts - 1)) as real
  {
    RunKeepsInv(p, es);
    var js := Exec(p, es).value.jitters;
    TotalWaitIsCapped(p, js);
    ProductGrows(Max0(p.maxDelay as int), |js|, Max0(p.maxAttempts - 1));
  }

  lemma ProductGrows(m: nat, a: nat, b: nat)
    requires a <= b
    ensures m * a <= m * b
  {
  }

  /** The run in which every call fails with a retriable error reaches every sleep there can be, under
    * every jitter that can be drawn. */
  lemma {:induction false} ReachesSleep(p: RetryPolicy, k: nat, jitter: real) returns (es: seq<Event>)
    requires k + 1 < p.maxAttempts && -0.3 <= jitter < 0.3
    ensures Exec(p, es).Some? && Exec(p, es).value.phase == Waiting(jitter) && Exec(p, es).value.attempt == k
    ensures Exec(p, es).value.ctx == None
  {
    es := [];
    if k > 0 {
      es := ReachesSleep(p, k - 1, jitter);
      ExecSnoc(p, es, TimerFires);
      es := es + [TimerFires];
    }
    hide Exec;
    es := FailingRound(p, es, jitter);
  }

  /** From the top of the loop: check, call, and a retriable failure. */
  lemma FailingRound(p: RetryPolicy, es: seq<Event>, jitter: real) returns (es': seq<Event>)
    requires Exec(p, es).Some? && Exec(p, es).value.phase == Top && Exec(p, es).value.ctx == None
    requires Exec(p, es).value.attempt + 1 < p.maxAttempts && -0.3 <= jitter < 0.3
    ensures Exec(p, es').Some?
    ensures Exec(p, es').value.phase == Waiting(jitter) && Exec(p, es').value.ctx == None
    ensures Exec(p, es').value.attempt == Exec(p, es).value.attempt
  {
    hide Exec;
    var failure := Return(Some(Retriable(Plain(""))), jitter);
    ExecSnoc(p, es, Check);
    ExecSnoc(p, es + [Check], Call);
    ExecSnoc(p, es + [Check] + [Call], failure);
    es' := es + [Check] + [Call] + [failure];
  }

  ghost predicate SleepsAsIntended(p: RetryPolicy) {
    forall es: seq<Event> | Exec(p, es).Some? && Exec(p, es).value.phase.Waiting? ::
      Nominal(p, Exec(p, es).value.attempt) as int == Ideal(p, Exec(p, es).value.attempt)
  }

  /** Every sleep of every run aims at min(base * 2^k, max) exactly when the last possible one does
    * not overflow: a bound to be checked on the configuration. */
  lemma SleepsAsIntendedExactly(p: RetryPolicy)
    requires PositiveDelays(p)
    ensures p.maxAttempts < 2 || Fits(p, p.maxAttempts - 2) ==> SleepsAsIntended(p)
    ensures SleepsAsIntended(p) && p.maxAttempts >= 2 ==> Fits(p, p.maxAttempts - 2)
  {
    if p.maxAttempts < 2 || Fits(p, p.maxAttempts - 2) {
      forall es: seq<Event> | Exec(p, es).Some? && Exec(p, es).value.phase.Waiting?
        ensures Nominal(p, Exec(p, es).value.attempt) as int == Ideal(p, Exec(p, es).value.attempt)
      {
        RunKeepsInv(p, es);
        ScaledGrows(p.baseDelay as int, Exec(p, es).value.attempt, p.maxAttempts - 2);
        NominalIsIdeal(p, Exec(p, es).value.attempt);
      }
    }
    if SleepsAsIntended(p) && p.maxAttempts >= 2 && !Fits(p, p.maxAttempts - 2) {
      var f := OverflowStarts(p, p.maxAttempts - 2);
      FirstOverflow(p, f);
      ScaledGrows(p.baseDelay as int, 0, f);
      var es := ReachesSleep(p, f, 0.0);
      assert false;
    }
  }

  /** A plausible configuration that overflows: half a second doubled over 37 attempts. */
  lemma OverflowingConfiguration() returns (p: RetryPolicy)
    ensures p == RetryPolicy(37, 500_000_000, 30_000_000_000) && PositiveDelays(p)
    ensures !Fits(p, p.maxAttempts - 2) && Nominal(p, p.maxAttempts - 2) < 0 && !SleepsAsIntended(p)
  {
    p := RetryPolicy(37, 500_000_000, 30_000_000_000);
    assert Pow2(2) == 4;
    Pow2Adds(2, 32);
    Pow2Constants();
    ScaledIsProduct(500_000_000, 34);
    ScaledIsProduct(500_000_000, 35);
    FirstOverflow(p, 35);
    SleepsAsIntendedExactly(p);
  }
}
