/** The ECB client as the program runs it: the retry loop over a callback with side effects, under a
  * context that its environment may cancel at any moment.
  */
module EcbClient {
  import opened Outcomes
  import opened Errors
  import opened Backoff
  import opened Retry
  import opened Store
  import opened Dto
  import opened Ecb

  class Context {
    var err: Option<Cause>  // ctx.Err()
    var slept: nat  // nanoseconds of sleep that ran to their end under it

    /** The environment's move: it may cancel a live context, and never revives a cancelled one. */
    method Interfere()
      modifies this`err
      ensures old(err).Some? ==> err == old(err)
    {
      var cancels: bool, cause: Cause := *, *;
      if err.None? && cancels {
        err := Some(cause);
      }
    }

    /** The select between the timer and ctx.Done(): with both ready it takes either. */
    method Wait(p: RetryPolicy, attempt: nat, jitter: real) returns (done: bool)
      modifies this
      ensures old(err).Some? ==> err == old(err)
      ensures done ==> err.Some?
      ensures slept == old(slept) + if done then 0 else Sleep(p, attempt, jitter)
    {
      var delay := Delay(p, attempt, jitter);
      Interfere();
      var picksDone: bool := *;
      done := err.Some? && picksDone;
      if !done {
        slept := slept + Max0(delay);
      }
    }
  }

  class Client {
    const retry: RetryPolicy
    var durations: multiset<DurationLabel>
    var errors: multiset<ErrorLabel>

    constructor (retry: RetryPolicy)
      ensures this.retry == retry && durations == multiset{} && errors == multiset{}
    {
      this.retry := retry;
      durations, errors := multiset{}, multiset{};
    }

    method FetchOnce(req: CurrencyRequestDTO, reply: Reply) returns (r: Result<Rates, Error>)
      modifies this
      ensures r == Attempt(req.Value(), reply)
      ensures r.Ok? <==>
              && req.baseCurrency != "" && req.targetCurrency != ""
              && req.dateFrom != ZERO_TIME && req.dateTo != ZERO_TIME
              && reply.Answered? && reply.status == 200
              && (reply.body.Blank? || (reply.body.Document? && !SomeUnparsed(reply.body.obs)))
      ensures r.Ok? ==> if reply.body.Blank? then r.value == map[] else LastOfEach(r.value, reply.body.obs)
      ensures durations == old(durations) + Duration(req.Value(), reply)
      ensures errors == old(errors) + ErrorCount(req.Value(), reply)
    {
      AttemptExactly(req.Value(), reply);
      hide SomeUnparsed, LastOfEach, IsContextError, RatesOf;
      if !CompleteRequest(req.Value()) {
        return Err(Plain("found zero value in request"));
      }
      var body: Body;
      match reply {
        case RequestInvalid(e) =>
          return Err(Wrapped("create request", e));
        case TransportFailed(e) =>
          if IsContextError(e) {
            return Err(e);
          }
          durations := durations + multiset{NetworkError};
          errors := errors + multiset{Network};
          return Err(Retriable(Wrapped("http do", e)));
        case Answered(status, b) =>
          if status == 200 {
            durations := durations + multiset{Success};
          } else if status == 429 {
            durations := durations + multiset{Status429};
            errors := errors + multiset{RateLimited};
            return Err(Retriable(Plain("rate limited")));
          } else if status >= 500 {
            durations := durations + multiset{Status5xx};
            errors := errors + multiset{Http(status)};
            return Err(Retriable(Plain("server error")));
          } else {
            durations := durations + multiset{Status4xx};
            errors := errors + multiset{Http(status)};
            return Err(Plain("client error"));
          }
          body := b;
      }
      match body {
        case Unreadable(e) => r := Err(Wrapped("read body", e));
        case Blank => r := Ok(map[]);
        case Undecodable(e) => r := Err(Wrapped("parse xml", Wrapped("failed to decode XML", e)));
        case Document(obs) =>
          var records := ExtractObs(obs);
          if records.Err? {
            return Err(Wrapped("parse xml", records.error));
          }
          var rates := CollectRates(records.value);
          r := Ok(rates);
      }
    }

    /** A finished run of the retry machine; the metrics and the map are those of its replies. */
    method FetchCurrentRates(ctx: Context, req: CurrencyRequestDTO)
      returns (r: Result<Rates, Error>, ghost run: seq<Event>, ghost replies: seq<Reply>)
      modifies this, ctx
      ensures Fetches(retry, req.Value(), run, replies, r)
      ensures r.Ok? ==>
              && replies != [] && replies[|replies| - 1].Answered? && replies[|replies| - 1].status == 200
              && match replies[|replies| - 1].body
                 case Blank => r.value == map[]
                 case Document(obs) => !SomeUnparsed(obs) && LastOfEach(r.value, obs)
                 case _ => false
      ensures durations == old(durations) + Durations(req.Value(), replies)
      ensures errors == old(errors) + ErrorCounts(req.Value(), replies)
      ensures ctx.slept == old(ctx.slept) + TotalWait(retry, Exec(retry, run).value.jitters)
      ensures old(ctx.err).Some? ==> ctx.err == old(ctx.err)
    {
      var fn := new FetchCallback(this, req);
      var err;
      ghost var t;
      err, t := Do(retry, ctx, fn);
      run, replies := t.run, t.replies;
      if err.Some? {
        return Err(err.value), run, replies;
      }
      RunCharacterisation(retry, run, Exec(retry, run).value);
      r := Ok(fn.rates);
      AttemptExactly(req.Value(), replies[|replies| - 1]);
    }
  }

  /** Whatever the network answers. */
  method NextReply() returns (reply: Reply)
    ensures Foreign(reply)
  {
    assert Foreign(Answered(200, Blank));
    reply :| Foreign(reply);
  }

  /** The closure FetchCurrentRates passes to the retry loop: it captures the client, the request
    * and the variable that receives the rates. */
  class FetchCallback {
    const client: Client
    const req: CurrencyRequestDTO
    var rates: Rates
    ghost var replies: seq<Reply>
    ghost var calls: seq<int>  // the arguments it was called with
    ghost const request: Request  // what the request holds during the fetch
    ghost const durations: multiset<DurationLabel>  // the metrics before it
    ghost const errors: multiset<ErrorLabel>

    /** The metrics and the captured map are accounted for by the replies so far. */
    ghost predicate Valid()
      reads this, client, req
    {
      && req.Value() == request
      && client.durations == durations + Durations(request, replies)
      && client.errors == errors + ErrorCounts(request, replies)
      && (replies != [] ==> match Attempt(request, replies[|replies| - 1])
                            case Ok(r) => rates == r
                            case Err(_) => true)
    }

    constructor (client: Client, req: CurrencyRequestDTO)
      ensures Valid() && replies == [] && calls == []
      ensures this.client == client && this.req == req && request == req.Value()
      ensures durations == client.durations && errors == client.errors
    {
      this.client, this.req, rates, replies, calls := client, req, map[], [], [];
      request, durations, errors := req.Value(), client.durations, client.errors;
    }

    /** One attempt on whatever the network answers. */
    method Call(attempt: int) returns (err: Outcome, reply: Reply)
      requires Valid()
      modifies this`rates, this`replies, this`calls, client
      ensures Valid() && Foreign(reply)
      ensures calls == old(calls) + [attempt]
      ensures replies == old(replies) + [reply] && err == ErrorOf(Attempt(request, reply))
    {
      hide Foreign, Attempt, Durations, ErrorCounts, Duration, ErrorCount;
      reply := NextReply();
      OneMoreReply(request, replies, reply);
      replies, calls := replies + [reply], calls + [attempt];
      var r := client.FetchOnce(req, reply);
      assert req.Value() == request;
      if r.Err? {
        return Some(r.error), reply;
      }
      rates := r.value;
      err := None;
    }
  }

  lemma OneMoreReply(req: Request, replies: seq<Reply>, reply: Reply)
    ensures Durations(req, replies + [reply]) == Durations(req, replies) + Duration(req, reply)
    ensures ErrorCounts(req, replies + [reply]) == ErrorCounts(req, replies) + ErrorCount(req, reply)
  {
    assert (replies + [reply])[..|replies|] == replies;
  }

  // ----- The retry loop -----

  /** A run in progress, with the state it leads to and the replies its calls got. */
  datatype Trace = Trace(run: seq<Event>, s: State, replies: seq<Reply>)

  ghost predicate Follows(p: RetryPolicy, req: Request, t: Trace) {
    && Exec(p, t.run) == Some(t.s)
    && t.s.outcomes == Answers(req, t.replies)
    && forall i | 0 <= i < |t.replies| :: Foreign(t.replies[i])
  }

  lemma Start(p: RetryPolicy, req: Request, now: Option<Cause>) returns (t: Trace)
    ensures Follows(p, req, t) && t.s == Init().(ctx := now) && t.replies == []
  {
    t := Trace([], Init(), []);
    t := Cancelled(p, req, t, now);
  }

  /** One more event other than a reply. */
  lemma Extended(p: RetryPolicy, req: Request, t: Trace, e: Event) returns (t': Trace)
    requires Follows(p, req, t) && !e.Return? && Step(p, t.s, e).Some?
    ensures Follows(p, req, t') && t'.s == Step(p, t.s, e).value && t'.replies == t.replies
  {
    OutcomesStay(p, t.s, e);
    ExecSnoc(p, t.run, e);
    hide Step, Exec, Answers;
    t' := Trace(t.run + [e], Step(p, t.s, e).value, t.replies);
  }

  lemma OutcomesStay(p: RetryPolicy, s: State, e: Event)
    requires !e.Return? && Step(p, s, e).Some?
    ensures Step(p, s, e).value.outcomes == s.outcomes
  {
  }

  /** One more event that is the reply to a call. */
  lemma ExtendedByReply(p: RetryPolicy, req: Request, t: Trace, reply: Reply, jitter: real) returns (t': Trace)
    requires Follows(p, req, t) && t.s.phase == Calling && Foreign(reply) && Jitter(jitter)
    ensures Follows(p, req, t') && t'.replies == t.replies + [reply]
    ensures t'.s == AfterReturn(p, t.s, ErrorOf(Attempt(req, reply)), jitter)
  {
    hide Attempt, ErrorOf, Foreign, Jitter, IsRetriable;
    var o := ErrorOf(Attempt(req, reply));
    ReturnStep(p, t.s, o, jitter);
    ExecSnoc(p, t.run, Return(o, jitter));
    OneMoreAnswer(req, t.replies, reply);
    hide Step, Exec, AfterReturn, Answers;
    t' := Trace(t.run + [Return(o, jitter)], AfterReturn(p, t.s, o, jitter), t.replies + [reply]);
  }

  /** The state in which a call leaves the loop. */
  function AfterReturn(p: RetryPolicy, s: State, o: Outcome, jitter: real): State {
    s.(outcomes := s.outcomes + [o],
       lastErr := if o.Some? then o else s.lastErr,
       phase := if o.None? then Returned(None)
                else if !IsRetriable(o.value) then Returned(o)
                else if s.attempt == p.maxAttempts - 1 then Returned(Some(Exhausted(p.maxAttempts, o)))
                else Waiting(jitter))
  }

  lemma ReturnStep(p: RetryPolicy, s: State, o: Outcome, jitter: real)
    requires s.phase == Calling && Jitter(jitter)
    ensures Step(p, s, Return(o, jitter)) == Some(AfterReturn(p, s, o, jitter))
    ensures AfterReturn(p, s, o, jitter).outcomes == s.outcomes + [o]
  {
    hide IsRetriable, Jitter;
  }

  lemma OneMoreAnswer(req: Request, replies: seq<Reply>, reply: Reply)
    ensures Answers(req, replies + [reply]) == Answers(req, replies) + [ErrorOf(Attempt(req, reply))]
  {
    hide Attempt, ErrorOf;
    assert (replies + [reply])[..|replies|] == replies;
  }

  lemma NoWait(p: RetryPolicy)
    ensures TotalWait(p, []) == 0
  {
  }

  /** Notes a cancellation, if there was one since the last step. */
  lemma Cancelled(p: RetryPolicy, req: Request, t: Trace, now: Option<Cause>) returns (t': Trace)
    requires Follows(p, req, t) && !t.s.phase.Returned? && (t.s.ctx.Some? ==> now == t.s.ctx)
    ensures Follows(p, req, t') && t'.s == t.s.(ctx := now) && t'.replies == t.replies
  {
    t' := t;
    if t.s.ctx.None? && now.Some? {
      hide Follows;
      t' := Extended(p, req, t, Cancel(now.value));
    }
  }

  lemma Checked(p: RetryPolicy, req: Request, t: Trace, now: Option<Cause>) returns (t': Trace)
    requires Follows(p, req, t) && t.s.phase == Top && (t.s.ctx.Some? ==> now == t.s.ctx)
    ensures Follows(p, req, t') && t'.replies == t.replies
    ensures t'.s == t.s.(ctx := now, phase :=
              if t.s.attempt >= p.maxAttempts then Returned(Some(Exhausted(p.maxAttempts, t.s.lastErr)))
              else if now.Some? then Returned(Some(FromContext(now.value)))
              else Admitted)
  {
    hide Follows;
    t' := Cancelled(p, req, t, now);
    t' := Extended(p, req, t', Check);
  }

  lemma Called(p: RetryPolicy, req: Request, t: Trace, now: Option<Cause>) returns (t': Trace)
    requires Follows(p, req, t) && t.s.phase == Admitted && (t.s.ctx.Some? ==> now == t.s.ctx)
    ensures Follows(p, req, t') && t'.replies == t.replies
    ensures t'.s == t.s.(ctx := now, phase := Calling, calls := t.s.calls + [t.s.attempt])
  {
    hide Follows;
    t' := Cancelled(p, req, t, now);
    t' := Extended(p, req, t', Call);
  }

  lemma Replied(p: RetryPolicy, req: Request, t: Trace, now: Option<Cause>, reply: Reply, jitter: real)
    returns (t': Trace)
    requires Follows(p, req, t) && t.s.phase == Calling && (t.s.ctx.Some? ==> now == t.s.ctx)
    requires Foreign(reply) && Jitter(jitter)
    ensures var o := ErrorOf(Attempt(req, reply));
      && Follows(p, req, t') && t'.replies == t.replies + [reply]
      && t'.s.ctx == now && t'.s.attempt == t.s.attempt
      && t'.s.calls == t.s.calls && t'.s.jitters == t.s.jitters && (o.Some? ==> t'.s.lastErr == o)
      && t'.s.phase ==
         (if o.None? then Returned(None)
          else if !IsRetriable(o.value) then Returned(o)
          else if t.s.attempt == p.maxAttempts - 1 then Returned(Some(Exhausted(p.maxAttempts, o)))
          else Waiting(jitter))
  {
    hide Follows, Attempt, ErrorOf, Foreign, IsRetriable, Jitter;
    t' := Cancelled(p, req, t, now);
    t' := ExtendedByReply(p, req, t', reply, jitter);
  }

  lemma Woken(p: RetryPolicy, req: Request, t: Trace, now: Option<Cause>, done: bool) returns (t': Trace)
    requires Follows(p, req, t) && t.s.phase.Waiting? && (t.s.ctx.Some? ==> now == t.s.ctx)
    requires done ==> now.Some?
    ensures Follows(p, req, t') && t'.replies == t.replies
    ensures t'.s.ctx == now && t'.s.lastErr == t.s.lastErr && t'.s.calls == t.s.calls
    ensures if done then t'.s.phase == Returned(Some(FromContext(now.value)))
            else t'.s.phase == Top && t'.s.attempt == t.s.attempt + 1
    ensures TotalWait(p, t'.s.jitters) ==
            TotalWait(p, t.s.jitters) + if done then 0 else Sleep(p, t.s.attempt, t.s.phase.jitter)
  {
    OneJitterASleep(p, req, t);
    OneMoreSleep(p, t.s.jitters, t.s.phase.jitter);
    hide Follows, Sleep, TotalWait;
    t' := Cancelled(p, req, t, now);
    t' := Extended(p, req, t', if done then DoneFires else TimerFires);
  }

  lemma OneMoreSleep(p: RetryPolicy, jitters: seq<real>, jitter: real)
    ensures TotalWait(p, jitters + [jitter]) == TotalWait(p, jitters) + Sleep(p, |jitters|, jitter)
  {
    hide Sleep;
    assert (jitters + [jitter])[..|jitters|] == jitters;
  }

  lemma OneJitterASleep(p: RetryPolicy, req: Request, t: Trace)
    requires Follows(p, req, t)
    ensures |t.s.jitters| == t.s.attempt
  {
    hide Progress, Explained, Answers;
    RunKeepsInv(p, t.run);
  }

  /** `RetryPolicy.Do`: whatever the environment does, the loop takes a run of the machine to its
    * end and returns that run's result. */
  method Do(p: RetryPolicy, ctx: Context, fn: FetchCallback) returns (err: Option<Error>, ghost t: Trace)
    requires fn.Valid() && fn.replies == [] && fn.calls == []
    modifies ctx, fn, fn.client
    ensures fn.Valid()
    ensures Follows(p, fn.request, t) && t.s.phase == Returned(err) && t.replies == fn.replies
    ensures t.s.calls == fn.calls
    ensures ctx.slept == old(ctx.slept) + TotalWait(p, t.s.jitters)
    ensures old(ctx.err).Some? ==> ctx.err == old(ctx.err)
  {
    hide Follows, Sleep, TotalWait, Attempt, IsRetriable, Durations, ErrorCounts, Foreign;
    var lastErr: Option<Error> := None;
    var attempt := 0;
    t := Start(p, fn.request, ctx.err);
    NoWait(p);
    while attempt < p.maxAttempts
      invariant fn.Valid() && Follows(p, fn.request, t) && t.replies == fn.replies && t.s.ctx == ctx.err
      invariant t.s.phase == Top && t.s.attempt == attempt && t.s.lastErr == lastErr
      invariant t.s.calls == fn.calls && ctx.slept == old(ctx.slept) + TotalWait(p, t.s.jitters)
      invariant old(ctx.err).Some? ==> ctx.err == old(ctx.err)
    {
      ctx.Interfere();
      t := Checked(p, fn.request, t, ctx.err);
      if ctx.err.Some? {
        return Some(FromContext(ctx.err.value)), t;
      }

      ctx.Interfere();
      t := Called(p, fn.request, t, ctx.err);
      var reply;
      err, reply := fn.Call(attempt);
      ctx.Interfere();
      assert Jitter(0.0);
      var jitter: real :| Jitter(jitter);
      t := Replied(p, fn.request, t, ctx.err, reply, jitter);
      if err.None? {
        return;
      }
      lastErr := err;
      if !IsRetriable(err.value) {
        return;
      }
      if attempt == p.maxAttempts - 1 {
        break;
      }

      var done := ctx.Wait(p, attempt, jitter);
      t := Woken(p, fn.request, t, ctx.err, done);
      if done {
        return Some(FromContext(ctx.err.value)), t;
      }
      attempt := attempt + 1;
    }
    if t.s.phase == Top {
      t := Checked(p, fn.request, t, ctx.err);
    }
    err := Some(Exhausted(p.maxAttempts, lastErr));
  }
}
