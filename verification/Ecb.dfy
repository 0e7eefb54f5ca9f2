/** The ECB client: one attempt (`fetchOnce`), its metrics, the observations it turns into a map, and
  * `FetchCurrentRates`, which runs the attempts under the retry policy.
  */
module Ecb {
  import opened Outcomes
  import opened Calendar
  import opened Errors
  import opened Backoff
  import opened Retry
  import opened Store
  import opened Dto

  // ----- What comes back from the network -----

  /** An OBS_VALUE attribute by what strconv.ParseFloat makes of it. */
  datatype ObsValue = Missing | Unparsable | Number(rate: Rate)

  datatype Obs = Obs(timePeriod: string, value: ObsValue)

  datatype Body = Unreadable(err: Error) | Blank | Undecodable(err: Error) | Document(obs: seq<Obs>)

  datatype Reply =
    | RequestInvalid(err: Error)      // http.NewRequestWithContext failed
    | TransportFailed(err: Error)     // httpClient.Do failed
    | Answered(status: int, body: Body)

  /** Errors from outside the package hold no retriableError: the type is not exported. */
  predicate Foreign(reply: Reply) {
    match reply
    case RequestInvalid(e) => !IsRetriable(e)
    case TransportFailed(e) => !IsRetriable(e)
    case Answered(_, Unreadable(e)) => !IsRetriable(e)
    case Answered(_, Undecodable(e)) => !IsRetriable(e)
    case _ => true
  }

  // ----- Observations -----

  datatype RateRecord = RateRecord(day: Day, rate: Rate)

  predicate Complete(o: Obs) {
    o.timePeriod != "" && !o.value.Missing?
  }

  predicate Parses(o: Obs) {
    ParseDay(o.timePeriod).Some? && o.value.Number?
  }

  function ParseError(o: Obs): Error {
    if ParseDay(o.timePeriod).None? then Wrapped("failed to parse date", Plain(o.timePeriod))
    else Wrapped("failed to parse value", Plain("strconv.ParseFloat"))
  }

  /** The records of a document, or the error of its first observation that does not parse. */
  function Records(obs: seq<Obs>): Result<seq<RateRecord>, Error> {
    if obs == [] then Ok([])
    else
      match Records(obs[..|obs| - 1])
      case Err(e) => Err(e)
      case Ok(records) =>
        var o := obs[|obs| - 1];
        if !Complete(o) then Ok(records)
        else if !Parses(o) then Err(ParseError(o))
        else Ok(records + [RateRecord(ParseDay(o.timePeriod).value, o.value.rate)])
  }

  function RatesOf(records: seq<RateRecord>): Rates {
    if records == [] then map[]
    else
      var r := records[|records| - 1];
      RatesOf(records[..|records| - 1])[FormatDay(r.day) := r.rate]
  }

  method ExtractObs(obs: seq<Obs>) returns (r: Result<seq<RateRecord>, Error>)
    ensures r == Records(obs)
  {
    var records: seq<RateRecord> := [];
    for i := 0 to |obs|
      invariant Records(obs[..i]) == Ok(records)
    {
      assert obs[..i + 1][..i] == obs[..i];
      var o := obs[i];
      if !Complete(o) {
        continue;
      }
      if !Parses(o) {
        FirstErrorStays(obs, i + 1);
        return Err(ParseError(o));
      }
      records := records + [RateRecord(ParseDay(o.timePeriod).value, o.value.rate)];
    }
    assert obs[..|obs|] == obs;
    r := Ok(records);
  }

  lemma {:induction false} FirstErrorStays(obs: seq<Obs>, i: nat)
    requires i <= |obs| && Records(obs[..i]).Err?
    ensures Records(obs) == Records(obs[..i])
    decreases |obs|
  {
    if i == |obs| {
      assert obs[..i] == obs;
    } else {
      assert obs[..|obs| - 1][..i] == obs[..i];
      FirstErrorStays(obs[..|obs| - 1], i);
    }
  }

  /** The first observation that cannot be parsed is the one reported, its date before its value. */
  lemma {:induction false} FirstFailureIsReported(obs: seq<Obs>) returns (i: nat)
    requires Records(obs).Err?
    ensures i < |obs| && !SomeUnparsed(obs[..i]) && SomeUnparsed(obs[..i + 1])
    ensures Records(obs) == Err(if ParseDay(obs[i].timePeriod).None?
                                then Wrapped("failed to parse date", Plain(obs[i].timePeriod))
                                else Wrapped("failed to parse value", Plain("strconv.ParseFloat")))
  {
    var init := obs[..|obs| - 1];
    UnparsedFails(init);
    UnparsedFails(obs);
    hide ParseDay, SomeUnparsed;
    if Records(init).Err? {
      i := FirstFailureIsReported(init);
      assert init[..i] == obs[..i] && init[..i + 1] == obs[..i + 1];
    } else {
      i := |obs| - 1;
      assert obs[..i + 1] == obs;
    }
  }

  /** The records are those of the complete observations, in their order: `from` says which. */
  ghost predicate InOrder(records: seq<RateRecord>, from: seq<nat>, obs: seq<Obs>) {
    && |from| == |records|
    && (forall k | 0 <= k < |from| :: from[k] < |obs| && IsRecordOf(records[k], obs[from[k]]))
    && (forall k, l | 0 <= k < l < |from| :: from[k] < from[l])
    && (forall i | 0 <= i < |obs| && obs[i].timePeriod != "" && !obs[i].value.Missing? :: i in from)
  }

  predicate IsRecordOf(r: RateRecord, o: Obs) {
    o.timePeriod != "" && ParseDay(o.timePeriod) == Some(r.day) && o.value == Number(r.rate)
  }

  lemma {:induction false} RecordsInOrder(obs: seq<Obs>) returns (from: seq<nat>)
    requires Records(obs).Ok?
    ensures InOrder(Records(obs).value, from, obs)
  {
    from := [];
    NothingInOrder();
    hide InOrder, Parses, IsRecordOf;
    if obs != [] {
      var init, o := obs[..|obs| - 1], obs[|obs| - 1];
      assert obs == init + [o];
      var r := LastRecord(init, o);
      hide Records;
      from := RecordsInOrder(init);
      if Complete(o) {
        AddsOne(Records(init).value, from, init, r, o);
        from := from + [|init|];
      } else {
        SkipsOne(Records(init).value, from, init, o);
      }
    }
  }

  lemma NothingInOrder()
    ensures Records([]) == Ok([]) && InOrder([], [], [])
  {
  }

  lemma LastRecord(init: seq<Obs>, o: Obs) returns (r: RateRecord)
    requires Records(init + [o]).Ok?
    ensures Records(init).Ok?
    ensures Records(init + [o]) == Ok(Records(init).value + if Complete(o) then [r] else [])
    ensures Complete(o) ==> IsRecordOf(r, o)
  {
    hide ParseDay;
    assert (init + [o])[..|init|] == init;
    r := RateRecord(0, NotANumber);
    if Complete(o) {
      r := RateRecord(ParseDay(o.timePeriod).value, o.value.rate);
    } else {
      assert Records(init).value + [] == Records(init).value;
    }
  }

  lemma SkipsOne(records: seq<RateRecord>, from: seq<nat>, init: seq<Obs>, o: Obs)
    requires InOrder(records, from, init) && (o.timePeriod == "" || o.value.Missing?)
    ensures InOrder(records, from, init + [o])
  {
    hide IsRecordOf;
  }

  lemma AddsOne(records: seq<RateRecord>, from: seq<nat>, init: seq<Obs>, r: RateRecord, o: Obs)
    requires InOrder(records, from, init) && IsRecordOf(r, o)
    ensures InOrder(records + [r], from + [|init|], init + [o])
  {
    hide IsRecordOf;
    var more := from + [|init|];
    assert more[|from|] == |init|;
    assert forall i | i in from :: i in more;
  }

  method CollectRates(records: seq<RateRecord>) returns (rates: Rates)
    ensures rates == RatesOf(records)
  {
    rates := map[];
    for i := 0 to |records|
      invariant rates == RatesOf(records[..i])
    {
      assert records[..i + 1][..i] == records[..i];
      rates := rates[FormatDay(records[i].day) := records[i].rate];
    }
    assert records[..|records|] == records;
  }

  /** No later complete observation is for the same period. */
  predicate IsLastFor(obs: seq<Obs>, i: nat)
    requires i < |obs|
  {
    && obs[i].timePeriod != "" && !obs[i].value.Missing?
    && forall j | i < j < |obs| && !obs[j].value.Missing? :: obs[j].timePeriod != obs[i].timePeriod
  }

  /** Some observation with both attributes has a period that is no date or a value that is no number. */
  predicate SomeUnparsed(obs: seq<Obs>) {
    exists i :: 0 <= i < |obs| && obs[i].timePeriod != "" &&
                (obs[i].value.Unparsable? || (obs[i].value.Number? && ParseDay(obs[i].timePeriod).None?))
  }

  /** Some complete observation is for this period. */
  predicate HasPeriod(obs: seq<Obs>, d: string) {
    d != "" && exists i :: 0 <= i < |obs| && !obs[i].value.Missing? && obs[i].timePeriod == d
  }

  lemma OneMoreObservation(init: seq<Obs>, o: Obs, d: string)
    ensures HasPeriod(init + [o], d) <==> HasPeriod(init, d) || (Complete(o) && o.timePeriod == d)
    ensures SomeUnparsed(init + [o]) <==> SomeUnparsed(init) || (Complete(o) && !Parses(o))
  {
    hide ParseDay;
    var obs := init + [o];
    assert obs[|init|] == o;
    assert forall i | 0 <= i < |init| :: obs[i] == init[i];
  }

  /** What one more observation does to the records, or to the failure. */
  lemma NextObservation(init: seq<Obs>, o: Obs)
    ensures Records(init).Err? ==> Records(init + [o]) == Records(init)
    ensures Records(init).Ok? && !Complete(o) ==> Records(init + [o]) == Records(init)
    ensures Records(init).Ok? && Complete(o) && !Parses(o) ==> Records(init + [o]).Err?
    ensures Records(init).Ok? && Complete(o) && Parses(o) ==>
            Records(init + [o]).Ok? &&
            RatesOf(Records(init + [o]).value) == RatesOf(Records(init).value)[o.timePeriod := o.value.rate]
  {
    hide RatesOf, ParseDay;
    assert (init + [o])[..|init|] == init;
    if Records(init).Ok? && Complete(o) && Parses(o) {
      NextRecord(Records(init).value, o);
    }
  }

  lemma NextRecord(records: seq<RateRecord>, o: Obs)
    requires Parses(o)
    ensures RatesOf(records + [RateRecord(ParseDay(o.timePeriod).value, o.value.rate)]) ==
            RatesOf(records)[o.timePeriod := o.value.rate]
  {
    FormatUndoesParse(o.timePeriod);
    hide ParseDay, FormatDay;
    var r := RateRecord(ParseDay(o.timePeriod).value, o.value.rate);
    assert (records + [r])[..|records|] == records;
  }

  lemma {:induction false} UnparsedFails(obs: seq<Obs>)
    ensures Records(obs).Err? <==> SomeUnparsed(obs)
  {
    if obs != [] {
      var init, o := obs[..|obs| - 1], obs[|obs| - 1];
      assert obs == init + [o];
      UnparsedFails(init);
      NextObservation(init, o);
      OneMoreObservation(init, o, "");
      hide Records, SomeUnparsed, Complete, Parses;
    }
  }

  lemma {:induction false} PeriodsAreKeys(obs: seq<Obs>, d: string)
    requires Records(obs).Ok?
    ensures d in RatesOf(Records(obs).value) <==> HasPeriod(obs, d)
    ensures d in RatesOf(Records(obs).value) ==> ParseDay(d).Some?
  {
    hide ParseDay, HasPeriod;
    if obs == [] {
      NoPeriod(d);
    } else {
      hide Records, RatesOf, Complete;
      var init, o := obs[..|obs| - 1], obs[|obs| - 1];
      assert obs == init + [o];
      NextObservation(init, o);
      PeriodsAreKeys(init, d);
      OneMoreObservation(init, o, d);
    }
  }

  lemma NoPeriod(d: string)
    ensures !HasPeriod([], d)
  {
  }

  lemma {:induction false} LastObservationWins(obs: seq<Obs>, i: nat)
    requires Records(obs).Ok? && i < |obs| && IsLastFor(obs, i)
    ensures obs[i].value.Number?
    ensures obs[i].timePeriod in RatesOf(Records(obs).value)
    ensures RatesOf(Records(obs).value)[obs[i].timePeriod] == obs[i].value.rate
    decreases |obs|
  {
    var n := |obs| - 1;
    assert obs == obs[..n] + [obs[n]];
    NextObservation(obs[..n], obs[n]);
    if i < n {
      assert obs[..n][i] == obs[i];
      LastObservationWins(obs[..n], i);
    }
  }

  /** The map has exactly the periods of complete observations, each with the value of the last one. */
  ghost predicate LastOfEach(rates: Rates, obs: seq<Obs>) {
    && (forall d :: d in rates <==> HasPeriod(obs, d))
    && (forall i | 0 <= i < |obs| && IsLastFor(obs, i) ::
          obs[i].timePeriod in rates && obs[i].value == Number(rates[obs[i].timePeriod]))
  }

  /** Ingest fails exactly when some complete observation does not parse; otherwise the map holds
    * exactly the periods of complete observations, each with the value of the last of them. */
  lemma ObservationMap(obs: seq<Obs>)
    ensures Records(obs).Err? <==> SomeUnparsed(obs)
    ensures Records(obs).Ok? ==> LastOfEach(RatesOf(Records(obs).value), obs)
  {
    UnparsedFails(obs);
    if Records(obs).Ok? {
      var rates := RatesOf(Records(obs).value);
      forall d
        ensures d in rates <==> HasPeriod(obs, d)
      {
        PeriodsAreKeys(obs, d);
      }
      forall i | 0 <= i < |obs| && IsLastFor(obs, i)
        ensures obs[i].timePeriod in rates && obs[i].value == Number(rates[obs[i].timePeriod])
      {
        LastObservationWins(obs, i);
      }
    }
  }

  // ----- One attempt -----

  predicate CompleteRequest(r: Request) {
    r.base != "" && r.target != "" && r.from != ZERO_TIME && r.to != ZERO_TIME
  }

  /** What one call of `fetchOnce` returns for a reply. */
  function Attempt(req: Request, reply: Reply): Result<Rates, Error> {
    if !CompleteRequest(req) then Err(Plain("found zero value in request"))
    else
      match reply
      case RequestInvalid(e) => Err(Wrapped("create request", e))
      case TransportFailed(e) =>
        if IsContextError(e) then Err(e) else Err(Retriable(Wrapped("http do", e)))
      case Answered(status, body) =>
        if status == 200 then
          match body
          case Unreadable(e) => Err(Wrapped("read body", e))
          case Blank => Ok(map[])
          case Undecodable(e) => Err(Wrapped("parse xml", Wrapped("failed to decode XML", e)))
          case Document(obs) =>
            match Records(obs)
            case Err(e) => Err(Wrapped("parse xml", e))
            case Ok(records) => Ok(RatesOf(records))
        else if status == 429 then Err(Retriable(Plain("rate limited")))
        else if status >= 500 then Err(Retriable(Plain("server error")))
        else Err(Plain("client error"))
  }

  /** When an attempt succeeds, with what, and which error it passes on, said of the reply alone. */
  lemma AttemptExactly(req: Request, reply: Reply)
    ensures Attempt(req, reply).Ok? <==>
            && req.base != "" && req.target != "" && req.from != ZERO_TIME && req.to != ZERO_TIME
            && reply.Answered? && reply.status == 200
            && (reply.body.Blank? || (reply.body.Document? && !SomeUnparsed(reply.body.obs)))
    ensures Attempt(req, reply).Ok? && reply.body.Blank? ==> Attempt(req, reply).value == map[]
    ensures Attempt(req, reply).Ok? && reply.body.Document? ==> LastOfEach(Attempt(req, reply).value, reply.body.obs)
    ensures CompleteRequest(req) && reply.TransportFailed? ==>
            Attempt(req, reply).Err? && Holds(Attempt(req, reply).error, reply.err) &&
            (IsContextError(reply.err) ==> Attempt(req, reply).error == reply.err)
  {
    if reply.Answered? && reply.body.Document? {
      ObservationMap(reply.body.obs);
    }
    if reply.TransportFailed? {
      assert Holds(reply.err, reply.err);
    }
    hide SomeUnparsed, LastOfEach, Records, RatesOf, IsContextError;
  }

  datatype DurationLabel = NetworkError | Success | Status429 | Status5xx | Status4xx

  datatype ErrorLabel = Network | RateLimited | Http(status: int)

  /** The duration observed for a reply, if any. */
  function Duration(req: Request, reply: Reply): multiset<DurationLabel> {
    if !CompleteRequest(req) then multiset{}
    else
      match reply
      case RequestInvalid(_) => multiset{}
      case TransportFailed(e) => if IsContextError(e) then multiset{} else multiset{NetworkError}
      case Answered(status, _) =>
        if status == 200 then multiset{Success}
        else if status == 429 then multiset{Status429}
        else if status >= 500 then multiset{Status5xx}
        else multiset{Status4xx}
  }

  /** The error counted for a reply, if any. */
  function ErrorCount(req: Request, reply: Reply): multiset<ErrorLabel> {
    if !CompleteRequest(req) then multiset{}
    else
      match reply
      case RequestInvalid(_) => multiset{}
      case TransportFailed(e) => if IsContextError(e) then multiset{} else multiset{Network}
      case Answered(status, _) =>
        if status == 200 then multiset{}
        else if status == 429 then multiset{RateLimited}
        else multiset{Http(status)}
  }

  /** Which replies each label stands for: every complete request that gets an HTTP answer is observed
    * once and, unless the status is 200, counted once, under the status itself except for 429. */
  lemma LabelsExactly(req: Request, reply: Reply)
    ensures forall tag :: Duration(req, reply)[tag] <= 1 && (tag in Duration(req, reply) <==>
              && CompleteRequest(req)
              && match tag
                 case NetworkError => reply.TransportFailed? && !IsContextError(reply.err)
                 case Success => reply.Answered? && reply.status == 200
                 case Status429 => reply.Answered? && reply.status == 429
                 case Status5xx => reply.Answered? && reply.status >= 500
                 case Status4xx => reply.Answered? && reply.status < 500 && reply.status != 200 && reply.status != 429)
    ensures forall tag :: ErrorCount(req, reply)[tag] <= 1 && (tag in ErrorCount(req, reply) <==>
              && CompleteRequest(req)
              && match tag
                 case Network => reply.TransportFailed? && !IsContextError(reply.err)
                 case RateLimited => reply.Answered? && reply.status == 429
                 case Http(status) => reply.Answered? && reply.status == status && status != 200 && status != 429)
  {
    hide IsContextError, CompleteRequest;
  }

  function ErrorOf(r: Result<Rates, Error>): Outcome {
    match r case Ok(_) => None case Err(e) => Some(e)
  }

  predicate RetriableReply(reply: Reply) {
    match reply
    case RequestInvalid(_) => false
    case TransportFailed(e) => !IsContextError(e)
    case Answered(status, _) => status == 429 || status >= 500
  }

  /** Exactly network failures, 429 and 5xx are retried, and each is observed and counted once. */
  lemma RetriedReplies(req: Request, reply: Reply)
    requires Foreign(reply)
    ensures RetriableOutcome(ErrorOf(Attempt(req, reply))) <==> CompleteRequest(req) && RetriableReply(reply)
    ensures RetriableOutcome(ErrorOf(Attempt(req, reply))) ==>
            |ErrorCount(req, reply)| == |Duration(req, reply)| == 1 && Success !in Duration(req, reply)
    ensures Attempt(req, reply).Ok? ==>
            ErrorCount(req, reply) == multiset{} && Duration(req, reply) == multiset{Success}
    ensures |ErrorCount(req, reply)| <= |Duration(req, reply)| <= 1
  {
    AttemptErrors(req, reply);
    hide Foreign, RetriableOutcome, Records, RatesOf;
  }

  lemma AttemptErrors(req: Request, reply: Reply)
    requires Foreign(reply)
    ensures RetriableOutcome(ErrorOf(Attempt(req, reply))) <==> CompleteRequest(req) && RetriableReply(reply)
  {
    hide Records, RatesOf;
    match reply
    case Answered(_, Document(obs)) => if Records(obs).Err? { RecordErrors(obs); }
    case Answered(_, Undecodable(e)) => assert !IsRetriable(Wrapped("failed to decode XML", e));
    case _ =>
  }

  lemma {:induction false} RecordErrors(obs: seq<Obs>)
    requires Records(obs).Err?
    ensures !IsRetriable(Records(obs).error)
  {
    if Records(obs[..|obs| - 1]).Err? {
      RecordErrors(obs[..|obs| - 1]);
    }
  }

  // ----- All attempts of one fetch -----

  function Answers(req: Request, replies: seq<Reply>): (r: seq<Outcome>)
    ensures |r| == |replies|
    ensures forall i | 0 <= i < |replies| :: r[i] == ErrorOf(Attempt(req, replies[i]))
  {
    if replies == [] then []
    else Answers(req, replies[..|replies| - 1]) + [ErrorOf(Attempt(req, replies[|replies| - 1]))]
  }

  function Durations(req: Request, replies: seq<Reply>): multiset<DurationLabel> {
    if replies == [] then multiset{}
    else Durations(req, replies[..|replies| - 1]) + Duration(req, replies[|replies| - 1])
  }

  function ErrorCounts(req: Request, replies: seq<Reply>): multiset<ErrorLabel> {
    if replies == [] then multiset{}
    else ErrorCounts(req, replies[..|replies| - 1]) + ErrorCount(req, replies[|replies| - 1])
  }

  /** `run` is a finished run of the retry machine on these replies, with this result. */
  ghost predicate Fetches(p: RetryPolicy, req: Request, run: seq<Event>, replies: seq<Reply>, r: Result<Rates, Error>) {
    && Exec(p, run).Some?
    && var s := Exec(p, run).value;
      && s.phase.Returned?
      && s.outcomes == Answers(req, replies)
      && (forall i | 0 <= i < |replies| :: Foreign(replies[i]))
      && match s.phase.result
         case Some(e) => r == Err(e)
         case None => replies != [] && r == Attempt(req, replies[|replies| - 1])
  }

  lemma {:induction false} RetriedCounts(req: Request, replies: seq<Reply>)
    requires forall i | 0 <= i < |replies| :: Foreign(replies[i])
    requires AllRetriable(Answers(req, replies))
    ensures |ErrorCounts(req, replies)| == |Durations(req, replies)| == |replies|
    ensures Success !in Durations(req, replies)
  {
    if replies != [] {
      var n := |replies| - 1;
      assert forall i | 0 <= i < n :: Answers(req, replies[..n])[i] == Answers(req, replies)[i];
      RetriedCounts(req, replies[..n]);
      assert RetriableOutcome(Answers(req, replies)[n]);
      RetriedReplies(req, replies[n]);
    }
  }

  /** A successful fetch of k attempts leaves k - 1 errors, k durations and one success, and returns
    * the map of its last reply; an exhausted one leaves maxAttempts errors and as many durations. */
  lemma MetricsConservation(p: RetryPolicy, req: Request, run: seq<Event>, replies: seq<Reply>, r: Result<Rates, Error>)
    requires Fetches(p, req, run, replies, r)
    ensures r.Ok? ==>
      && 1 <= |replies| <= p.maxAttempts
      && |ErrorCounts(req, replies)| == |replies| - 1
      && |Durations(req, replies)| == |replies|
      && Durations(req, replies)[Success] == 1
      && r == Attempt(req, replies[|replies| - 1])
    ensures RanOut(p, Exec(p, run).value) && p.maxAttempts >= 1 ==>
      && |ErrorCounts(req, replies)| == |Durations(req, replies)| == p.maxAttempts
      && Durations(req, replies)[Success] == 0
      && r == Err(Exhausted(p.maxAttempts, Some(Attempt(req, replies[|replies| - 1]).error)))
    ensures Exec(p, run).value.phase.result == None <==> r.Ok?
  {
    var s := Exec(p, run).value;
    RunCharacterisation(p, run, s);
    var n := |replies| - 1;
    if s.phase.result == None {
      var init := replies[..n];
      assert forall i | 0 <= i < n :: Answers(req, init)[i] == s.outcomes[i];
      RetriedCounts(req, init);
      assert s.outcomes[n] == ErrorOf(Attempt(req, replies[n]));
      RetriedReplies(req, replies[n]);
    }
    if RanOut(p, s) && p.maxAttempts >= 1 {
      RetriedCounts(req, replies);
      assert RetriableOutcome(s.outcomes[n]);
    }
  }

  /** The keys of every fetched map are dates. */
  lemma FetchedKeysAreDates(p: RetryPolicy, req: Request, run: seq<Event>, replies: seq<Reply>,
                            r: Result<Rates, Error>, key: string)
    requires Fetches(p, req, run, replies, r) && r.Ok? && key in r.value
    ensures ParseDay(key).Some?
  {
    MetricsConservation(p, req, run, replies, r);
    hide Fetches, Attempt, ParseDay, Durations, ErrorCounts;
    AttemptKeysAreDates(req, replies[|replies| - 1], key);
  }

  lemma AttemptKeysAreDates(req: Request, reply: Reply, key: string)
    requires Attempt(req, reply).Ok? && key in Attempt(req, reply).value
    ensures ParseDay(key).Some?
  {
    hide Records, RatesOf, ParseDay;
    if reply.body.Document? {
      PeriodsAreKeys(reply.body.obs, key);
    }
  }
}
