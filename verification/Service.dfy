/** The currency service: it upper-cases the codes in the request it shares with its caller, reads
  * the table, and fetches into it.
  */
module Service {
  import opened Outcomes
  import opened Calendar
  import opened Errors
  import opened Backoff
  import opened Retry
  import opened Store
  import opened Text
  import opened Dto
  import opened Repository
  import opened Ecb
  import opened EcbClient

  const READ_ERROR := "failed to fetch currency rates in interval"
  const WRITE_ERROR := "failed to save currency rates in interval"

  function Uppercased(unicode: string -> string, r: Request): Request {
    r.(base := ToUpper(unicode, r.base), target := ToUpper(unicode, r.target))
  }

  /** The save that a fetch leads to, if any: none after an error or for an empty map. */
  function SavedBy(now: int, base: string, fetched: Result<Rates, Error>, fate: Fate): Option<SaveOp> {
    match fetched
    case Err(_) => None
    case Ok(rates) => if rates == map[] then None else Stored(now, base, rates, fate)
  }

  /** What FetchAndSaveCurrencyRates returns. */
  function JobError(now: int, base: string, fetched: Result<Rates, Error>, fate: Fate): Option<Error> {
    match fetched
    case Err(e) => Some(Wrapped(READ_ERROR, e))
    case Ok(rates) =>
      if rates == map[] then None
      else match SaveResult(now, base, rates, fate)
           case None => None
           case Some(e) => Some(Wrapped(WRITE_ERROR, e))
  }

  /** A job is reported done exactly when there was nothing to save or the save was acknowledged; what it
    * fetched is saved, under its clock reading and base, unless the database cannot take it. */
  lemma OutcomeExactly(now: int, base: string, fetched: Result<Rates, Error>, fate: Fate)
    ensures JobError(now, base, fetched, fate) == None <==>
            && fetched.Ok?
            && (fetched.value != map[] ==>
                  && (forall c | c in fetched.value :: fetched.value[c].Finite?)
                  && Varchar10(base).Some? && fate == Committed)
    ensures SavedBy(now, base, fetched, fate) ==
            if && fetched.Ok? && fetched.value != map[]
               && (forall c | c in fetched.value :: fetched.value[c].Finite?)
               && Varchar10(base).Some? && fate != Refused
            then Some(SaveOp(now, Varchar10(base).value, fetched.value))
            else None
    ensures fetched.Err? ==>
            JobError(now, base, fetched, fate).Some? && Holds(JobError(now, base, fetched, fate).value, fetched.error)
  {
    hide Varchar10;
    if fetched.Err? {
      assert Holds(fetched.error, fetched.error);
    }
  }

  class CurrencyService {
    const repo: PostgresRepository
    const client: Client
    const unicode: string -> string  // upper-casing outside ASCII

    constructor (repo: PostgresRepository, client: Client, unicode: string -> string)
      ensures this.repo == repo && this.client == client && this.unicode == unicode
    {
      this.repo, this.client, this.unicode := repo, client, unicode;
    }

    /** The caller's request comes back upper-cased, and the rates are the log's answer to it. */
    method GetCurrencyRatesInInterval(dto: CurrencyRequestDTO, fails: bool)
      returns (r: Result<seq<CurrencyRate>, Error>)
      requires repo.Valid()
      modifies dto
      ensures dto.Value() == Uppercased(unicode, old(dto.Value()))
      ensures r.Ok? <==> !fails && Answerable(dto.Value())
      ensures r.Ok? ==> Lists(r.value, LogAnswer(repo.log, QueryOf(dto.Value(), repo.offset)))
      ensures dto.baseCurrency == ToUpper(unicode, old(dto.baseCurrency))
      ensures dto.targetCurrency == ToUpper(unicode, old(dto.targetCurrency))
      ensures dto.dateFrom == old(dto.dateFrom) && dto.dateTo == old(dto.dateTo)
      ensures r.Ok? ==> forall x: CurrencyRate :: x in r.value <==>
                && dto.dateFrom / NS_PER_DAY <= (x.date + repo.offset) / MICROS_PER_DAY <= dto.dateTo / NS_PER_DAY
                && LastWrite(repo.log, RowKey(x.date, dto.baseCurrency), dto.targetCurrency) == Some(x.rate)
    {
      hide LogAnswer, Lists, LastWrite, ToUpper;
      dto.baseCurrency := ToUpper(unicode, dto.baseCurrency);
      dto.targetCurrency := ToUpper(unicode, dto.targetCurrency);
      var rates := repo.FindInInterval(dto, fails);
      if rates.Err? {
        return Err(Wrapped(READ_ERROR, rates.error));
      }
      r := rates;
    }

    /** One finished fetch from yesterday to now, and at most one save, only of a non-empty map. */
    method FetchAndSaveCurrencyRates(ctx: Context, dto: CurrencyRequestDTO, now: int, yesterday: int, fate: Fate)
      returns (err: Option<Error>,
               ghost run: seq<Event>, ghost replies: seq<Reply>, ghost fetched: Result<Rates, Error>)
      requires repo.Valid()
      modifies dto, ctx, client, repo
      ensures repo.Valid()
      ensures dto.Value() == Uppercased(unicode, old(dto.Value())).(from := yesterday, to := now)
      ensures Fetches(client.retry, dto.Value(), run, replies, fetched)
      ensures err == JobError(now, dto.baseCurrency, fetched, fate)
      ensures match SavedBy(now, dto.baseCurrency, fetched, fate)
              case None => repo.log == old(repo.log) && repo.rows == old(repo.rows)
              case Some(op) => repo.log == old(repo.log) + [op]
      ensures client.durations == old(client.durations) + Durations(dto.Value(), replies)
      ensures client.errors == old(client.errors) + ErrorCounts(dto.Value(), replies)
    {
      hide Fetches, Stored, SaveResult, Durations, ErrorCounts, TotalWait, Exec, TableOf, Replay, UniqueKeys, ToUpper;
      dto.dateFrom := yesterday;
      dto.dateTo := now;
      dto.baseCurrency := ToUpper(unicode, dto.baseCurrency);
      dto.targetCurrency := ToUpper(unicode, dto.targetCurrency);
      var rates;
      rates, run, replies := client.FetchCurrentRates(ctx, dto);
      fetched := rates;
      if rates.Err? {
        return Some(Wrapped(READ_ERROR, rates.error)), run, replies, fetched;
      }
      if rates.value == map[] {
        return None, run, replies, fetched;
      }
      var saved := repo.Save(now, dto.baseCurrency, rates.value, fate);
      err := match saved case Some(e) => Some(Wrapped(WRITE_ERROR, e)) case None => None;
    }
  }

  /** All or nothing: a document with a complete observation that does not parse is never saved. */
  lemma UnparsedDocumentSavesNothing(p: RetryPolicy, req: Request, run: seq<Event>, replies: seq<Reply>,
                                     fetched: Result<Rates, Error>, now: int, fate: Fate, obs: seq<Obs>)
    requires Fetches(p, req, run, replies, fetched)
    requires replies != [] && replies[|replies| - 1] == Answered(200, Document(obs)) && SomeUnparsed(obs)
    ensures SavedBy(now, req.base, fetched, fate) == None
    ensures JobError(now, req.base, fetched, fate).Some?
  {
    ObservationMap(obs);
    MetricsConservation(p, req, run, replies, fetched);
  }
}
