/** The read path as the program runs it: gateway handler, gRPC client, backend handler, service and
  * repository, each handing its caller a converted list.
  */
module Gateway {
  import opened Outcomes
  import opened Calendar
  import opened Store
  import opened Dto
  import opened Repository
  import opened Service
  import opened Serve

  class CurrencyServer {
    const service: CurrencyService
    const defaultBaseCurrency: string

    constructor (service: CurrencyService, defaultBaseCurrency: string)
      ensures this.service == service && this.defaultBaseCurrency == defaultBaseCurrency
    {
      this.service, this.defaultBaseCurrency := service, defaultBaseCurrency;
    }

    /** Validates, asks the service, and answers with the upper-cased currency that the service left
      * in the shared request. */
    method GetRate(req: GetRateRequest, fails: bool)
      returns (r: Result<GetRateResponse, Code>, ghost found: seq<CurrencyRate>)
      requires service.repo.Valid()
      ensures BackendReply(service.unicode, service.repo.log, service.repo.offset, defaultBaseCurrency,
                           req, fails, r, found)
    {
      hide RateRequestValidation, LogAnswer, Lists, Answerable, Uppercased, FromProtobuf, QueryOf, ToRecord;
      found := [];
      if RateRequestValidation(req).Some? {
        return Err(InvalidArgument), found;
      }
      ValidRequestsAreAnswerable(service.unicode, req, defaultBaseCurrency);
      var dto := FromRequest(req);
      var rates := service.GetCurrencyRatesInInterval(dto, fails);
      if rates.Err? {
        return Err(Unknown), found;
      }
      found := rates.value;
      var currency := dto.targetCurrency;
      EmptyAnswer(found, LogAnswer(service.repo.log, QueryOf(dto.Value(), service.repo.offset)));
      if |rates.value| == 0 {
        return Err(NotFound), found;
      }
      var records := new RateRecord[|rates.value|](_ => RateRecord(Timestamp(0, 0), NotANumber));
      for i := 0 to |rates.value|
        invariant forall k | 0 <= k < i :: records[k] == ToRecord(found[k])
      {
        records[i] := ToRecord(rates.value[i]);
      }
      r := Ok(GetRateResponse(currency, records[..]));
    }

    method FromRequest(req: GetRateRequest) returns (dto: CurrencyRequestDTO)
      requires req.dataFrom.Some? && req.dateTo.Some?
      ensures fresh(dto) && dto.Value() == FromProtobuf(req, defaultBaseCurrency)
      ensures dto.targetCurrency == req.currency
      ensures dto.baseCurrency == if req.baseCurrency != "" then req.baseCurrency else defaultBaseCurrency
      ensures dto.dateFrom == req.dataFrom.value.seconds * 1_000_000_000 + req.dataFrom.value.nanos
      ensures dto.dateTo == req.dateTo.value.seconds * 1_000_000_000 + req.dateTo.value.nanos
    {
      var base := req.baseCurrency;
      if base == "" {
        base := defaultBaseCurrency;
      }
      dto := new CurrencyRequestDTO(base, req.currency, AsTime(req.dataFrom.value), AsTime(req.dateTo.value));
    }
  }

  datatype GatewayError = InvalidQuery(msg: string) | Status(code: Code)

  class CurrencyClient {
    const server: CurrencyServer

    constructor (server: CurrencyServer)
      ensures this.server == server
    {
      this.server := server;
    }

    /** The call to the backend: the same rates, in the same order, as times. */
    method GetRate(currency: string, base: string, from: int, to: int, fails: bool)
      returns (r: Result<seq<ClientRate>, Code>, ghost found: seq<CurrencyRate>)
      requires server.service.repo.Valid()
      ensures RateRequestValidation(Asks(currency, base, from, to)).Some? ==> r == Err(InvalidArgument)
      ensures RateRequestValidation(Asks(currency, base, from, to)).None? && fails ==> r == Err(Unknown)
      ensures RateRequestValidation(Asks(currency, base, from, to)).None? && !fails ==>
        var asked := Resolved(server.service.unicode, Asks(currency, base, from, to), server.defaultBaseCurrency);
        var answer := LogAnswer(server.service.repo.log, QueryOf(asked, server.service.repo.offset));
        && Lists(found, answer)
        && (answer == map[] <==> r == Err(NotFound))
        && (answer != map[] ==>
              && r.Ok? && |r.value| == |found|
              && forall i | 0 <= i < |found| :: r.value[i] == ClientRate(found[i].date * 1000, found[i].rate))
    {
      hide RateRequestValidation, LogAnswer, Lists, Resolved, QueryOf, ToRecord, ToClientRate, ToTimestamp;
      var resp;
      resp, found := server.GetRate(Asks(currency, base, from, to), fails);
      if resp.Err? {
        return Err(resp.error), found;
      }
      var out: seq<ClientRate> := [];
      for i := 0 to |resp.value.rates|
        invariant |out| == i && forall k | 0 <= k < i :: out[k] == ClientRate(found[k].date * 1000, found[k].rate)
      {
        RecordKeepsRate(found[i]);
        out := out + [ToClientRate(resp.value.rates[i])];
      }
      r := Ok(out);
    }
  }

  class RateHandler {
    const client: CurrencyClient

    constructor (client: CurrencyClient)
      ensures this.client == client
    {
      this.client := client;
    }

    /** End to end: a query the gateway rejects is an error; one it accepts gets, for a reachable
      * database, exactly the log query's rows, each once, or NotFound when there are none. */
    method Get(q: HttpQuery, now: int, fails: bool) returns (r: Result<RateResponse, GatewayError>)
      requires client.server.service.repo.Valid()
      ensures match ParseRateQuery(q, now)
        case Err(msg) => r == Err(InvalidQuery(msg))
        case Ok(pq) =>
          var answer := LogQuery(client.server.service.unicode, client.server.service.repo.log, q, now,
                                 client.server.defaultBaseCurrency, client.server.service.repo.offset);
          if pq.from < ZERO_TIME then r == Err(Status(InvalidArgument))
          else if fails then r == Err(Status(Unknown))
          else if answer == map[] then r == Err(Status(NotFound))
          else
            && r.Ok? && r.value.currency == q.currency && Shows(r.value.rates, answer)
            && |r.value.rates| == |answer| > 0
            && (forall d | d in answer && InYears(d / MICROS_PER_DAY) ::
                  RatePoint(FormatDay(d / MICROS_PER_DAY), answer[d]) in r.value.rates)
            && (forall p | p in r.value.rates :: exists d :: d in answer && IsShownAs(d, answer[d], p))
    {
      hide ParseRateQuery, RateRequestValidation, LogAnswer, Lists, Resolved, QueryOf;
      hide DateText;
      var parsed := ParseRateQuery(q, now);
      if parsed.Err? {
        return Err(InvalidQuery(parsed.error));
      }
      var pq := parsed.value;
      ValidationAgreement(q, now);
      var rates;
      ghost var found;
      rates, found := client.GetRate(pq.currency, pq.base, pq.from, pq.to, fails);
      if rates.Err? {
        return Err(Status(rates.error));
      }
      var points: seq<RatePoint> := [];
      for i := 0 to |rates.value|
        invariant |points| == i && forall k | 0 <= k < i :: points[k] == PointOf(found[k])
      {
        points := points + [ToPoint(rates.value[i])];
      }
      ghost var answer := LogQuery(client.server.service.unicode, client.server.service.repo.log, q, now,
                                   client.server.defaultBaseCurrency, client.server.service.repo.offset);
      EmptyAnswer(found, answer);
      assert Lists(found, answer) && IsImage(points, found);
      ShownExactly(points, answer);
      r := Ok(RateResponse(q.currency, points));
    }
  }
}
