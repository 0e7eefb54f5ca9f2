/** The worker and the gateway over one database. */
module Deployment {
  import opened Outcomes
  import opened Text
  import opened Dto
  import opened Ingest
  import opened Worker
  import opened Serve
  import opened Gateway

  /** As deployed, with the worker's jobs the only writers: whatever they have done, the gateway
    * answers no accepted query for an ASCII currency, and says NotFound if the database is up. */
  method AskAfterJobs(worker: CurrencyWorker, handler: RateHandler, q: HttpQuery, now: int, fails: bool)
    returns (r: Result<RateResponse, GatewayError>)
    requires worker.Valid() && handler.client.server.service.repo == worker.service.repo
    ensures ParseRateQuery(q, now).Ok? && IsAscii(q.currency) ==> r.Err?
    ensures ParseRateQuery(q, now).Ok? && IsAscii(q.currency) ==>
            !fails && ParseRateQuery(q, now).value.from >= ZERO_TIME ==>
            r == Err(Status(NotFound))
  {
    hide ParseRateQuery, LogQuery, WorldExec, IsAscii;
    r := handler.Get(q, now, fails);
    var server := handler.client.server;
    if ParseRateQuery(q, now).Ok? && IsAscii(q.currency) {
      WorkerRatesAreNotServed(server.service.unicode, worker.Settings(), worker.history, q, now,
                              server.defaultBaseCurrency, server.service.repo.offset);
    }
  }
}
