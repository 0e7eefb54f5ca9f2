# Verified model of the currency system

The system keeps exchange rates of the European Central Bank in a table and serves them. A worker
fetches rates under a retry policy and saves them; a gateway takes HTTP queries, asks the currency
backend over gRPC, and prints what the table holds; a small auth service issues the tokens the
gateway demands. This project models that pipeline in Dafny and proves what holds of it for every
input, every run and every interleaving.

## How it is laid out

| file | what it models |
|---|---|
| `Outcomes.dfy` | optional values and results |
| `Calendar.dfy` | dates, the `2006-01-02` layout, day numbers, string order |
| `Errors.dfy` | Go error chains, `errors.As`, `errors.Is` |
| `Backoff.dfy` | the int64 delay, jitter, the time a run sleeps |
| `Retry.dfy` | `RetryPolicy.Do` as a machine with a cancelling environment |
| `Store.dfy` | the table, the append-only log of saves, queries, their algebra |
| `Text.dfy`, `Dto.dfy` | upper-casing, the shared request, protobuf timestamps |
| `Repository.dfy` | `PostgresRepository` over a heap of rows with a unique index |
| `Ecb.dfy`, `EcbClient.dfy` | one ECB attempt, its metrics, observations; the client and the retry loop |
| `Service.dfy` | the currency service |
| `Ingest.dfy`, `Races.dfy`, `Worker.dfy` | interleaved worker jobs; when their order shows; `runOnce` |
| `Serve.dfy`, `Gateway.dfy` | the read path, gateway to table and back |
| `Deployment.dfy`, `Witnesses.dfy` | worker and gateway over one table; concrete runs of the worker |
| `Login.dfy` | user store, token issue, token acceptance |

Code that changes state is a method on a class with the source's fields, proved against a function or
a machine; what the source promises is then proved of that function or machine. The environment is an
input or an arbitrary choice: clock readings, network replies, jitter, cancellation, which branch of a
`select` runs, what becomes of a database statement.

## What the proofs say about the code

- **The table is the log.** Merging saves into rows and filtering rows answers every query as
  last-writer-wins over the append-only log would (`LogRefinement`), and the methods keep the rows
  in that agreement, one row a key.
- **What the worker fetches is not served.** `fetchOnce` keys rates by date string; queries look up the
  target currency. In every state the worker's jobs can reach, every accepted query for an ASCII
  currency has an empty answer (`WorkerRatesAreNotServed`), so the gateway answers NotFound
  (`AskAfterJobs`). `FetchedButNotServed` is such a state: a EUR/USD rate is fetched and stored, the query
  for it is accepted and empty, and the rate is found under its date. A save keyed by target currency
  would be served and shown (`SavedIsServed`, `SavedIsShown`).
- **Printed dates can leave the interval.** The table filters by the session's day, the gateway prints
  the UTC day. Over all stored logs and accepted queries they agree exactly when the session is on UTC
  (`UtcSessionNeeded`; `StrayDate` is a EUR/USD rate shown under a day that was not asked for);
  neither the connection string nor the migration sets the time zone.
- **Backoff overflows.** The delays are the intended capped doubling, and grow, exactly as long as
  base * 2^k is an int64 (`BackoffIsExactUntilOverflow`); the first overflow is a negative delay, which
  is no sleep at all, and from k = 64 on there is none. Whether all sleeps of all runs are as intended is
  decided by base * 2^(maxAttempts - 2) (`SleepsAsIntendedExactly`): half a second over 37 attempts fails
  it (`OverflowingConfiguration`). At a single index past the overflow the delay may still agree by
  accident (`OverflowCanAgree`), and exactly when is `NominalIsIdealExactly`. Overflowing or not, a run
  never sleeps longer than 1.3 times the cap a retry (`RunWaitIsCapped`).
- **Jobs race exactly when two commits conflict.** A commit conflicts with another when both are to one
  row and disagree on a key. If no two commits of a run do, every interleaving of the same job events ends
  in the same table; if two do, some interleavings end in different ones (`RaceFreeExactly`). Rows are keyed
  by microsecond, so jobs whose clock readings round to different ones never race
  (`DistinctTimesDoNotRace`), and two that start 100 nanoseconds apart can (`JobsRace`).
- **A client timeout is not retried.** A transport error that is a context error, and the timeout of
  Go's HTTP client is one, is returned at once and counted nowhere (`AttemptExactly`, `RetriedReplies`).
- **A success is stored, a failure may be too.** A job counted as a success fetched nothing or has its map in
  the log; one counted as a failure has it there exactly when only the acknowledgement was lost
  (`SuccessIsStored`).
- **Exhaustion keeps its cause.** The error of an exhausted run is the only one the retry loop returns
  that still holds a retriable error (`OnlyExhaustionStaysRetriable`), so retrying a retry would retry it.
- **The two responses differ in case.** The backend answers with the upper-cased currency it finds in
  the request it shares with the service; the gateway repeats the currency as typed (contracts of
  `CurrencyServer.GetRate` and `RateHandler.Get`).
- **Year 0000 parses.** The gateway's date parser accepts it and the backend's timestamp check does not;
  the five-year rule hides this for any clock past the year 5 (`ValidationAgreement`).
- **The leeway does not extend expiry.** It widens only the start of a token's window, because the
  gateway checks expiry once more without it (`AcceptanceWindow`).

## Model

| member | source | states |
|---|---|---|
| Calendar.ValidDates | gateway/internal/handler/rates.go:54-65 | the dates of the calendar: months of 30 and 31 days, and February by divisibility by 4, 100 and 400 |
| Calendar.NextDate | gateway/internal/handler/rates.go:54-65 | the date after a date has the next day number, across ends of months and years |
| Calendar.ParseReads | gateway/internal/handler/rates.go:54-65 | a text parses iff it is four, two and two digits between hyphens that name a date of the calendar; its day is counted from 1970-01-01 |
| Calendar.ToDaysIsInverse | gateway/internal/handler/rates.go:54-65 | every valid date of the calendar is recovered from its day number |
| Calendar.FromDaysIsInverse | gateway/internal/handler/rates.go:104-107 | every day number names a valid date that has this number |
| Calendar.FormatUndoesParse | gateway/internal/handler/rates.go:54-65 | a date text the parser accepts is the text its day is printed as |
| Calendar.ParseUndoesFormat | currency/internal/repository/postgres.go:87-88 | a printed day parses to the same day, for years 0000 to 9999 |
| Calendar.FormatKeepsOrder | currency/internal/repository/postgres.go:75-81 | printed dates compare as strings exactly as their days do |
| Errors.SearchesFindWhatIsHeld | currency/internal/clients/currency/retry.go:62-68 | the searches for a retriable and for a context error find them under any wrapping, and nothing else |
| Backoff.NominalIsIdealExactly | currency/internal/clients/currency/retry.go:49-54 | the wrapped delay is min(base * 2^k, max) iff the product fits in an int64 or its low 64 bits reach the cap |
| Backoff.OverflowCanAgree | currency/internal/clients/currency/retry.go:49-54 | a policy whose product overflows at k = 2 and still gives the ideal delay there |
| Backoff.FirstOverflow | currency/internal/clients/currency/retry.go:49-54 | the first overflowing index gives a negative delay, 2^64 short of the product |
| Backoff.BackoffIsExactUntilOverflow | currency/internal/clients/currency/retry.go:49-54 | the first k + 1 delays are the ideal ones, and grow, iff base * 2^k is an int64 |
| Backoff.VanishingDelay | currency/internal/clients/currency/retry.go:49-59 | the delay is zero iff 2^64 divides base * 2^k; always from k = 64 on, jitter included |
| Backoff.DelayExactly | currency/internal/clients/currency/retry.go:49-59 | every delay of every policy: the int64 congruent to base * 2^k, capped, times 1 + jitter, with the fraction dropped; and the sleep it makes |
| Backoff.NominalSumIsClosedForm | currency/internal/clients/currency/retry.go:49-54 | the nominal delays of n sleeps add up to base * (2^min(c, n) - 1) + max(0, n - c) * max |
| Backoff.TotalWaitBounds | currency/internal/clients/currency/retry.go:49-59 | without overflow, for any jitters, the sleeps add up to between 0.7 of the closed form less a nanosecond a sleep, and 1.3 of it |
| Backoff.TotalWaitIsCapped | currency/internal/clients/currency/retry.go:39-59 | for every policy and any jitters, n sleeps take at most 1.3 * max(0, max) * n, negative delays taking no time |
| Retry.RunKeepsInv | currency/internal/clients/currency/retry.go:17-47 | in every reachable state the calls, outcomes, last error, attempt and sleeps fit together, and a finished run is explained by one of four exits |
| Retry.RunCharacterisation | currency/internal/clients/currency/retry.go:17-47 | a finished run called fn with 0, 1, ..., at most maxAttempts times, all but the last retriable; success, fail-fast and exhaustion each happen iff the outcomes say so; otherwise the context's error is returned |
| Retry.OnlyExhaustionStaysRetriable | currency/internal/clients/currency/retry.go:30-46 | the returned error has a retriable error in its chain iff the run was exhausted with maxAttempts >= 1 |
| Retry.CancellationSafety | currency/internal/clients/currency/retry.go:19-45 | after a cancellation at any point at most one call starts, only between check and call, none during a backoff, and at most four steps remain |
| Retry.EveryRunTerminates | currency/internal/clients/currency/retry.go:19-45 | every run has at most 4 * max(0, maxAttempts) + 2 steps and can go on until it returns |
| Retry.RunWaitBounds | currency/internal/clients/currency/retry.go:17-59 | if base * 2^(maxAttempts - 2) fits, the sleeps of any run are at most maxAttempts - 1 and add up to within the jitter bounds of the closed form |
| Retry.RunWaitIsCapped | currency/internal/clients/currency/retry.go:17-59 | with no hypothesis on the policy, no run sleeps longer than 1.3 * max(0, max) * max(0, maxAttempts - 1) |
| Retry.ReachesSleep | currency/internal/clients/currency/retry.go:39-58 | for every k below maxAttempts - 1 and every jitter from -0.3 up to 0.3 some run waits after attempt k under that jitter |
| Retry.SleepsAsIntendedExactly | currency/internal/clients/currency/retry.go:17-54 | every sleep of every run aims at the ideal delay iff the last possible one does not overflow |
| Retry.OverflowingConfiguration | currency/internal/clients/currency/retry.go:49-54 | a policy of half a second, 30 seconds at most and 37 attempts: positive, yet its last delay is negative and not the intended one |
| EcbClient.Do | currency/internal/clients/currency/retry.go:17-47 | the loop, whatever the environment does, is a complete run of the retry machine: its calls with their arguments, its result, the time it slept |
| EcbClient.Context.Wait | currency/internal/clients/currency/retry.go:39-44 | the select takes Done only under a cancelled context; otherwise the computed delay has passed, none if it is negative |
| Store.LogRefinement | currency/internal/repository/postgres.go:34-114 | after any saves, every query of the merged table gets the last-writer-wins answer of the log |
| Store.TableFollowsLog | currency/internal/repository/postgres.go:50-57 | each stored rate is the one of the last save to its row that carries it |
| Store.LastWriteIsLast | currency/internal/repository/postgres.go:50-57 | the last write of a row and key is that of the last save within half a microsecond of the row, under its base, that carries the key |
| Store.ListsIsMultiset | currency/internal/repository/postgres.go:99-107 | a scan result lists an answer iff it equals it as a multiset, so scan order does not matter |
| Store.IntervalsSplit | currency/internal/repository/postgres.go:75-81 | the answer over an interval is the disjoint union of the answers over its two parts |
| Store.SavesCommuteExactly | currency/internal/repository/postgres.go:50-57 | two saves commute iff they touch different rows or agree on their common currencies |
| Store.SavesMerge | currency/internal/repository/postgres.go:50-57 | two saves to one row are one save of the right-biased merge |
| Store.SkippedSaveIsUnobservable | currency/internal/service/currency.go:66-73 | saving an empty map instead of skipping changes no answer, then or after any further saves |
| Store.OrderDoesNotMatter | currency/internal/repository/postgres.go:50-57 | logs that are permutations of each other build the same table when no two saves conflict |
| Repository.PostgresRepository.Save | currency/internal/repository/postgres.go:34-64 | no error iff the map marshals, the base fits its column and the statement is acknowledged; the given date, base and rates are stored iff the statement is not refused either; the unique index and the agreement with the log are kept |
| Repository.PostgresRepository.FindInInterval | currency/internal/repository/postgres.go:66-114 | a row is returned, once, iff its day lies between the days of the request, both included, and a save has set the target in it under the base; its rate is the last one set |
| Repository.Varchar10Exactly | currency/internal/repository/postgres.go:50-57 | a base is stored up to its tenth byte iff only blanks follow |
| Repository.PostgresRepository.Scan | currency/internal/repository/postgres.go:99-107 | the loop over rows collects each matching row once |
| Ecb.ExtractObs | currency/internal/clients/currency/currency_client.go:156-187 | the loop returns what the two lemmas below say of its document |
| Ecb.RecordsInOrder | currency/internal/clients/currency/currency_client.go:161-184 | the records are those of the complete observations, each once, in their order |
| Ecb.FirstFailureIsReported | currency/internal/clients/currency/currency_client.go:161-177 | the error is that of the first observation that does not parse, its date before its value |
| Ecb.ObservationMap | currency/internal/clients/currency/currency_client.go:144-186 | ingest fails iff a complete observation does not parse; otherwise the keys are exactly the periods of complete observations, with the value of the last of each |
| Ecb.AttemptExactly | currency/internal/clients/currency/currency_client.go:53-154 | an attempt succeeds iff the request is complete and the status 200 with a blank body or a document without unparsable observations; it returns the empty map or the last value of every period; a context error is returned as it is |
| Ecb.LabelsExactly | currency/internal/clients/currency/currency_client.go:102-131 | which replies each duration and error label stands for, each counted at most once |
| Ecb.RetriedReplies | currency/internal/clients/currency/currency_client.go:102-131 | retried replies are exactly network failures that are not context errors, 429 and 5xx, each with one error and one duration; a success has one success duration and no error |
| Ecb.MetricsConservation | currency/internal/clients/currency/currency_client.go:64-131 | a successful fetch of k attempts leaves k - 1 errors, k durations, one success and the map of its last reply; an exhausted one maxAttempts errors and durations and no success |
| Ecb.FetchedKeysAreDates | currency/internal/clients/currency/currency_client.go:149-153 | every key of every fetched map is a date text |
| EcbClient.Client.FetchOnce | currency/internal/clients/currency/currency_client.go:83-154 | one attempt succeeds iff the request is complete and the reply a blank body or a parsable document, returns the last value of every period of it, and adds its duration and error |
| EcbClient.Client.FetchCurrentRates | currency/internal/clients/currency/currency_client.go:64-81 | the result, metrics and sleep of a complete retry run on the replies received; a success is the map of the last reply, a blank body or a document with no unparsable observation |
| Text.UpperIdentifiesCase | currency/internal/service/currency.go:37-38 | on ASCII two codes upper-case to the same iff they are equal up to case |
| Text.UpperTwice | currency/internal/service/currency.go:37-38 | upper-casing an ASCII code again changes nothing and keeps its length |
| Text.UpperExactly | currency/internal/service/currency.go:37-38 | upper-casing an ASCII code changes its small letters to capitals and nothing else |
| Dto.ValidTimestampIsYears | currency/internal/handler/currency.go:66-76 | a timestamp with a proper fraction is valid iff its UTC day is in year 0001 to 9999 |
| Service.CurrencyService.GetCurrencyRatesInInterval | currency/internal/service/currency.go:35-48 | the caller's request comes back upper-cased and the rates list the log's answer to it |
| Service.CurrencyService.FetchAndSaveCurrencyRates | currency/internal/service/currency.go:50-82 | one complete fetch from yesterday to now, then at most one save, of a non-empty map, under the upper-cased base; the error says which step failed |
| Service.OutcomeExactly | currency/internal/service/currency.go:60-82 | a job reports no error iff there was nothing to save or the save was acknowledged; what is saved is the fetched map, under the clock reading and base |
| Service.UnparsedDocumentSavesNothing | currency/internal/service/currency.go:60-77 | a last reply with a complete observation that does not parse saves nothing and fails the job |
| Ingest.EveryInterleaving | currency/internal/worker/currency.go:54-94 | in every interleaving the table is the fold of the commits in commit order, each commit is one job's, of a non-empty fetched map, and the counters add up |
| Ingest.EveryCommitWasFetched | currency/internal/service/currency.go:50-82 | in every interleaving each committed map is the non-empty one its own job's finished fetch returned, under that job's clock reading and base |
| Ingest.CountedJob | currency/internal/worker/currency.go:54-74 | a counted job has begun, fetched, saved unless there was nothing to save, observed and counted, in this order; it is a success iff the fetch succeeded and the save was acknowledged |
| Ingest.SuccessIsStored | currency/internal/worker/currency.go:54-74 | in every interleaving a job counted as a success has its fetched map in the log or fetched the empty one; a committed job is a success iff its save was acknowledged |
| Ingest.JobsAreIndependent | currency/internal/worker/currency.go:76-94 | a job's state depends only on its own events |
| Ingest.EveryShuffleRuns | currency/internal/worker/currency.go:76-94 | moves are a run of the machine iff every job's own events are a run of that job: all interleavings are covered |
| Ingest.InterleavingDoesNotMatter | currency/internal/worker/currency.go:76-94 | two interleavings of the same job events end with the same jobs, counters and commits, and the same table when no two commits conflict |
| Races.RaceFreeExactly | currency/internal/worker/currency.go:76-94 | every interleaving of a run's job events ends with the same table iff no two commits of the run conflict |
| Races.ConflictRaces | currency/internal/worker/currency.go:76-94 | for two conflicting commits of a run there are two interleavings of its job events that end with different tables |
| Races.DistinctTimesDoNotRace | currency/internal/repository/postgres.go:50-57 | jobs whose commits have different microseconds end with the same table however they interleave |
| Witnesses.JobsRace | currency/internal/worker/currency.go:76-94 | two EUR/USD jobs started 100 ns apart with different last replies: two reachable worlds of the same job events with different tables |
| Ingest.OnlyDatesAreStored | currency/internal/service/currency.go:60-75 | in every table reachable by worker jobs every rate is stored under a date text, and queries for anything else are empty |
| Ingest.SavedIsServed | currency/internal/service/currency.go:75-77 | a save keyed by the target stays in the answer after any later saves, with its rate until one of them sets the target again |
| Worker.CurrencyWorker.RunOnce | currency/internal/worker/currency.go:54-74 | one job from start to count is a run of that job in the interleaving machine, and the world stays one that jobs have reached from the empty table |
| Serve.ValidationAgreement | gateway/internal/handler/rates.go:40-84 | what the gateway accepts passes the backend iff date_from is not in year 0000, and always for a clock past the year 5 |
| Serve.AcceptedExactly | gateway/internal/handler/rates.go:40-84 | a query is accepted iff the currency has three bytes, the dates parse and are in order, and date_from is at most 1825 days ago; it keeps what was typed |
| Serve.ValidExactly | currency/internal/handler/currency.go:56-83 | a request is valid iff it has a currency and two timestamps of years 0001 to 9999 in order |
| Serve.TypedDatesAreBounds | currency/internal/dto/models.go:27-38 | the typed dates, carried as timestamps, are the days and texts the table is filtered by; target and base arrive upper-cased, the base defaulted |
| Serve.LogQueryExactly | currency/internal/repository/postgres.go:75-81 | a row answers an accepted query iff its day lies between the typed dates, both included, and a save has set the upper-cased currency under the upper-cased base, given or default; its rate is the last one set |
| Serve.ShownDatesWithinBounds | gateway/internal/handler/rates.go:99-108 | under a UTC session every date shown is, as a string, between the dates typed |
| Serve.UtcSessionNeeded | currency/internal/repository/postgres.go:75-81 | for every log of saves the repository lets through and every accepted query, all dates shown lie between the dates typed, iff the session offset is zero |
| Serve.StrayDate | currency/internal/repository/postgres.go:75-81 | for every offset but zero a stored EUR/USD rate and an accepted query for one day that shows it under another |
| Serve.ShownExactly | gateway/internal/handler/rates.go:99-108 | there are as many points as rows; every row is a point with its UTC day as text and its rate, and every point is a row |
| Serve.ShownAsOften | gateway/internal/handler/rates.go:99-108 | a point occurs as often as there are rows with its rate on its UTC day |
| Serve.SavedIsShown | gateway/internal/handler/rates.go:86-108 | a save keyed by the target currency is shown, after any later saves, with its day, and with its rate if none of them sets the target again |
| Serve.CaseDoesNotMatter | currency/internal/handler/currency.go:23-48 | requests equal up to ASCII case are asked of the table, and named in the response, identically |
| Serve.CaseDoesNotChangeReply | currency/internal/handler/currency.go:15-54 | the backend's replies to two requests equal up to ASCII case are the same error, or name the same currency and carry the same rates as a multiset |
| Serve.BackendReplyExactly | currency/internal/handler/currency.go:15-54 | for a valid request the records are exactly the rows between the days of its timestamps that a save has set the upper-cased currency in, with the last rate; NotFound iff there are none |
| Serve.WorkerRatesAreNotServed | gateway/internal/handler/rates.go:46-48 | in every world reachable by worker jobs an accepted query for an ASCII currency has no answer |
| Witnesses.FetchedButNotServed | currency/internal/clients/currency/currency_client.go:149-153 | a reachable world whose log holds a fetched EUR/USD rate, an accepted query for it with an empty answer, and the same query under the date with that rate |
| Deployment.AskAfterJobs | gateway/internal/handler/rates.go:86-97 | after any jobs of the worker on the shared table the gateway answers no accepted query for an ASCII currency; NotFound unless the database or the timestamp check fails |
| Gateway.CurrencyServer.GetRate | currency/internal/handler/currency.go:15-54 | InvalidArgument iff validation fails; NotFound iff the log's answer is empty; otherwise the rows in scan order and the upper-cased currency |
| Gateway.CurrencyServer.FromRequest | currency/internal/dto/models.go:27-38 | a fresh request object with the currency, the base or its default, and the timestamps as nanoseconds |
| Gateway.CurrencyClient.GetRate | gateway/internal/clients/currency.go:37-54 | the backend's rates in the same order, as times |
| Gateway.RateHandler.Get | gateway/internal/handler/rates.go:86-113 | end to end: a rejected query is an error; an accepted one gets, under the currency as typed, every row of the log query as a point with its day and rate, as many points as rows and no other, or NotFound iff there is none |
| Login.UserStore.constructor | auth/internal/users/users.go:13-19 | the loop builds the map of the configured list |
| Login.UserStore.Verify | auth/internal/users/users.go:21-31 | a password is right iff it is that of the last entry of the list with the login |
| Login.LastEntryDecides | auth/internal/users/users.go:13-31 | a lookup in the folded map succeeds iff the last entry with the login has the password |
| Login.AuthServer.Auth | auth/internal/handler/auth.go:46-103 | a token iff the login is well formed and the last entry with it has the password, each error exactly when due; subject, start and expiry are the login, floor(now) and floor(now + ttl) |
| Login.AcceptanceWindow | gateway/internal/middleware/auth.go:62-84 | a token issued at t is accepted iff the gateway shares the secret and asks for no other issuer and the clock is between floor(t) - 10s and floor(t + ttl); never more than ttl after issue, always until ttl - 1s; same subject |
| Login.LoginThenPass | auth/internal/handler/auth.go:46-103 | who logs in at t passes the gateway iff a token was issued, by an issuer it trusts, and the clock is in the acceptance window; under the same login |
| Login.LetThroughExactly | gateway/internal/middleware/auth.go:62-84 | the tokens accepted: signed by HS256 under the secret, with an expiry, in their window, of the issuer asked for |

## Left out

- HTTP, gRPC, XML and JSON coding, TLS and the database driver: models start from decoded
  observations, status codes and the semantics of the two SQL statements.
- Session time zones with daylight saving: the session offset is a constant.
- Go's `time` and `fmt` and the JWT library: `ParseDay`, `FormatDay`, `Validate` state what the calls do.
- FormatDay: is defined for years 0000 to 9999; `FindInInterval` reports a query error for other years,
  which the backend's validation never lets through.
- DateText: prints nothing for years outside 0000 to 9999, which only a non-UTC session can reach.
- StoredMicros: rounds a tie of half a microsecond up; which way the database goes there is not modelled.
- Varchar10: counts bytes, while the column counts characters; the two agree on ASCII codes.
- ToUpper: outside ASCII it is an arbitrary function, so only ASCII codes have case theorems.
- Rates: a rate is an opaque finite value, NaN or infinity; its passage through float32, float64, JSON and
  numeric is not modelled. A nil map is not distinguished from an empty one; the service saves neither.
- Delay: multiplies in real numbers, not float64, and does not model a product beyond int64, which needs
  a maximum delay above 2^63 / 1.3 nanoseconds.
- The schedule: cron and the startup goroutine appear as arbitrary interleavings of jobs; gocron itself,
  the job timeout and shutdown are part of the environment that cancels contexts.
- World: the ECB metrics are accounted for fetch by fetch, not in the interleaving machine.
- RunOnce: runs its job alone; jobs that overlap are the machine's interleavings.
- `ToProtobuf` of the response object and the unused currency-rate XML types: nothing calls them.
- Bearer header parsing, logging, request identifiers, recovery, error masking and the mapping of gRPC to
  HTTP codes: thin wrappers and case tables.
- Validate: the signature check is ideal, and clock readings are inputs; timing of the password comparison is not modelled.
- Configuration loading: `AppConfig.Validate` does not bound the retry settings, so the theorems that need
  positive delays say so.
