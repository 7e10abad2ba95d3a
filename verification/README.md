# memobench run ledger, memo parser and helpers, in Dafny

memobench is a Solana landing-time benchmark. It sends a batch of memo
transactions. Each memo carries `memobench: Test <n> [<test id>]`. A websocket
log subscription then watches for their confirmations. It records how long
each one took to land and in which block, and it prints a per-block histogram.

This project models the logic of `main.go` that sits between the network calls:

- `urls.dfy`, module `Urls`: `Config.GetWsUrl` and `Config.GetSendUrl`, with
  Go's `strings.ReplaceAll` written out (leftmost, non-overlapping
  replacement).
- `memo.dfy`, module `Memo`: the memo payload, the test identifier
  (`hex.EncodeToString` of 4 random bytes) and the listener's pattern
  `memobench:.*?(\d+).*\[(.*?)\]`. The pattern is a structured parser that
  follows Go's leftmost-first matching:
  - the first marker occurrence that leads to a match wins;
  - capture 1 is the first digit run after the marker, taken greedily;
  - capture 2 runs from the last `[` that is closed on the marker's line to
    the first `]` after it;
  - `.` never crosses a line break.
- `ledger.dfy`, module `RunLedger`: the shared counters. Each
  `mu.Lock()`…`mu.Unlock()` section is one atomic step on an immutable
  `Ledger`. The steps are:
  - an emitter's successful send;
  - one iteration of the listener loop;
  - `Stop`, called by the deadline timer, the interrupt handler or natural
    completion.

  Any interleaving of goroutines is therefore a sequence of `Step`s, and
  invariants are proved over every such sequence.
- `histogram.dfy`, module `Histogram`: the rows and bar lengths of
  `DisplayBlocks`.
- `schedule.dfy`, module `Schedule`: the start boundary that emitters sleep
  until.
- `wrappers.dfy`, module `Wrappers`: `Option`.

Time is integer nanoseconds. Counters and slots are unbounded naturals. The
code's `Unsubscribe` call is modelled by the counter `unsubscribes`.

One might expect a matched `TxTimes` entry to be consumed, which would keep
`ProcessedTransactions <= SentTransactions`. The code never removes an entry
(main.go:166-180), so a signature's confirmation delivered twice is counted
twice and the processed count can exceed the sent count. The model follows the
code: `RunLedger.DuplicateCounted` exhibits the double count, and no invariant
claims `processed <= sent`.

## Model

| member | source | states |
|---|---|---|
| Urls.ReplaceAll | main.go:97 | with a non-empty target and replacement, the result is empty exactly when the input is |
| Urls.ReplaceAllIdentity | main.go:97 | a string that does not contain the target comes back unchanged |
| Urls.ReplaceAllSkipsPrefix | main.go:97 | a prefix in which no occurrence of the target starts is copied verbatim, and only the rest is rewritten |
| Urls.PrefixPreimage | main.go:97 | when the replacement's first character does not occur in a pattern, that pattern at the front of the output comes from the same pattern at the front of the input |
| Urls.ReplaceAllAvoids | main.go:97 | the output holds no occurrence of a pattern that is the target itself or absent from the input, provided the replacement can neither start nor continue that pattern |
| Urls.GetWsUrl | main.go:91-98 | a configured websocket URL is returned as is; otherwise the result contains neither `http://` nor `https://`; a scheme-free RPC URL passes through unchanged; the result is empty exactly when both URLs are |
| Urls.WsUrlFromHttps | main.go:96-97 | an `https://` RPC endpoint becomes the same endpoint under `wss://` |
| Urls.WsUrlFromHttp | main.go:96-97 | an `http://` RPC endpoint becomes the same endpoint under `ws://` |
| Urls.GetSendUrl | main.go:100-106 | a configured send URL wins and the RPC URL is the fallback; the result is empty exactly when both are |
| Memo.Decimal | main.go:339 | the `%d` numeral is non-empty, all digits, and starts with `0` only for zero |
| Memo.DecimalRoundTrip | main.go:339 | the numeral of a sequence number reads back as that number |
| Memo.HexEncode | main.go:487 | two lower-case hex digits per byte |
| Memo.HexRoundTrip | main.go:487 | hex decoding inverts hex encoding |
| Memo.NewTestId | main.go:481-487 | the test identifier is eight lower-case hex digits and decodes back to the 4 random bytes |
| Memo.FindMarker | main.go:145-147 | returns the first marker occurrence at or after the start, or none when there is no occurrence |
| Memo.LineEnd | main.go:145 | the scan stops at the first line break or at the end of the text |
| Memo.FirstDigit | main.go:145 | the lazy `.*?` stops at the first digit, and no digit comes before it |
| Memo.DigitRunEnd | main.go:145 | the greedy `(\d+)` takes the whole digit run |
| Memo.LastOpen | main.go:145 | the greedy `.*\[` picks the last `[` that is closed on the line, and no later one is closed |
| Memo.MatchAt | main.go:145-151 | a match at a marker has a non-empty all-digit capture 1 and a capture 2 free of `]` and line breaks |
| Memo.ParseFrom | main.go:145-151 | a match has a non-empty all-digit capture 1 and a capture 2 free of `]` and line breaks; with no marker from the start position on there is no match |
| Memo.ParseFromFirst | main.go:145-151 | leftmost-first: there is no match exactly when no marker occurrence starts one; otherwise the result is the match at a marker occurrence before which no occurrence started a match |
| Memo.ParseMemo | main.go:145-151 | a line without `memobench:` never matches; every match has a digit capture 1 and a `]`-free capture 2, which is why a test identifier is compared whole |
| Memo.ParseAt | main.go:145-151 | the parse of a line is assembled from the searches made at its first marker |
| Memo.PayloadShape | main.go:339 | the memo opens with the marker, carries the numeral of `id` after `" Test "`, and ends with the test identifier between `[` and a final `]` |
| Memo.ParsePayload | main.go:339 | a line holding the memo of transaction `id`, with no marker before it and no `[` after it, parses to the numeral of `id` and the test identifier |
| Memo.MemoRoundTrip | main.go:145-151 | the memo of a run whose identifier came from 4 random bytes parses back to that identifier and to a numeral whose value is `id` |
| RunLedger.Started | main.go:63-73 | the ledger as the listener starts listening: empty, listening, and satisfying the invariant |
| RunLedger.RecordSend | main.go:407-411 | a send records its signature's time and adds exactly one to the sent count; nothing else changes |
| RunLedger.Stop | main.go:208-215 | after `Stop` the listener is not listening; it unsubscribes only if it was listening; a second stop is a no-op; the counters are untouched |
| RunLedger.StopIdempotent | main.go:208-215 | stopping twice equals stopping once, so there is at most one extra `Unsubscribe` |
| RunLedger.Confirm | main.go:164-180 | one confirmation adds one to the processed count and appends its latency; its block's count is created at 0 if missing and then raised by one; other blocks and the sends stay as they were |
| RunLedger.CountedShape | main.go:145-166 | a line the listener counts carries a marker occurrence that starts a match with no earlier occurrence starting one; an identifier holding `]` or a line break is never counted; a counted event has a log line and a sent signature |
| RunLedger.ScanLines | main.go:146-202 | the scan counts the event once, at the first line naming this run, exactly when its signature is known and such a line exists; otherwise it leaves the ledger unchanged |
| RunLedger.HandleEvent | main.go:135-203 | these events leave the ledger unchanged: a missing or failed event, one with no line naming the run, one with an unknown signature; a matching event is counted and stops the listener once processed reaches sent; the processed count grows by at most one |
| RunLedger.StopIfDone | main.go:198-200 | the check leaves every counter alone; afterwards the listener is stopped exactly when it already was or processed has reached sent, and it unsubscribes only when this check is what stops it |
| RunLedger.CountedEvent | main.go:163-201 | a matching event adds exactly one to the processed count, one latency and one landing in its slot, leaving other slots alone; it stops and unsubscribes exactly when processed reaches sent |
| RunLedger.StepValid | main.go:164-180 | every atomic step keeps the invariant: one latency per processed confirmation; block counts are positive and sum to the processed count; `Unsubscribe` is called at most once, exactly when the listener stopped |
| RunLedger.RunValid | main.go:135-203 | every interleaving of sends, events and stops keeps the invariant |
| RunLedger.RunFromStart | main.go:208-215 | from the start of a run, `Unsubscribe` is called at most once, and latencies and block counts both add up to the processed count |
| RunLedger.RunMonotone | main.go:164-180 | counts only grow, latencies are only appended, and send times and block counts are never removed or lowered |
| RunLedger.RepeatedStops | main.go:208-215 | any number of consecutive stops from the timer and the interrupt handler act as a single stop |
| RunLedger.RunSends | main.go:407-411 | a batch of sends makes every signature known and raises the sent count by the batch size, and nothing else changes |
| RunLedger.ConfirmAll | main.go:198-200 | a listening ledger that receives as many matching events as it awaits processes them all, then stops and unsubscribes once |
| RunLedger.RunToCompletion | main.go:198-200 | after `n > 0` sends and `n` matching confirmations, processed equals sent equals `n`, there are `n` latencies and `n` landings, and there is exactly one `Unsubscribe` |
| RunLedger.DuplicateCounted | main.go:166-180 | since send times are never deleted, one send and its confirmation delivered twice give processed 2 against sent 1 |
| Histogram.Stars | main.go:439 | the bar length is the exact ceiling of `count * 100 / processed`: the least natural number whose product with `processed` reaches `count * 100` |
| Histogram.StarsBounds | main.go:436-439 | a block with a landing gets at least one star; a count within the processed total gets at most 100; a count equal to the total gets exactly 100 |
| Histogram.BlockRange | main.go:419-427 | the first loop finds the lowest and highest block; with no blocks it keeps its `MaxUint64` and `0` start values |
| Histogram.RowFor | main.go:430-445 | the row is for block `b`; it has a bar exactly when the block has an entry, and then carries its count and the least bar length whose multiple by the processed total covers `count * 100` |
| Histogram.RowsBetween | main.go:429-446 | the second loop yields one row per block from first to last inclusive, and none when first is past last |
| Histogram.DisplayBlocks | main.go:416-447 | there are no rows exactly when there are no blocks; the rows run from the lowest to the highest block, one per block number, in increasing order, and cover every block; a block without landings gets a bar-less row; any other row carries the block's count and its ceiling bar |
| Histogram.BarsFit | main.go:439 | in every reachable ledger, each block with landings draws between 1 and 100 stars |
| Schedule.StartBoundary | main.go:364 | the start is a multiple of five seconds, lies strictly after `now`, and its window shifted back by ten seconds holds `now` |
| Schedule.SleepTime | main.go:364-365 | with a second clock reading for `time.Until`, the sleep ends on the start boundary of the first reading; it is at most ten seconds when the clock did not go back; it is more than five and at most ten seconds exactly when both readings fall in the same five-second window |
| Schedule.StartUnique | main.go:364 | the start is the only five-second multiple whose shifted window holds `now` |
| Schedule.StartMonotone | main.go:364 | a later clock reading never gives an earlier start, and readings in the same five-second window share one start |

## Left out

- Websocket and RPC clients are not modelled:
  - connecting, subscribing and `Recv`, so an event reaches the model as an already received `Option<LogEvent>`;
  - the subscription, which is reduced to the `unsubscribes` counter;
  - `GetLatestBlockhash`, `GetBalance` and `SendTransactionWithOpts`, so a send reaches the model only through its returned signature.
- Transaction building and signing (compute-budget and memo instructions) go through the solana-go library and are not modelled.
- Goroutines, the mutex, the wait group, timers and signal handling are modelled only as an interleaving of atomic steps:
  - the deadline timer and the interrupt handler are a `ForceStop` step that may occur anywhere;
  - this also covers the timer armed at main.go:122, which reads `StopTime` before main.go:322 sets it;
  - `Stop` itself runs outside the mutex, and the model treats it as atomic;
  - the interrupt handler's `os.Exit` when the listener is not listening is not modelled.
- RunLedger.HandleEvent evaluates the stop check (main.go:198) atomically with the confirmation. In the code the lock is released at main.go:182 and `ProcessedTransactions >= SentTransactions` is read without it, so an emitter's send (main.go:408-411) can land in between; the code then does not stop where the model does, and it keeps listening until a later confirmation passes the check.
- RunLedger.HandleEvent is allowed in any ledger state, including after `Stop`. This is more permissive than the code, whose loop checks `Listening` only before blocking in `Recv`. Every invariant is proved for this larger set of runs.
- The rate limiter, the sleep itself, throttling logs and all logging are left out. Stop times, wall-clock readings and random bytes are parameters.
- Statistics (min, max, mean, median, percentiles) and the landed percentage are float computations through a foreign library and are not modelled.
- The priority-fee cost, the balance threshold and the configuration file's JSON read and write are left out, being floats and I/O.
- Histogram.Stars is an exact integer ceiling. The source computes `math.Ceil(float64(count)/float64(processed)*100)`, which can be one more: for 7 of 100 the float product is 7.000000000000001, giving 8 stars where the exact ceiling is 7.
- Histogram.BlockRange uses exact integer min and max. The source goes through `float64`, which rounds block numbers above 2^53; `top` is computed but never used.
- Histogram.DisplayBlocks requires every block key to be below `MaxUint64`. A key equal to it would make the source's `block++` wrap around and never end the loop.
- Histogram.DisplayBlocks requires a positive processed count. The source reaches `DisplayBlocks` only when `TxDeltas` is non-empty.
- Histogram.DisplayBlocks does not model the percentage column or the thousands separators.
- RunLedger.Ledger counters and slots are unbounded naturals. The source's `uint64` counters would wrap only after 2^64 transactions.
- Schedule.StartBoundary works on nanoseconds since the Unix epoch with floor division. Go truncates relative to its zero time, and the two agree because the offset between them is a multiple of five seconds. Monotonic clock readings are not modelled.
- Full regular-expression semantics are not modelled. The parser is specified on lines without the marker and on lines carrying the emitted payload, and it is proved sound in general, as the `Memo.ParseMemo` contract states.
