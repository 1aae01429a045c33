# Status rotator — a Dafny model

StatusCycler keeps a chat account's custom status moving: it checks the
account token once, then on a timer submits the next entry of a configured
list of status messages (optionally together with the next value of a
separate list of availability states such as `online` or `idle`), and every
few successful updates clears the console. Its only mutable state is
`sequenceIndex`, which advances only when an update succeeds.

This project models that core, `app.js`, as pure functions over immutable
values:

- `Json` — the JavaScript values the program handles, truthiness
  (`Json.Truthy`), property access (`Json.Access`) and what `JSON.stringify`
  emits (`Json.Wire`: members holding `undefined` are dropped).
- `JsNumber` — JavaScript's `%` (`JsNumber.Remainder`), including `NaN` for a
  zero divisor, plus the Euclidean-division facts the proofs use.
- `Remote` — `getUserInfo` and `changeStatus`. The HTTP exchange is an oracle:
  each call is handed the reply it got (`Reply`: a thrown `fetch` or an HTTP
  status; for the identity check also the parsed body), and the model says
  what the call makes of it. `Remote.Payload` is the request object literal.
- `Cursor` — the configuration record, the entry and availability chosen for
  a given index, and the clear rule (`Cursor.ClearDue`).
- `Scheduler` — one tick of `updateStatus` (`Scheduler.Tick`), traces of
  ticks (`Scheduler.Run`), and `Scheduler.Rotate`, the same rotation written
  as a loop over one mutable index.
- `Startup` — `main`: the token gate, the immediate tick and the arming of the
  interval timer, as a sequence of events.
- `Scenarios` — two concrete runs with two entries and a clear every second
  update.

The code never validates its configuration, and the model keeps what it does
with unusual values rather than excluding them:

- An empty `sequences` list makes every tick read `undefined`, throw on
  `sequence.text` before any request, and have the error swallowed by the
  tick's `catch`; the tick is `Aborted` and nothing changes.
- Availability cycling with an empty `status_sequence` passes `undefined` as
  the new status, which is falsy, so the request simply has no `status` key.
- A `clear_interval` of 0 makes the clear test compare `NaN` with 0, so the
  console is never cleared; a negative interval behaves like its magnitude.

A clear never happens at count 0. The code has no explicit test for this,
but it evaluates the clear rule after incrementing the index, so the count is
always positive there; `Scheduler.Tick` proves it.

## Model

| member | source | states |
|---|---|---|
| `Json.Access` | app.js:13 | reading `data.username` throws exactly on `null`/`undefined`; on an object it yields the value of the member with that key, or `undefined` when there is none; on any other value it yields `undefined` |
| `Json.Wire` | app.js:42 | the serialized body never contains `undefined` anywhere |
| `Json.GetWireMembers` | app.js:42 | after serialization a key reads back as what was emitted for its member, and is missing when the member held `undefined` |
| `Json.WireIdentity` | app.js:42 | serializing a value with no `undefined` inside leaves it unchanged |
| `Json.WireIdempotent` | app.js:42 | serializing twice is serializing once |
| `JsNumber.Remainder` | app.js:69-71 | `%` gives `NaN` exactly for a zero divisor, otherwise the value congruent to the dividend modulo the divisor, of smaller magnitude than the divisor and with the dividend's sign |
| `JsNumber.RemainderOfNatural` | app.js:86 | from the contract of `%` alone: on a non-negative dividend JavaScript's `%` is the Euclidean remainder by the divisor's magnitude |
| `Remote.GetUserInfo` | app.js:7-19 | the token is valid iff the reply is 200 with a parsed body whose `username` can be read; every other status, a thrown request or a bad body gives `("Invalid token", false)` |
| `Remote.ChangeStatus` | app.js:21-49 | succeeds iff the reply is HTTP 200; a thrown request gives `false`, never an error; the body is a serialized object |
| `Remote.SubmittedBodyIgnoresReply` | app.js:27-43 | the body is built before the call and does not depend on its reply |
| `Remote.SubmittedBodyKeys` | app.js:27-36 | the top-level keys are `custom_status`, then `status` only when the new status is truthy |
| `Remote.SubmittedStatus` | app.js:34-36 | `status` reads back as the availability value when it is truthy and is absent (not `null`) otherwise |
| `Remote.SubmittedCustomStatus` | app.js:27-32 | `custom_status` carries exactly the given `text` and `emoji_name`, each absent when `undefined`, and no other key |
| `Cursor.CurrentEntry` | app.js:69 | an entry is chosen iff the list is non-empty, and it is one of the configured entries |
| `Cursor.CurrentEntryPosition` | app.js:69 | with a non-empty list the chosen entry is `sequences[index mod length]` |
| `Cursor.CurrentEntryPeriodic` | app.js:69 | the chosen entry repeats with the length of the list |
| `Cursor.EveryEntryChosen` | app.js:69 | every window of `length` consecutive indices chooses every entry |
| `Cursor.CurrentAvailability` | app.js:70-72 | `null` when cycling is off, `undefined` when the list is empty, otherwise a configured value |
| `Cursor.CurrentAvailabilityPosition` | app.js:70-72 | with cycling on and a non-empty list the value is `status_sequence[index mod its own length]` |
| `Cursor.CurrentAvailabilityPeriodic` | app.js:70-72 | the availability choice repeats with its own list's length |
| `Cursor.ClearDueMultiple` | app.js:86 | the clear rule holds iff clearing is enabled, the interval is non-zero and the count is a multiple of it |
| `Scheduler.Tick` | app.js:67-93 | a tick aborts iff the list is empty; it is applied iff the list is non-empty and the reply is 200; the index grows by exactly one when applied and is unchanged otherwise; it clears iff applied, enabled and the new index is a multiple of the interval, so never at index 0 and never on failure |
| `Scheduler.TickRequest` | app.js:69-80 | the request carries the entry at `index mod length` as `custom_status` with exactly its `text` and `emoji_name` and no other key; `status` is the serialized availability value at `index mod its own length` when cycling is on and that value is truthy, and absent otherwise |
| `Scheduler.NoStatusWithoutCycling` | app.js:70-72 | with cycling off no request has a `status` key |
| `Scheduler.FinalIndexCountsSuccesses` | app.js:82-84 | after any trace the index has grown by exactly the number of successful updates |
| `Scheduler.RunTickAt` | app.js:65-84 | the k-th tick of a trace runs at the start index plus the successes before it |
| `Scheduler.RunLastIndex` | app.js:82-84 | the last tick of a trace leaves the index raised by the successes of the whole trace |
| `Scheduler.FailureRetriesSameRequest` | app.js:82-84 | the tick after a failed one sends exactly the same request |
| `Scheduler.RunAllAbort` | app.js:68-92 | with an empty list every tick aborts, sends nothing and keeps the index |
| `Scheduler.NoEntrySkipped` | app.js:69-84 | the applied entries are the list read cyclically from the start position, one per success, none skipped or repeated |
| `Scheduler.ClearsCountMultiples` | app.js:84-88 | over any trace the number of clears is the number of interval multiples the index passes |
| `Scheduler.NoClearsWhenDisabled` | app.js:86 | with clearing disabled or a zero interval no tick ever clears |
| `Scheduler.UpdateStatus` | app.js:67-93 | the in-place tick body leaves the index, request and clear decision that the functional tick describes |
| `Scheduler.Rotate` | app.js:65-93 | the in-place rotation ends at the number of successes (the functional trace's final index, by `FinalIndexCountsSuccesses`), sends the same bodies as the functional trace and clears once per completed interval |
| `Startup.Main` | app.js:55-99 | the run starts by rejecting the token exactly when the token check fails |
| `Startup.MainStopsOnInvalidToken` | app.js:58-63 | with an invalid token no tick runs and no timer is armed |
| `Startup.MainImmediateTickThenTimer` | app.js:96-98 | with a valid token the timer is armed exactly once and exactly one tick, the one at index 0, precedes it |
| `Startup.MainTicksAreRun` | app.js:65-98 | the ticks of a valid run are the trace of the immediate tick followed by the timer's ticks |
| `Startup.MainIndexCountsSuccesses` | app.js:65-98 | after a valid run the index equals the number of successful updates, the immediate one included |
| `Scenarios.ThreeSuccesses` | app.js:82-88 | with entries A, B and a clear every 2: three successes submit A, B, A and clear only at index 2 |
| `Scenarios.FailureThenRetry` | app.js:82-88 | a failure on the second update keeps the index at 1 and the next tick resends B, then clears at index 2 |

## Left out

- HTTP itself: `fetch`, the service URLs, the `authorization` and
  `Content-Type` headers and the token. Each call is given its reply as an
  input, so the token appears nowhere in the model.
- `response.json()` is reduced to "parsed to a value" or "unparsable".
- `Json.Value` has no arrays and no non-integer numbers, neither in replies
  nor in configuration values (`status_sequence` entries, `text`, `emoji`).
- `Json.Wire` gives what `JSON.stringify` emits as a structured value, in
  effect its re-parse, not the emitted string: string escaping and the
  character-level layout are not modelled.
- Loading `.env` and `config.json`: the configuration is an immutable
  `Cursor.Config`. Its entries are records with `text` and `emoji` members;
  an entry that is `null` or not an object, a missing `status_sequence` while
  cycling is on (which throws and aborts the tick), and a non-integer
  `clear_interval` are not modelled.
- `speed_rotator`, `setInterval`'s timing and the seconds-to-milliseconds
  conversion: the timer's firings are the sequence of replies a trace is given.
- `Startup.Main` orders the immediate tick before the timer is armed, as the
  calls are made; that the tick's reply arrives after the timer is armed is
  not represented, because ticks are atomic in the model.
- Overlapping ticks. The code has no guard against a tick starting while the
  previous one awaits its reply, and the model runs ticks one after another.
- `SIGINT` handling and process exit, and `main().catch`.
- Console output: the log lines, the timestamps and the clear-screen escape
  sequences; a clear is the boolean `cleared` of a tick.
- JavaScript numbers are doubles; an index above 2^53 would lose precision.
  `sequenceIndex` is an unbounded natural number here.
