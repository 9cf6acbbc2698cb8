# utils.js core, modelled in Dafny

A model of the four stateful helpers of the `utils` module (`utils.js`):

- **storage** — `get`/`set`/`remove`/`clear` over the host's string key-value
  store (`localStorage`), with JSON encoding and self-healing reads: an entry
  that JSON.parse rejects is deleted and the default returned.
- **perf.debounce** — a wrapper that cancels its pending timer on every call
  and arms a new one carrying the call's arguments.
- **perf.throttle** — a leading-edge wrapper that runs `fn` only when at
  least `limit` has elapsed since the last execution, dropping other calls.
- **id.create** — an identifier generator `prefix-time-counter-random` whose
  captured `(lastTime, counter)` orders ids issued in the same millisecond.

Each helper is a class whose fields are the closure's captured variables (the
store's map for `storage`), with methods whose contracts give the new state
as a function of the old one. Host services are explicit: clock readings are
method parameters, the host timer is a pending `(deadline, args)` slot plus a
`Tick` step in which the host runs it, JSON.parse / JSON.stringify and the
store's quota rule are functions given to the store, and the random suffix is
a parameter. Calls of `fn` are recorded in ghost logs.

Files: `wrappers.dfy` (Option, Result, Outcome), `storage.dfy` (module
`Storage`), `debounce.dfy` (module `Debounce`), `throttle.dfy` (module
`Throttle`), `decimal.dfy` (module `Decimal`, the decimal text of clock
readings and counters), `ids.dfy` (module `Ids`).

## Behaviour worth knowing

The model follows the code where a looser reading of the helpers would differ:

- `throttle` starts with `last = 0`, so the first call runs only when its clock reading is at least `limit` (always true for epoch milliseconds, not for an arbitrary clock).
- `clear` calls the host's `clear`, emptying the whole store, including entries other code wrote.
- Storing a value that JSON.stringify maps to `undefined` does not fail: the host stores the text "undefined", and the next `get` finds it corrupt, removes it and returns the default.
- The first `create` at clock reading 0 yields counter 1, because `lastTime` starts at 0.

## Model

| member | source | states |
|---|---|---|
| `Storage.KeyedStore.Get` | utils.js:3-11 | absent key: default, store unchanged; entry that parses: its value, store unchanged; entry that does not parse: default, and exactly that key removed |
| `Storage.KeyedStore.Set` | utils.js:12-18 | success stores the serialized text under the key; a stringify error or a host rejection fails with the prefixed message and leaves the store unchanged |
| `Storage.KeyedStore.Remove` | utils.js:19-21 | the store minus the key; a no-op when the key is absent |
| `Storage.KeyedStore.Clear` | utils.js:22-24 | the whole host store becomes empty |
| `Storage.WriteEffect` | utils.js:12-18 | a write succeeds iff stringify does not throw and the host accepts the new store; on success only the written key changes; a failure message starts with "utils.storage.set failed: " |
| `Storage.SetThenGet` | utils.js:3-18 | when parse inverts stringify, a read after a successful write returns the written value |
| `Storage.SetUndefinedThenGet` | utils.js:6-14 | writing a value JSON.stringify maps to undefined stores "undefined", which the next read finds corrupt |
| `Storage.HealedReadIsAbsent` | utils.js:7-9 | after the corrupt entry is removed, a second read finds the key absent (so returns its own default), other keys read as before |
| `Debounce.HostDelay` | utils.js:69 | the wait a browser applies to the delay handed to `setTimeout`: the delay itself when it is in 0 .. 2^31-1, 0 for a negative delay down to -2^31, otherwise the delay wrapped modulo 2^32, or 0 when the wrapped value is 2^31 or more |
| `Debounce.WrappedDelay` | utils.js:69 | a delay of 2^32 + 5 ms wraps to 5 ms |
| `Debounce.Deadline` | utils.js:69 | a timer falls due no earlier than it is armed and less than 2^31 ms later: exactly `delay` later for a delay in 0 .. 2^31-1, at once for a negative delay down to -2^31 |
| `Debounce.LongDelayFiresAtOnce` | utils.js:69 | a delay of 2^31 ms wraps to a negative 32-bit value, so the timer is due at once |
| `Debounce.Debouncer.Call` | utils.js:67-70 | after a call exactly one timer is pending, carrying this call's arguments and due at the host's deadline for `delay` (`Debounce.Deadline`); the previous timer is gone and `fn` is not run |
| `Debounce.Debouncer.Tick` | utils.js:69 | when the pending timer is due, `fn` runs once with its arguments and nothing is left pending; otherwise nothing changes |
| `Debounce.BurstKeepsLast` | utils.js:67-70 | during a burst of calls each before the previous deadline, nothing fires and the last call's timer is the one pending |
| `Debounce.LastCallWins` | utils.js:67-70 | a burst followed by quiet until the last deadline runs `fn` exactly once, with the last call's arguments, leaving nothing pending |
| `Debounce.CancelledNeverFires` | utils.js:68-69 | a timer replaced before its deadline never runs; only the replacing call's arguments do |
| `Throttle.Throttler.Call` | utils.js:74-80 | `fn` runs iff `now - last >= limit`, and then `last` becomes `now`; otherwise nothing changes; the executions so far are always spaced by `limit` |
| `Throttle.Executions` | utils.js:75-79 | no more executions than calls, and every execution happens at the reading of some call (no queuing) |
| `Throttle.ExecutionsSpaced` | utils.js:76-77 | for any sequence of calls, consecutive executions are at least `limit` apart, the first at least `limit` after the start value of `last` |
| `Throttle.DroppedCallIsForgotten` | utils.js:76 | right after a dropped call the execution history is the one before it |
| `Throttle.DroppedCallNeverMatters` | utils.js:76-79 | after a dropped call, any later calls run `fn` exactly as if the dropped call had never been made |
| `Throttle.QuickSecondCallDropped` | utils.js:73-79 | of two calls less than `limit` apart only the first runs; a call `limit` after the first runs again |
| `Ids.IdGenerator.Create` | utils.js:89-101 | same reading: counter bumped; other reading: counter 0 and `lastTime` the reading; the id embeds exactly the new reading and counter and decodes to them; under a clock that does not go back the keys issued stay strictly increasing |
| `Ids.AdvanceMovesForward` | utils.js:90-97 | under a clock that does not go back, each call moves the (time, counter) key strictly forward |
| `Ids.SplitLast` | utils.js:100 | splitting at the last '-' gives two parts that rebuild the text, the second free of '-'; it fails iff there is no '-' |
| `Ids.DecodeFormat` | utils.js:100 | an id with a base-36 suffix decodes to exactly the prefix, reading, counter and suffix it was built from |
| `Ids.DistinctKeysDistinctIds` | utils.js:100 | ids with different (time, counter) keys are different strings, whatever their prefixes and suffixes |
| `Ids.IssueIncreasing` | utils.js:90-97 | for non-decreasing clock readings the issued keys strictly increase, each carrying its call's reading |
| `Ids.IssuedIdsDistinct` | utils.js:84-103 | from the initial state, calls under a clock that does not go back return pairwise different ids |
| `Ids.ClockRegressionRepeatsKey` | utils.js:90-97 | readings 5, 3, 5 issue the key (5, 0) twice, so a clock that goes back can repeat an id |
| `Decimal.Render` | utils.js:100 | the template literal writes a reading or counter as a non-empty run of digits with no leading zero |
| `Decimal.ValueOfRender` | utils.js:100 | reading back the decimal text gives the number written |
| `Decimal.RenderInjective` | utils.js:100 | different numbers have different decimal texts |

## Left out

- `geo.getCurrent` (utils.js:27-52): a Promise wrapper over the host's geolocation service; asynchronous host I/O.
- `perf.measure` (utils.js:55-64): floating-point `performance.now()` arithmetic and Promise chaining.
- The random suffix `Math.random().toString(36).substr(2, 5)` (utils.js:99) is a parameter of `Create`; its length is not fixed by the source (short fractions give fewer than five characters), and only its lack of '-' is used.
- The receiver of `fn.apply(this, args)`: the `this` of a call is not modelled; `args` stands for whatever the call passes.
- Module wiring and export (utils.js:105-117).
- Real timers, `Date.now()`, `localStorage` and JSON: clock readings are parameters, the timer is an explicit slot run by `Tick`, the JSON functions and the quota rule are functions given to the store.
- `Debounce.Deadline`: the delay rule is a browser's (32-bit conversion, negatives clamped to 0); the 4 ms minimum a browser imposes on timers nested more than 5 deep is not modelled; Node, which sets delays above 2^31-1 to 1 ms, is not modelled, and neither are non-numeric delays and limits.
- `Storage.KeyedStore.Get`: its never-fails contract holds only for a working store. When storage is disabled or missing, reaching `localStorage` throws; the catch block at utils.js:7-9 touches `localStorage` again through `removeItem`, so `get` throws too. Host exceptions from the store are not modelled.
- `Ids.IdGenerator.Create`: clock readings are natural numbers (milliseconds since the epoch); a negative reading and its '-' sign are not modelled.
- `Decimal.Render`: JavaScript writes numbers from 10^21 upwards in exponent notation and loses integer precision above 2^53; readings and counters that large are not modelled.
- The default arguments `defaultValue = null` of `get` and `prefix = "id"` of `create`: callers pass them explicitly.
