# custom-rpc presence script, modelled in Dafny

`src/index.ts` keeps one Discord activity published over IPC. It reads a
JSON-with-comments configuration, logs the client in, and publishes the
activity with a start timestamp. With the `watch` flag it republishes on every
change of the file. On SIGINT or SIGTERM it destroys the client and exits.

This project models the part of that script that has logic:

- `PresenceConfig` (config.dfy): the `Cfg` record and `readConfig`. The
  object spread defaults `refreshTime` to `true` when it is nullish and copies
  every other field unchanged. `readConfig` rejects when the file cannot be
  read, and when the parser returns a nullish value: reading
  `parsed.refreshTime` then throws.
- `Timestamp` (timestamp.dfy): the conversion `Math.floor(ms / 1000)` and the
  two start-timestamp cascades.
  - At startup: `manualTime ??` wins, then a truthy `manualDuration`, then
    `firstTime`.
  - On a reload: `manualTime`, then a truthy `manualDuration` counted back
    from the current second, then the current second when `refreshTime` is
    truthy, and otherwise `firstTime`.
- `Lifecycle` (lifecycle.dfy): the script as a class `Presence`.
  - Its fields are the module-level `Config`, the once-assigned `firstTime`,
    and a trace of the calls made on the client and the process.
  - The calls are `Login`, `SetActivity`, `ClearActivity`, `Destroy` and
    `ProcessExit` (the `process.exit` call).
  - The constructor is startup, `RefreshConfig` is `refreshConfig` and `Exit`
    is `exit`.
  - `Start` covers a startup whose `readConfig` rejects: no call is made.
  - Pure functions (`StartupTrace`, `ReloadTrace`, `TraceAfter`,
    `ConfigAfter`, `SessionTrace`) give the trace and configuration after any
    sequence of reloads. The class invariant `Valid()` ties the fields to
    them.
  - The lemmas state what holds for every reachable session.
- `Wrappers` (wrappers.dfy): `Option` for JavaScript's nullish values and
  `Result` for a rejected promise.

Inputs the script takes from its environment are parameters: the parsed file
contents (`Source`) and the value of `Date.now()` at each point it is read.

`src/index.ts` has no pause/resume handling, no connection flag, no anchor
that moves on reload, no disconnect when the configuration is withdrawn, and
no check for a missing `applicationId`. The model follows the code:

- `firstTime` is assigned once, at line 24. It is the fallback on every
  reload (`AnchorNeverMoves`).
- When `readConfig` rejects during a reload, `refreshConfig` stops before it
  changes `Config` or calls the client.
- A reload that reads a new `applicationId` does not log in again. The client
  keeps the id it was built with at lines 16-19 (`SessionShape`).

## Model

| member | source | states |
|---|---|---|
| `PresenceConfig.Normalize` | src/index.ts:93 | the result always has `refreshTime`. A nullish `refreshTime` becomes `true`. An explicit value, `false` included, is kept and the record is returned unchanged. Every other field of `Cfg` equals the parsed input. |
| `PresenceConfig.ReadConfig` | src/index.ts:86-94 | succeeds exactly when a record was parsed, and then yields its normalised form. An unreadable file gives `FileError`. A nullish parse result gives `NoDocument` (the `TypeError` of line 93). |
| `PresenceConfig.NormalizeFixesExactlyNormalized` | src/index.ts:93 | normalising twice equals normalising once. A record is left unchanged exactly when it already has `refreshTime`. |
| `Timestamp.SecondsOf` | src/index.ts:24 | `s * 1000 <= ms < (s + 1) * 1000`, which is `Math.floor(ms / 1000)` for every integer `ms`, and `s >= 0` when `ms >= 0`. |
| `Timestamp.ManualTimeWins` | src/index.ts:28-30 | `StartupTimestamp` and `ReloadTimestamp` both return a present `manualTime`, even `0`, as the timestamp (lines 28-29 and 57-58), whatever the clocks are. At startup, any two records with that `manualTime` give the same timestamp. |
| `Timestamp.ZeroDurationIsAbsent` | src/index.ts:29-30 | in `StartupTimestamp` and `ReloadTimestamp`, `manualDuration = 0` gives the same timestamp as an absent `manualDuration`, at startup and on a reload. |
| `Timestamp.DurationCountsBack` | src/index.ts:59-60 | with no `manualTime` and a non-zero duration `d`, `StartupTimestamp` is `firstTime - d`. `ReloadTimestamp` is `now - d`, from the current second and not from `firstTime`. |
| `Timestamp.StartupFallsBackToFirstTime` | src/index.ts:30 | with no `manualTime` and a falsy duration, `StartupTimestamp` returns `firstTime`. |
| `Timestamp.ReloadFallback` | src/index.ts:61-63 | with no manual fields, `ReloadTimestamp` returns the current second when `refreshTime` is truthy, and otherwise exactly `firstTime` whatever the current second is. |
| `Timestamp.ReloadFollowsClock` | src/index.ts:57-63 | `ReloadTimestamp` never decreases as the current second advances. When the timestamp follows the clock (no `manualTime`, and a non-zero duration or a truthy `refreshTime`), it moves by exactly the elapsed seconds. |
| `Timestamp.StartupIsReloadAtFirstSecond` | src/index.ts:57-63 | `ReloadTimestamp` evaluated at the second `firstTime` equals `StartupTimestamp`, for every record. |
| `Lifecycle.ReloadTraceShape` | src/index.ts:52-64 | after any sequence of reloads, the calls made are `ClearActivity`, each immediately followed by one `SetActivity`. Their number is twice the number of reloads whose read succeeded. A failed read makes no call. |
| `Lifecycle.SessionShape` | src/index.ts:16-31 | a session starts with one `Login`, carrying the startup `applicationId`, then one `SetActivity` with the startup timestamp. No later call is a `Login`. The reload pairs follow. After `exit`, `Destroy` and `ProcessExit(0)` are the last two calls, and `ProcessExit` appears nowhere else. |
| `Lifecycle.LastActivityAfterReloads` | src/index.ts:53-64 | starting from a trace whose last published activity is `c`, after any reloads the last published activity is the configuration in force (`ConfigAfter(c, reloads)`). |
| `Lifecycle.PublishedIsCurrent` | src/index.ts:53-55 | while the script runs, the activity last published is the current `Config`. |
| `Lifecycle.ReloadPublishes` | src/index.ts:52-63 | every activity a reload publishes was normalised by `readConfig`. One with no manual fields and a falsy `refreshTime` carries exactly `firstTime`, however many reloads came before. |
| `Lifecycle.AnchorNeverMoves` | src/index.ts:24-63 | over the whole session, startup and every reload included, an activity with no manual fields and a falsy `refreshTime` is published with the process-start second. |
| `Lifecycle.Presence.constructor` | src/index.ts:14-31 | startup logs in with the configured `applicationId`. It sets `firstTime` to the current second. It publishes once with `Config` and the startup timestamp, and nothing else is called. |
| `Lifecycle.Presence.RefreshConfig` | src/index.ts:50-66 | a read that rejects changes neither `Config` nor the trace (what the runtime does next is under Left out). Otherwise `Config` becomes the newly read record, and the trace grows by `ClearActivity` then `SetActivity(Config, reload timestamp)`. `firstTime` stays the same and the invariant is kept. |
| `Lifecycle.Presence.Exit` | src/index.ts:44-48 | appends `Destroy` then `ProcessExit(0)`, and leaves `Config` unchanged. |
| `Lifecycle.Start` | src/index.ts:14-21 | when the startup read rejects, there is no running script and no call is made. Otherwise it is the constructor's startup. |

## Left out

- The Discord client (`login`, `setActivity`, `clearActivity`, `destroy`) is foreign IPC code. Each call is a trace entry only.
- `login`, `setActivity`, `clearActivity` and `destroy` are assumed to succeed. In the script, a rejected `client.login()` at line 21 aborts startup before `firstTime` is set and before any `SetActivity`; a rejected `setActivity` or `destroy` likewise stops the function that awaited it. The model does not represent these failures.
- `clearActivity()` at line 54 is not awaited. The trace records the order in which calls are issued, not the order in which they complete.
- Reading the file, building its path and `fs.watch` are file-system I/O. The parser is an external library. What they deliver is the `Source` parameter.
- A parse result that is a non-object JSON value (a number, a string, an array) is not modelled. Only a record or a nullish value is.
- The `as Cfg` cast is unchecked, so the script never verifies that `applicationId` and `name` are present. The model takes them as strings. What the client library does with a missing id is not modelled.
- PresenceConfig.Normalize: the unchecked `as Cfg` cast also lets the file carry keys outside `Cfg` (such as `"buttons"` or `"instance"`). The spreads at lines 93, 27 and 56 copy those keys and pass them to `setActivity`; the model's `Cfg` has only the interface's fields, so `Normalize`, `ReadConfig` and `SetActivity` drop them.
- The same unchecked cast lets `refreshTime`, `manualTime` and `manualDuration` hold any JSON value. The model types them as an optional boolean and optional integers, so it cannot express, for example, `"refreshTime": 0` (kept by `??` at line 93, then falsy at line 61) or `"manualDuration": "60"` (truthy at line 29, then converted to a number by the subtraction).
- JavaScript numbers are modelled as unbounded integers. Fractional values, `NaN` (falsy like `0`) and precision loss of large numbers are not modelled. So `manualTime` and `manualDuration` are integer seconds.
- `Date.now()` is a parameter at each point the script reads it.
- A reload whose `readConfig` rejects leaves an unhandled promise rejection, since `refreshConfig` is the `fs.watch` listener (line 37) and nothing catches it. By default (Node.js 15 and later) the runtime then ends the process with status 1, so no later reload and no `exit` run. The model over-approximates this: `RefreshConfig` reports the failure, changes nothing, and the session carries on.
- Overlapping `refreshConfig` runs started by the watcher are concurrency. Reloads are sequential and atomic steps.
- An event arriving between `client.destroy()` and `process.exit(0)` is concurrency too. `Exit` is atomic and no reload follows it.
- The SIGINT/SIGTERM registration, `process.stdin.resume()`, the `watch` flag check and the console messages are process plumbing with no behaviour to verify.
