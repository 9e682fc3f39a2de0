/** The script's lifecycle (src/index.ts:14-66): startup, configuration
    reloads and exit, as state transitions over `Config` that append the
    client calls they make to an effect trace.

    The Discord client is not modelled: each call it receives is an `Effect`.
    Reloads are sequential and atomic. */
module Lifecycle {
  import opened Wrappers
  import opened PresenceConfig
  import opened Timestamp

  /** A call the script makes on the client or the process. `Login` records
      the client id the client was built with; `SetActivity` records the
      spread configuration and the start timestamp it was given. */
  datatype Effect =
    | Login(clientId: string)
    | SetActivity(activity: Cfg, startTimestamp: int)
    | ClearActivity
    | Destroy
    | ProcessExit(status: int)

  /** One run of `refreshConfig`: what the read delivered and `Date.now()`. */
  datatype Reload = Reload(src: Source, nowMs: int)

  /** Lines 21-31: log in with the configured application id, then publish
      once with the startup timestamp. */
  function StartupTrace(c: Cfg, firstTime: int): seq<Effect> {
    [Login(c.applicationId), SetActivity(c, StartupTimestamp(c, firstTime))]
  }

  /** Lines 52-64: when `readConfig` rejects, the function stops before any
      call; otherwise the activity is cleared and then set again. */
  function ReloadTrace(firstTime: int, r: Reload): seq<Effect> {
    match ReadConfig(r.src)
    case Err(_) => []
    case Ok(c) => [ClearActivity, SetActivity(c, ReloadTimestamp(c, firstTime, SecondsOf(r.nowMs)))]
  }

  /** Line 53: the configuration in force after one reload. */
  function Reloaded(c: Cfg, r: Reload): Cfg {
    match ReadConfig(r.src)
    case Err(_) => c
    case Ok(n) => n
  }

  /** Lines 45-47: destroy the client, then exit with status 0. */
  const ExitTrace: seq<Effect> := [Destroy, ProcessExit(0)]

  /** The configuration in force after a sequence of reloads. */
  function ConfigAfter(c: Cfg, reloads: seq<Reload>): Cfg
    decreases |reloads|
  {
    if reloads == [] then c else ConfigAfter(Reloaded(c, reloads[0]), reloads[1..])
  }

  /** The calls made by a sequence of reloads. */
  function TraceAfter(firstTime: int, reloads: seq<Reload>): seq<Effect>
    decreases |reloads|
  {
    if reloads == [] then [] else ReloadTrace(firstTime, reloads[0]) + TraceAfter(firstTime, reloads[1..])
  }

  /** Everything the script has called: startup, the reloads so far and,
      once `exit` has run, its two calls. */
  function SessionTrace(start: Cfg, firstTime: int, reloads: seq<Reload>, exited: bool): seq<Effect> {
    StartupTrace(start, firstTime) + TraceAfter(firstTime, reloads) + (if exited then ExitTrace else [])
  }

  /** The number of reloads whose read succeeded. */
  function Successes(reloads: seq<Reload>): nat
    decreases |reloads|
  {
    if reloads == [] then 0
    else (if reloads[0].src.Document? then 1 else 0) + Successes(reloads[1..])
  }

  /** A trace made of `ClearActivity` calls each immediately followed by one
      `SetActivity` call. */
  predicate ReloadPairs(t: seq<Effect>)
    decreases |t|
  {
    t == [] || (|t| >= 2 && t[0] == ClearActivity && t[1].SetActivity? && ReloadPairs(t[2..]))
  }

  /** The configuration of the most recent `SetActivity` call, if any. */
  function LastActivity(t: seq<Effect>): Option<Cfg>
    decreases |t|
  {
    if t == [] then None
    else if t[|t| - 1].SetActivity? then Some(t[|t| - 1].activity)
    else LastActivity(t[..|t| - 1])
  }

  /** A configuration whose timestamp falls back to `firstTime` on a reload:
      no `manualTime`, a falsy `manualDuration` and a falsy `refreshTime`. */
  predicate FallsBackToFirstTime(c: Cfg) {
    c.manualTime.None? && !DurationSet(c) && !RefreshSet(c)
  }

  /** Appending a reload appends its calls. */
  lemma {:induction false} TraceAfterSnoc(firstTime: int, reloads: seq<Reload>, r: Reload)
    ensures TraceAfter(firstTime, reloads + [r]) == TraceAfter(firstTime, reloads) + ReloadTrace(firstTime, r)
    decreases |reloads|
  {
    if reloads != [] {
      assert (reloads + [r])[1..] == reloads[1..] + [r];
      TraceAfterSnoc(firstTime, reloads[1..], r);
    }
  }

  /** Appending a reload makes its configuration (if it was read) current. */
  lemma {:induction false} ConfigAfterSnoc(c: Cfg, reloads: seq<Reload>, r: Reload)
    ensures ConfigAfter(c, reloads + [r]) == Reloaded(ConfigAfter(c, reloads), r)
    decreases |reloads|
  {
    if reloads != [] {
      assert (reloads + [r])[1..] == reloads[1..] + [r];
      ConfigAfterSnoc(Reloaded(c, reloads[0]), reloads[1..], r);
    }
  }

  /** Every successful reload emits `ClearActivity` immediately followed by
      exactly one `SetActivity`, and a failed one emits nothing. */
  lemma {:induction false} ReloadTraceShape(firstTime: int, reloads: seq<Reload>)
    ensures ReloadPairs(TraceAfter(firstTime, reloads))
    ensures |TraceAfter(firstTime, reloads)| == 2 * Successes(reloads)
    decreases |reloads|
  {
    if reloads != [] {
      var rest := TraceAfter(firstTime, reloads[1..]);
      ReloadTraceShape(firstTime, reloads[1..]);
      match ReadConfig(reloads[0].src)
      case Err(_) =>
        assert TraceAfter(firstTime, reloads) == rest;
      case Ok(c) =>
        var t := TraceAfter(firstTime, reloads);
        assert t == [ClearActivity, SetActivity(c, ReloadTimestamp(c, firstTime, SecondsOf(reloads[0].nowMs)))] + rest;
        assert t[2..] == rest;
    }
  }

  /** A trace of reload pairs holds no call other than clearing and setting
      the activity. */
  lemma {:induction false} PairsOnlyClearOrSet(t: seq<Effect>)
    requires ReloadPairs(t)
    ensures forall i :: 0 <= i < |t| ==> t[i] == ClearActivity || t[i].SetActivity?
    decreases |t|
  {
    if t != [] {
      PairsOnlyClearOrSet(t[2..]);
      assert forall i :: 2 <= i < |t| ==> t[i] == t[2..][i - 2];
    }
  }

  /** The shape of the whole session: one `Login`, with the application id
      read at startup, then one `SetActivity`, then the reload pairs, then,
      after `exit`, `Destroy` and `ProcessExit(0)` as the last two calls. */
  lemma SessionShape(start: Cfg, firstTime: int, reloads: seq<Reload>, exited: bool)
    ensures var t := SessionTrace(start, firstTime, reloads, exited);
      && |t| >= 2
      && t[0] == Login(start.applicationId)
      && t[1] == SetActivity(start, StartupTimestamp(start, firstTime))
      && (forall i :: 0 < i < |t| ==> !t[i].Login?)
      && ReloadPairs(t[2..|t| - |if exited then ExitTrace else []|])
      && (exited ==> t[|t| - 2..] == ExitTrace)
      && (forall i :: 0 <= i < |t| && t[i].ProcessExit? ==> exited && i == |t| - 1 && t[i].status == 0)
  {
    var middle := TraceAfter(firstTime, reloads);
    var tail: seq<Effect> := if exited then ExitTrace else [];
    var t := SessionTrace(start, firstTime, reloads, exited);
    ReloadTraceShape(firstTime, reloads);
    PairsOnlyClearOrSet(middle);
    assert t == StartupTrace(start, firstTime) + middle + tail;
    assert t[2..|t| - |tail|] == middle;
    forall i | 2 <= i < 2 + |middle|
      ensures t[i] == middle[i - 2]
    {
    }
  }

  /** One reload leaves the activity last published equal to the
      configuration in force after it. */
  lemma LastActivityAfterReload(prefix: seq<Effect>, c: Cfg, firstTime: int, r: Reload)
    requires LastActivity(prefix) == Some(c)
    ensures LastActivity(prefix + ReloadTrace(firstTime, r)) == Some(Reloaded(c, r))
  {
    match ReadConfig(r.src)
    case Err(_) =>
      assert prefix + ReloadTrace(firstTime, r) == prefix;
    case Ok(n) =>
      var t := prefix + ReloadTrace(firstTime, r);
      assert t[|t| - 1] == SetActivity(n, ReloadTimestamp(n, firstTime, SecondsOf(r.nowMs)));
  }

  /** After any sequence of reloads, the most recently published activity
      carries the configuration in force. */
  lemma {:induction false} LastActivityAfterReloads(prefix: seq<Effect>, c: Cfg, firstTime: int, reloads: seq<Reload>)
    requires LastActivity(prefix) == Some(c)
    ensures LastActivity(prefix + TraceAfter(firstTime, reloads)) == Some(ConfigAfter(c, reloads))
    decreases |reloads|
  {
    if reloads == [] {
      assert prefix + [] == prefix;
    } else {
      var next := prefix + ReloadTrace(firstTime, reloads[0]);
      LastActivityAfterReload(prefix, c, firstTime, reloads[0]);
      LastActivityAfterReloads(next, Reloaded(c, reloads[0]), firstTime, reloads[1..]);
      assert prefix + TraceAfter(firstTime, reloads) == next + TraceAfter(firstTime, reloads[1..]);
    }
  }

  /** While the script runs, the activity last published is the current
      `Config`. */
  lemma PublishedIsCurrent(start: Cfg, firstTime: int, reloads: seq<Reload>)
    ensures LastActivity(SessionTrace(start, firstTime, reloads, false)) == Some(ConfigAfter(start, reloads))
  {
    var s := StartupTrace(start, firstTime);
    assert s[|s| - 1] == SetActivity(start, StartupTimestamp(start, firstTime));
    LastActivityAfterReloads(s, start, firstTime, reloads);
    assert SessionTrace(start, firstTime, reloads, false) == s + TraceAfter(firstTime, reloads);
  }

  /** A call that, if it publishes, publishes a configuration normalised by
      `readConfig`, and one that falls back with exactly `firstTime`. */
  predicate PublishedWithAnchor(e: Effect, firstTime: int) {
    e.SetActivity? ==>
      Normalized(e.activity)
      && (FallsBackToFirstTime(e.activity) ==> e.startTimestamp == firstTime)
  }

  /** Every activity a reload publishes was normalised by `readConfig`, and
      one that falls back carries exactly `firstTime`: the anchor is the
      process-start second however many reloads came before. */
  lemma {:induction false} ReloadPublishes(firstTime: int, reloads: seq<Reload>)
    ensures forall e :: e in TraceAfter(firstTime, reloads) ==> PublishedWithAnchor(e, firstTime)
    decreases |reloads|
  {
    if reloads != [] {
      var rest := TraceAfter(firstTime, reloads[1..]);
      var t := TraceAfter(firstTime, reloads);
      ReloadPublishes(firstTime, reloads[1..]);
      match ReadConfig(reloads[0].src)
      case Err(_) =>
        assert t == rest;
      case Ok(c) =>
        var ts := ReloadTimestamp(c, firstTime, SecondsOf(reloads[0].nowMs));
        assert t == [ClearActivity, SetActivity(c, ts)] + rest;
        if FallsBackToFirstTime(c) {
          ReloadFallback(c, firstTime, SecondsOf(reloads[0].nowMs));
        }
        forall i | 0 <= i < |t|
          ensures PublishedWithAnchor(t[i], firstTime)
        {
          if i >= 2 {
            assert t[i] == rest[i - 2];
          }
        }
    }
  }

  /** Over the whole session, an activity without manual fields and with a
      falsy `refreshTime` is always published with the process-start second. */
  lemma AnchorNeverMoves(start: Cfg, firstTime: int, reloads: seq<Reload>, exited: bool)
    ensures var t := SessionTrace(start, firstTime, reloads, exited);
      forall i :: 0 <= i < |t| && t[i].SetActivity? && FallsBackToFirstTime(t[i].activity) ==>
        t[i].startTimestamp == firstTime
  {
    var middle := TraceAfter(firstTime, reloads);
    var tail: seq<Effect> := if exited then ExitTrace else [];
    var t := SessionTrace(start, firstTime, reloads, exited);
    ReloadPublishes(firstTime, reloads);
    if FallsBackToFirstTime(start) {
      StartupFallsBackToFirstTime(start, firstTime);
    }
    assert t == StartupTrace(start, firstTime) + middle + tail;
    forall i | 0 <= i < |t| && t[i].SetActivity? && FallsBackToFirstTime(t[i].activity)
      ensures t[i].startTimestamp == firstTime
    {
      if 2 <= i < 2 + |middle| {
        assert t[i] == middle[i - 2];
        assert PublishedWithAnchor(middle[i - 2], firstTime);
      }
    }
  }

  /** The running script: the module-level `Config`, the once-assigned
      `firstTime`, and the calls made so far. `startConfig` and `history`
      record the startup read and the reloads, to state the invariant. */
  class Presence {
    var config: Cfg
    const firstTime: int
    var trace: seq<Effect>
    var exited: bool
    ghost const startConfig: Cfg
    ghost var history: seq<Reload>

    ghost predicate Valid()
      reads this
    {
      && Normalized(startConfig)
      && config == ConfigAfter(startConfig, history)
      && trace == SessionTrace(startConfig, firstTime, history, exited)
    }

    /** Lines 14-31 once `readConfig` has resolved: log in with the
        configured application id, take `firstTime` from the clock (read
        after login), and publish once. */
    constructor (cfg: Cfg, nowMs: int)
      requires Normalized(cfg)
      ensures Valid() && !exited && history == [] && startConfig == cfg
      ensures config == cfg && firstTime == SecondsOf(nowMs)
      ensures trace == StartupTrace(cfg, firstTime)
    {
      var first := SecondsOf(nowMs);
      config := cfg;
      startConfig := cfg;
      trace := [Login(cfg.applicationId)];
      firstTime := first;
      trace := trace + [SetActivity(cfg, StartupTimestamp(cfg, first))];
      exited := false;
      history := [];
    }

    /** `refreshConfig` (lines 50-66). When `readConfig` rejects nothing
        changes; otherwise `Config` is replaced wholesale, the activity is
        cleared, and it is set again with the reload timestamp. */
    method RefreshConfig(src: Source, nowMs: int) returns (ok: bool)
      requires Valid() && !exited
      modifies this
      ensures Valid() && !exited
      ensures history == old(history) + [Reload(src, nowMs)]
      ensures ok <==> src.Document?
      ensures ok ==> config == Normalize(src.parsed)
      ensures ok ==> trace == old(trace) + [ClearActivity, SetActivity(config, ReloadTimestamp(config, firstTime, SecondsOf(nowMs)))]
      ensures !ok ==> config == old(config) && trace == old(trace)
    {
      TraceAfterSnoc(firstTime, history, Reload(src, nowMs));
      ConfigAfterSnoc(startConfig, history, Reload(src, nowMs));
      var read := ReadConfig(src);
      if read.Err? {
        ok := false;
      } else {
        ok := true;
        config := read.value;
        trace := trace + [ClearActivity];
        var ts := ReloadTimestamp(config, firstTime, SecondsOf(nowMs));
        trace := trace + [SetActivity(config, ts)];
      }
      history := history + [Reload(src, nowMs)];
    }

    /** `exit` (lines 44-48): destroy the client, then exit with status 0. */
    method Exit()
      requires Valid() && !exited
      modifies this
      ensures Valid() && exited
      ensures config == old(config) && history == old(history)
      ensures trace == old(trace) + ExitTrace
    {
      trace := trace + [Destroy];
      trace := trace + [ProcessExit(0)];
      exited := true;
    }
  }

  /** Startup from the read of line 14: when `readConfig` rejects, the
      top-level `await` throws before the client is built, so nothing is
      called and there is no running script. */
  method Start(src: Source, nowMs: int) returns (p: Presence?)
    ensures p == null <==> !src.Document?
    ensures p != null ==> fresh(p) && p.Valid() && !p.exited
    ensures p != null ==> p.history == [] && p.startConfig == p.config
    ensures p != null ==> p.config == Normalize(src.parsed) && p.firstTime == SecondsOf(nowMs)
    ensures p != null ==> p.trace == StartupTrace(p.config, p.firstTime)
  {
    var read := ReadConfig(src);
    if read.Err? {
      p := null;
    } else {
      p := new Presence(read.value, nowMs);
    }
  }
}
