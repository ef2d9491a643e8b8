/** The supervisor: a child process that is restarted when it exits, or when it has missed
    enough heartbeats after its time to start up. What the child, the clock and the
    operating system do is the input of a tick; times are in seconds. */
module Watchdog {
  import opened Text

  datatype Settings = Settings(threshold: nat, grace: real)

  /** As the constructor clamps them. */
  predicate Clamped(s: Settings)
  {
    s.threshold >= 1 && s.grace >= 3.0
  }

  /** One turn of the loop: whether the child had exited, whether a ping was answered, the
      time then, and - if the turn restarts the child - whether the old one dies of the
      kill, whether the new one could be started and the time after that. */
  datatype Tick = Tick(exited: bool, answered: bool, at: real, killed: bool, spawns: bool, back: real)

  datatype Reason = ChildExited | HeartbeatTimeout

  datatype Watch = Watch(running: bool, failures: nat, since: real, restarts: nat, started: nat)

  /** Just started at `now`; `since` is when the present child was started. */
  function Begin(now: real): Watch
  {
    Watch(true, 0, now, 0, 1)
  }

  predicate Late(s: Settings, w: Watch, t: Tick)
  {
    t.at >= w.since + s.grace
  }

  /** A missed heartbeat that counts. */
  predicate Missed(s: Settings, w: Watch, t: Tick)
  {
    !t.exited && !t.answered && Late(s, w, t)
  }

  /** Why the turn restarts the child, if it does. */
  function Restarts(s: Settings, w: Watch, t: Tick): Option<Reason>
  {
    if !w.running then None
    else if t.exited then Some(ChildExited)
    else if Missed(s, w, t) && w.failures + 1 >= s.threshold then Some(HeartbeatTimeout)
    else None
  }

  /** A child that cannot be started ends the supervisor. */
  function Next(s: Settings, w: Watch, t: Tick): Watch
  {
    if !w.running then w
    else if Restarts(s, w, t).Some? then
      if t.spawns then Watch(true, 0, t.back, w.restarts + 1, w.started + 1)
      else Watch(false, 0, w.since, w.restarts + 1, w.started)
    else if t.answered then w.(failures := 0)
    else if Late(s, w, t) then w.(failures := w.failures + 1)
    else w
  }

  function Run(s: Settings, start: real, ticks: seq<Tick>): Watch
  {
    if ticks == [] then Begin(start) else Next(s, Run(s, start, ticks[..|ticks| - 1]), ticks[|ticks| - 1])
  }

  /** The clock never goes back. */
  predicate Monotone(start: real, ticks: seq<Tick>)
  {
    && (forall i :: 0 <= i < |ticks| ==> start <= ticks[i].at <= ticks[i].back)
    && (forall i, j :: 0 <= i < j < |ticks| ==> ticks[i].back <= ticks[j].at)
  }

  lemma {:induction false} RunPrefix(s: Settings, start: real, ticks: seq<Tick>, n: nat)
    requires n < |ticks|
    ensures Run(s, start, ticks[..n + 1]) == Next(s, Run(s, start, ticks[..n]), ticks[n])
  {
    assert ticks[..n + 1][..n] == ticks[..n];
  }

  // ---------------------------------------------------------------- no restart without cause

  /** The `failures` newest turns of the first `n` all missed a heartbeat that counts, of the
      child that still runs. */
  ghost predicate StreakIs(s: Settings, start: real, ticks: seq<Tick>, n: nat)
    requires n <= |ticks|
  {
    var w := Run(s, start, ticks[..n]);
    && w.failures <= n && w.failures < s.threshold && (w.running || w.failures == 0)
    && forall i :: n - w.failures <= i < n ==>
         Missed(s, w, ticks[i]) && Restarts(s, Run(s, start, ticks[..i]), ticks[i]).None?
  }

  /** Once a heartbeat can count for the present child, it still can later. */
  lemma {:induction false} SinceIsPast(s: Settings, start: real, ticks: seq<Tick>, n: nat)
    requires Monotone(start, ticks) && n <= |ticks|
    ensures start <= Run(s, start, ticks[..n]).since
    ensures n > 0 ==> Run(s, start, ticks[..n]).since <= ticks[n - 1].back
    decreases n
  {
    if n > 0 {
      SinceIsPast(s, start, ticks, n - 1);
      RunPrefix(s, start, ticks, n - 1);
    }
  }

  lemma {:induction false} Streak(s: Settings, start: real, ticks: seq<Tick>, n: nat)
    requires Clamped(s) && Monotone(start, ticks) && n <= |ticks|
    ensures StreakIs(s, start, ticks, n)
    decreases n
  {
    if n > 0 {
      Streak(s, start, ticks, n - 1);
      RunPrefix(s, start, ticks, n - 1);
      var before, after := Run(s, start, ticks[..n - 1]), Run(s, start, ticks[..n]);
      hide Run, Monotone;
      if after.failures > 0 {
        StillLate(s, start, ticks, n);
        assert after == before.(failures := before.failures + 1);
        forall i | n - after.failures <= i < n
          ensures Missed(s, after, ticks[i]) && Restarts(s, Run(s, start, ticks[..i]), ticks[i]).None?
        {
          if i < n - 1 { assert Missed(s, before, ticks[i]); }
        }
      }
    }
  }

  /** A turn that leaves failures behind missed a heartbeat itself. */
  lemma StillLate(s: Settings, start: real, ticks: seq<Tick>, n: nat)
    requires Clamped(s) && Monotone(start, ticks) && 0 < n <= |ticks|
    requires StreakIs(s, start, ticks, n - 1)
    requires Run(s, start, ticks[..n]).failures > 0
    ensures Missed(s, Run(s, start, ticks[..n - 1]), ticks[n - 1])
    ensures Restarts(s, Run(s, start, ticks[..n - 1]), ticks[n - 1]).None?
  {
    RunPrefix(s, start, ticks, n - 1);
    var before := Run(s, start, ticks[..n - 1]);
    if before.failures > 0 {
      assert Missed(s, before, ticks[n - 2]);
      assert ticks[n - 2].at <= ticks[n - 2].back <= ticks[n - 1].at;
    }
  }

  /** Main result: a heartbeat restart in turn `n` comes only after exactly `threshold`
      turns in a row whose ping failed, all of them at least the grace time after the
      child was last started, with no answer, exit or restart among them. */
  lemma RestartHasCause(s: Settings, start: real, ticks: seq<Tick>, n: nat)
    requires Clamped(s) && Monotone(start, ticks) && n < |ticks|
    requires Restarts(s, Run(s, start, ticks[..n]), ticks[n]) == Some(HeartbeatTimeout)
    ensures var w := Run(s, start, ticks[..n]);
            && w.failures == s.threshold - 1 && s.threshold <= n + 1
            && forall i :: n - s.threshold < i <= n ==>
                 && !ticks[i].answered && !ticks[i].exited && ticks[i].at >= w.since + s.grace
                 && (i < n ==> Restarts(s, Run(s, start, ticks[..i]), ticks[i]).None?)
  {
    Streak(s, start, ticks, n);
  }

  /** A turn fails, put down apart from the step: no exit, no answer, and the grace time of the
      child started at `since` is over. */
  predicate Fails(s: Settings, since: real, t: Tick)
  {
    !(t.exited || t.answered || t.at < since + s.grace)
  }

  /** The `k` turns in front of turn `n` all failed for the child that runs then, and none of
      them restarted it. */
  ghost predicate FailsInARow(s: Settings, start: real, ticks: seq<Tick>, n: nat, k: nat)
    requires n <= |ticks|
  {
    && k <= n
    && forall i :: n - k <= i < n ==>
         && Fails(s, Run(s, start, ticks[..n]).since, ticks[i])
         && Run(s, start, ticks[..i + 1]).restarts == Run(s, start, ticks[..i]).restarts
  }

  lemma RestartCounts(s: Settings, start: real, ticks: seq<Tick>, n: nat)
    requires n < |ticks|
    ensures var w, after := Run(s, start, ticks[..n]), Run(s, start, ticks[..n + 1]);
            && (Restarts(s, w, ticks[n]).Some? <==> after.restarts == w.restarts + 1)
            && (Restarts(s, w, ticks[n]).None? <==> after.restarts == w.restarts)
            && (Restarts(s, w, ticks[n]).None? ==> after.since == w.since && after.running == w.running)
  {
    RunPrefix(s, start, ticks, n);
    hide Run;
  }

  lemma {:induction false} FailuresCount(s: Settings, start: real, ticks: seq<Tick>, n: nat, k: nat)
    requires n <= |ticks| && Run(s, start, ticks[..n]).running && FailsInARow(s, start, ticks, n, k)
    ensures Run(s, start, ticks[..n]).failures >= k
    decreases k
  {
    if k > 0 {
      var before := Run(s, start, ticks[..n - 1]);
      RunPrefix(s, start, ticks, n - 1);
      RestartCounts(s, start, ticks, n - 1);
      hide Run;
      forall i | n - k <= i < n - 1
        ensures Fails(s, before.since, ticks[i])
        ensures Run(s, start, ticks[..i + 1]).restarts == Run(s, start, ticks[..i]).restarts
      {
        assert Fails(s, Run(s, start, ticks[..n]).since, ticks[i]);
      }
      assert Fails(s, Run(s, start, ticks[..n]).since, ticks[n - 1]);
      FailuresCount(s, start, ticks, n - 1, k - 1);
    }
  }

  /** Main result, both ways: a turn restarts the child for its exit exactly if it has exited,
      and for its silence exactly if this turn and the `threshold - 1` before it failed for
      it. A restart begins anew, from after it, unless no child could be started. */
  lemma RestartsExactly(s: Settings, start: real, ticks: seq<Tick>, n: nat)
    requires Clamped(s) && Monotone(start, ticks) && n < |ticks|
    ensures var w, t := Run(s, start, ticks[..n]), ticks[n];
            var after, why := Run(s, start, ticks[..n + 1]), Restarts(s, w, t);
            && (why == Some(ChildExited) <==> w.running && t.exited)
            && (why == Some(HeartbeatTimeout) <==>
                  w.running && Fails(s, w.since, t) && FailsInARow(s, start, ticks, n, s.threshold - 1))
            && (why.Some? ==> after == Watch(t.spawns, 0, if t.spawns then t.back else w.since, w.restarts + 1,
                                             w.started + (if t.spawns then 1 else 0)))
            && (why.None? ==>
                  after.running == w.running && after.since == w.since && after.restarts == w.restarts
                  && after.started == w.started)
  {
    RunPrefix(s, start, ticks, n);
    Streak(s, start, ticks, n);
    var w := Run(s, start, ticks[..n]);
    if w.running && Fails(s, w.since, ticks[n]) && FailsInARow(s, start, ticks, n, s.threshold - 1) {
      FailuresCount(s, start, ticks, n, s.threshold - 1);
    }
    hide Run;
    if Restarts(s, w, ticks[n]) == Some(HeartbeatTimeout) {
      forall i | n - (s.threshold - 1) <= i < n
        ensures Fails(s, w.since, ticks[i])
        ensures Run(s, start, ticks[..i + 1]).restarts == Run(s, start, ticks[..i]).restarts
      {
        assert Missed(s, w, ticks[i]);
        RestartCounts(s, start, ticks, i);
      }
    }
  }

  // ---------------------------------------------------------------- restart with cause

  /** Main result: a child that answers no ping in `threshold` turns past its grace time is
      restarted in one of them; so it is, if it exits in one. */
  lemma {:induction false} DeadChildIsRestarted(s: Settings, w: Watch, ticks: seq<Tick>)
    requires Clamped(s) && w.running && |ticks| >= s.threshold - w.failures
    requires w.failures < s.threshold
    requires forall i :: 0 <= i < |ticks| ==> ticks[i].exited || Fails(s, w.since, ticks[i])
    ensures exists i :: 0 <= i < s.threshold - w.failures && i < |ticks|
                     && Restarts(s, After(s, w, ticks[..i]), ticks[i]).Some?
    decreases |ticks|
  {
    var t := ticks[0];
    if Restarts(s, w, t).Some? {
      assert After(s, w, ticks[..0]) == w;
    } else {
      var next, rest := Next(s, w, t), ticks[1..];
      assert next == w.(failures := w.failures + 1);
      forall i | 0 <= i < |rest|
        ensures rest[i].exited || Fails(s, next.since, rest[i])
      {
        assert rest[i] == ticks[i + 1];
      }
      DeadChildIsRestarted(s, next, rest);
      var i :| 0 <= i < s.threshold - next.failures && i < |rest|
            && Restarts(s, After(s, next, rest[..i]), rest[i]).Some?;
      assert ticks[..i + 1][1..] == rest[..i];
      assert After(s, w, ticks[..i + 1]) == After(s, next, rest[..i]);
      assert rest[i] == ticks[i + 1];
    }
  }

  function After(s: Settings, w: Watch, ticks: seq<Tick>): Watch
    decreases |ticks|
  {
    if ticks == [] then w else After(s, Next(s, w, ticks[0]), ticks[1..])
  }

  // ---------------------------------------------------------------- counting children

  /** Children started are one more than restarts, or as many if the last could not be
      started - and then the supervisor has ended. */
  lemma {:induction false} ChildrenAreCounted(s: Settings, start: real, ticks: seq<Tick>)
    ensures var w := Run(s, start, ticks); w.started == w.restarts + (if w.running then 1 else 0)
    decreases |ticks|
  {
    if ticks != [] { ChildrenAreCounted(s, start, ticks[..|ticks| - 1]); }
  }

  /** Two restarts by heartbeat are at least the grace time apart. */
  lemma RestartsAreSpaced(s: Settings, start: real, ticks: seq<Tick>, m: nat, n: nat)
    requires Clamped(s) && Monotone(start, ticks) && m < n < |ticks|
    requires Restarts(s, Run(s, start, ticks[..m]), ticks[m]).Some? && ticks[m].spawns
    requires Restarts(s, Run(s, start, ticks[..n]), ticks[n]) == Some(HeartbeatTimeout)
    ensures ticks[n].at >= ticks[m].back + s.grace
  {
    RunPrefix(s, start, ticks, m);
    SinceGrows(s, start, ticks, m + 1, n);
  }

  lemma {:induction false} SinceGrows(s: Settings, start: real, ticks: seq<Tick>, m: nat, n: nat)
    requires Monotone(start, ticks) && m <= n <= |ticks|
    ensures Run(s, start, ticks[..m]).since <= Run(s, start, ticks[..n]).since
    decreases n
  {
    if m < n {
      SinceGrows(s, start, ticks, m, n - 1);
      SinceIsPast(s, start, ticks, n - 1);
      RunPrefix(s, start, ticks, n - 1);
      if n >= 2 { assert ticks[n - 2].back <= ticks[n - 1].at; }
    }
  }

  // ---------------------------------------------------------------- what becomes of the children

  /** The child the supervisor knows, and those it has forgotten alive: a kill that fails is
      logged and the child is forgotten all the same. */
  datatype Fate = Fate(tracked: Option<nat>, survivors: set<nat>)

  /** Forgets the tracked child, which is dead by now or not. */
  function Forget(f: Fate, dead: bool): Fate
  {
    Fate(None, if f.tracked.Some? && !dead then f.survivors + {f.tracked.value} else f.survivors)
  }

  /** `pids[n]` names the child that turn `n` starts, counting from 1; the first is `pids[0]`. */
  function Children(s: Settings, start: real, ticks: seq<Tick>, pids: seq<nat>): Fate
    requires |pids| > |ticks|
  {
    if ticks == [] then Fate(Some(pids[0]), {})
    else
      var n := |ticks| - 1;
      var t, before := ticks[n], Children(s, start, ticks[..n], pids);
      if Restarts(s, Run(s, start, ticks[..n]), t).None? then before
      else Forget(before, t.exited || t.killed).(tracked := if t.spawns then Some(pids[n + 1]) else None)
  }

  /** Turn `i` restarts a silent child without killing it. */
  ghost predicate Spares(s: Settings, start: real, ticks: seq<Tick>, i: nat)
    requires i < |ticks|
  {
    Restarts(s, Run(s, start, ticks[..i]), ticks[i]) == Some(HeartbeatTimeout) && !ticks[i].killed
  }

  /** It is the child named `pid`. */
  ghost predicate KillFails(s: Settings, start: real, ticks: seq<Tick>, pids: seq<nat>, i: nat, pid: nat)
    requires i < |ticks| < |pids|
  {
    Spares(s, start, ticks, i) && Children(s, start, ticks[..i], pids).tracked == Some(pid)
  }

  predicate Distinct(pids: seq<nat>)
  {
    forall i, j :: 0 <= i < j < |pids| ==> pids[i] != pids[j]
  }

  lemma ChildrenPrefix(s: Settings, start: real, ticks: seq<Tick>, pids: seq<nat>, n: nat)
    requires n < |ticks| < |pids|
    ensures var before, t := Children(s, start, ticks[..n], pids), ticks[n];
            Children(s, start, ticks[..n + 1], pids) ==
            if Restarts(s, Run(s, start, ticks[..n]), t).None? then before
            else Forget(before, t.exited || t.killed).(tracked := if t.spawns then Some(pids[n + 1]) else None)
  {
    assert ticks[..n + 1][..n] == ticks[..n];
  }

  /** A child is tracked exactly while the supervisor runs, and children are named by the
      ids handed out so far. */
  lemma {:induction false} ChildrenAreKnown(s: Settings, start: real, ticks: seq<Tick>, pids: seq<nat>, n: nat)
    requires n <= |ticks| < |pids| && Distinct(pids)
    ensures var f := Children(s, start, ticks[..n], pids);
            && f.tracked.Some? == Run(s, start, ticks[..n]).running
            && (f.tracked.Some? ==> f.tracked.value in pids[..n + 1] && f.tracked.value !in f.survivors)
            && (forall pid :: pid in f.survivors ==> pid in pids[..n + 1])
    decreases n
  {
    if n > 0 {
      ChildrenAreKnown(s, start, ticks, pids, n - 1);
      ChildrenPrefix(s, start, ticks, pids, n - 1);
      RunPrefix(s, start, ticks, n - 1);
      assert pids[..n + 1] == pids[..n] + [pids[n]];
      assert pids[n] !in pids[..n];
    }
  }

  lemma SurvivorsStep(s: Settings, start: real, ticks: seq<Tick>, pids: seq<nat>, n: nat)
    requires n < |ticks| < |pids| && Distinct(pids)
    ensures var before, after := Children(s, start, ticks[..n], pids), Children(s, start, ticks[..n + 1], pids);
            && (Spares(s, start, ticks, n) ==>
                  before.tracked.Some? && after.survivors == before.survivors + {before.tracked.value})
            && (!Spares(s, start, ticks, n) ==> after.survivors == before.survivors)
  {
    ChildrenPrefix(s, start, ticks, pids, n);
    ChildrenAreKnown(s, start, ticks, pids, n);
    hide Children, Run;
  }

  /** Main result: the forgotten children that live are exactly those whose kill failed. */
  lemma {:induction false} SurvivorsAreFailedKills(s: Settings, start: real, ticks: seq<Tick>, pids: seq<nat>,
                                                   n: nat, pid: nat)
    requires n <= |ticks| < |pids| && Distinct(pids)
    ensures pid in Children(s, start, ticks[..n], pids).survivors <==>
              exists i :: 0 <= i < n && KillFails(s, start, ticks, pids, i, pid)
    decreases n
  {
    hide Children, Spares, Distinct;
    if n == 0 {
      RunsFirst(s, start, ticks, pids);
    } else {
      SurvivorsAreFailedKills(s, start, ticks, pids, n - 1, pid);
      SurvivorsStep(s, start, ticks, pids, n - 1);
      var before, after := Children(s, start, ticks[..n - 1], pids), Children(s, start, ticks[..n], pids);
      assert pid in after.survivors <==> pid in before.survivors || KillFails(s, start, ticks, pids, n - 1, pid);
    }
  }

  /** So none survives exactly when every heartbeat restart kills its child. */
  lemma {:induction false} NoneSurvives(s: Settings, start: real, ticks: seq<Tick>, pids: seq<nat>, n: nat)
    requires n <= |ticks| < |pids| && Distinct(pids)
    ensures Children(s, start, ticks[..n], pids).survivors == {} <==>
              forall i :: 0 <= i < n ==> !Spares(s, start, ticks, i)
    decreases n
  {
    if n > 0 {
      NoneSurvives(s, start, ticks, pids, n - 1);
      SurvivorsStep(s, start, ticks, pids, n - 1);
      hide Children, Spares;
    }
  }

  // ---------------------------------------------------------------- the supervisor object

  class Supervisor {
    const settings: Settings
    var proc: Option<nat>
    var restarts: nat
    ghost var survivors: set<nat>
    ghost var started: nat

    constructor (failThreshold: int, startupGrace: real)
      ensures Clamped(settings) && View() == Fate(None, {}) && restarts == started == 0
      ensures settings == Settings(Max(1, failThreshold), if startupGrace < 3.0 then 3.0 else startupGrace)
    {
      var grace := if startupGrace < 3.0 then 3.0 else startupGrace;
      settings := Settings(if failThreshold < 1 then 1 else failThreshold, grace);
      proc, restarts, survivors, started := None, 0, {}, 0;
    }

    /** The tracked child, and those forgotten alive. */
    ghost function View(): Fate
      reads this
    {
      Fate(proc, survivors)
    }

    method StartChild(pid: nat, spawns: bool)
      requires proc.None?
      modifies this
      ensures restarts == old(restarts)
      ensures View() == old(View()).(tracked := if spawns then Some(pid) else None)
      ensures started == old(started) + (if spawns then 1 else 0)
    {
      if spawns {
        proc := Some(pid);
        started := started + 1;
      }
    }

    /** `dead` is whether the child's process has ended by the end of this. The program does
        not look: it forgets the child in any case. */
    method KillChildTree(dead: bool)
      modifies this
      ensures View() == Forget(old(View()), dead)
      ensures restarts == old(restarts) && started == old(started)
    {
      if proc.Some? {
        if !dead { survivors := survivors + {proc.value}; }
        proc := None;
      }
    }

    method Restart(pid: nat, dead: bool, spawns: bool)
      modifies this
      ensures View() == Forget(old(View()), dead).(tracked := if spawns then Some(pid) else None)
      ensures restarts == old(restarts) + 1
      ensures started == old(started) + (if spawns then 1 else 0)
    {
      KillChildTree(dead);
      restarts := restarts + 1;
      StartChild(pid, spawns);
    }

    /** The loop until it is stopped behind the last tick; `pids` name the processes that are
        started, `dead` is whether the last child ends. However the loop ends no child is
        tracked, and alive are exactly the children whose kill failed, the last included. */
    method RunLoop(start: real, ticks: seq<Tick>, pids: seq<nat>, dead: bool)
      requires Clamped(settings) && View() == Fate(None, {}) && restarts == started == 0
      requires |pids| > |ticks| && Distinct(pids)
      modifies this
      ensures View() == Forget(Children(settings, start, ticks, pids), dead)
      ensures var w := Run(settings, start, ticks); restarts == w.restarts && started == w.started
    {
      hide Run, Children;
      RunsFirst(settings, start, ticks, pids);
      StartChild(pids[0], true);
      var deadlineReady, failures := start + settings.grace, 0;
      var i := 0;
      while i < |ticks| && proc.Some?
        invariant 0 <= i <= |ticks|
        invariant View() == Children(settings, start, ticks[..i], pids)
        invariant Run(settings, start, ticks[..i])
               == Watch(proc.Some?, failures, deadlineReady - settings.grace, restarts, started)
      {
        var t := ticks[i];
        RunPrefix(settings, start, ticks, i);
        ChildrenPrefix(settings, start, ticks, pids, i);
        i := i + 1;
        if t.exited {
          Restart(pids[i], true, t.spawns);
          if t.spawns { deadlineReady := t.back + settings.grace; }
          failures := 0;
          continue;
        }
        if t.answered {
          failures := 0;
          continue;
        }
        if t.at < deadlineReady { continue; }
        failures := failures + 1;
        if failures >= settings.threshold {
          Restart(pids[i], t.killed, t.spawns);
          if t.spawns { deadlineReady := t.back + settings.grace; }
          failures := 0;
        }
      }
      EndedStays(settings, start, ticks, i);
      ChildrenStay(settings, start, ticks, pids, i);
      KillChildTree(dead);
    }
  }

  lemma {:induction false} EndedStays(s: Settings, start: real, ticks: seq<Tick>, n: nat)
    requires n <= |ticks| && (n == |ticks| || !Run(s, start, ticks[..n]).running)
    ensures Run(s, start, ticks) == Run(s, start, ticks[..n])
    decreases |ticks| - n
  {
    if n < |ticks| {
      RunPrefix(s, start, ticks, n);
      EndedStays(s, start, ticks, n + 1);
    } else {
      assert ticks[..n] == ticks;
    }
  }

  lemma RunsFirst(s: Settings, start: real, ticks: seq<Tick>, pids: seq<nat>)
    requires |pids| > |ticks|
    ensures Run(s, start, ticks[..0]) == Begin(start) && Children(s, start, ticks[..0], pids) == Fate(Some(pids[0]), {})
  {
  }

  lemma {:induction false} ChildrenStay(s: Settings, start: real, ticks: seq<Tick>, pids: seq<nat>, n: nat)
    requires n <= |ticks| < |pids| && (n == |ticks| || !Run(s, start, ticks[..n]).running)
    ensures Children(s, start, ticks, pids) == Children(s, start, ticks[..n], pids)
    decreases |ticks| - n
  {
    if n < |ticks| {
      RunPrefix(s, start, ticks, n);
      ChildrenPrefix(s, start, ticks, pids, n);
      ChildrenStay(s, start, ticks, pids, n + 1);
    } else {
      assert ticks[..n] == ticks;
    }
  }
}
