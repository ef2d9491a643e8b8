/** The lease that lets one session at a time mutate a repository. Each operation runs under
    a file lock and is one step; processes live, die, and have their ids used again. */
module RepositoryLease {
  import opened Text

  /** Session, task and connection of a client. */
  datatype Owner = Owner(session: string, task: string, connection: string)

  /** `marker` tells when the owning process was created, if that could be found out. */
  datatype Lease = Lease(id: nat, owner: Owner, pid: nat, marker: Option<nat>, heartbeatAt: real, expiresAt: real)

  /** `births` gives the creation marker of every process alive; no marker is used twice.
      `grants` remembers, for each lease id ever handed out, the process and the client it
      was made for, and `released` those given back. */
  datatype World = World(
    file: Option<Lease>,
    births: map<nat, nat>,
    clock: nat,
    grants: map<nat, Grant>,
    released: set<nat>)

  datatype Grant = Grant(pid: nat, birth: nat, owner: Owner)

  /** What asking the operating system about a process gives: a process that is alive is
      never reported dead, but a dead one may be reported alive, and its marker or that of
      a process with the same id may stay unknown. */
  datatype Sight = Sight(alive: bool, marker: Option<nat>)

  predicate Honest(w: World, pid: nat, s: Sight)
  {
    && (pid in w.births ==> s.alive)
    && (s.marker.Some? ==> pid in w.births && s.marker.value == w.births[pid])
  }

  predicate SameProcess(l: Lease, s: Sight)
  {
    s.alive && (l.marker.None? || s.marker.None? || s.marker == l.marker)
  }

  datatype Result =
    | Refreshed(lease: Lease)
    | Acquired(lease: Lease, recoveredStale: bool)
    | Conflict(holder: Owner)
    | Ok
    | OwnershipLost
    | OwnerDead
    | BadTtl

  predicate TtlOk(ttl: real)
  {
    10.0 <= ttl <= 3600.0
  }

  datatype Step =
    | Spawn(pid: nat)
    | Die(pid: nat)
    // `own` is whether the caller could read its own marker, `newId` the random id it draws
    | Acquire(pid: nat, owner: Owner, newId: nat, own: bool, seen: Sight, now: real, ttl: real)
    | Heartbeat(id: nat, now: real, ttl: real)
    | Release(id: nat)
    | Validate(id: nat, seen: Sight)

  predicate Enabled(w: World, step: Step)
  {
    match step
    case Spawn(pid) => pid !in w.births
    case Die(pid) => pid in w.births
    case Acquire(pid, _, newId, _, seen, _, _) =>
      pid in w.births && newId !in w.grants
      && (w.file.Some? ==> Honest(w, w.file.value.pid, seen))
    case Heartbeat(_, _, _) => true
    case Release(_) => true
    case Validate(_, seen) => w.file.Some? ==> Honest(w, w.file.value.pid, seen)
  }

  function Renewed(l: Lease, now: real, ttl: real): Lease
  {
    l.(heartbeatAt := now, expiresAt := now + ttl)
  }

  function Next(w: World, step: Step): (World, Result)
    requires Enabled(w, step)
  {
    match step
    case Spawn(pid) => (w.(births := w.births[pid := w.clock], clock := w.clock + 1), Ok)
    case Die(pid) => (w.(births := w.births - {pid}), Ok)
    case Acquire(pid, owner, newId, own, seen, now, ttl) =>
      if !TtlOk(ttl) then (w, BadTtl)
      else if w.file.Some? && SameProcess(w.file.value, seen) then
        if w.file.value.owner == owner then
          var l := Renewed(w.file.value, now, ttl);
          (w.(file := Some(l)), Refreshed(l))
        else (w, Conflict(w.file.value.owner))
      else
        var l := Lease(newId, owner, pid, if own then Some(w.births[pid]) else None, now, now + ttl);
        (w.(file := Some(l), grants := w.grants[newId := Grant(pid, w.births[pid], owner)]),
         Acquired(l, w.file.Some?))
    case Heartbeat(id, now, ttl) =>
      if w.file.Some? && w.file.value.id == id then (w.(file := Some(Renewed(w.file.value, now, ttl))), Ok)
      else (w, OwnershipLost)
    case Release(id) =>
      if w.file.None? then (w, Ok)
      else if w.file.value.id == id then (w.(file := None, released := w.released + {id}), Ok)
      else (w, OwnershipLost)
    case Validate(id, seen) =>
      if w.file.None? || w.file.value.id != id then (w, OwnershipLost)
      else if !SameProcess(w.file.value, seen) then (w, OwnerDead)
      else (w, Ok)
  }

  const START := World(None, map[], 0, map[], {})

  ghost predicate IsRun(worlds: seq<World>, steps: seq<Step>)
  {
    && |worlds| == |steps| + 1 && worlds[0] == START
    && forall i :: 0 <= i < |steps| ==> Enabled(worlds[i], steps[i]) && worlds[i + 1] == Next(worlds[i], steps[i]).0
  }

  // ---------------------------------------------------------------- exclusion

  /** The process a lease was granted to is still that process. */
  predicate OwnerLives(w: World, g: Grant)
  {
    g.pid in w.births && w.births[g.pid] == g.birth
  }

  /** A lease that was granted, not given back, and whose owner is alive. */
  predicate Outstanding(w: World, id: nat)
  {
    id in w.grants && id !in w.released && OwnerLives(w, w.grants[id])
  }

  ghost predicate Sound(w: World)
  {
    && (forall p :: p in w.births ==> w.births[p] < w.clock)
    && (forall id :: id in w.grants ==> w.grants[id].birth < w.clock)
    && w.released <= w.grants.Keys
    && (w.file.Some? ==>
          var l := w.file.value;
          && l.id in w.grants && l.id !in w.released
          && w.grants[l.id].pid == l.pid && w.grants[l.id].owner == l.owner
          && (l.marker.Some? ==> l.marker.value == w.grants[l.id].birth))
    && (forall id :: Outstanding(w, id) ==> w.file.Some? && w.file.value.id == id)
  }

  /** A process that does not look like the owner is not the owner. */
  lemma NotSameMeansDead(w: World, seen: Sight)
    requires Sound(w) && w.file.Some? && Honest(w, w.file.value.pid, seen) && !SameProcess(w.file.value, seen)
    ensures !OwnerLives(w, w.grants[w.file.value.id])
  {
  }

  lemma NextIsSound(w: World, step: Step)
    requires Sound(w) && Enabled(w, step)
    ensures Sound(Next(w, step).0)
  {
    var after := Next(w, step).0;
    match step
    case Spawn(pid) =>
      assert forall id :: Outstanding(after, id) ==> Outstanding(w, id);
    case Die(pid) =>
      assert forall id :: Outstanding(after, id) ==> Outstanding(w, id);
    case Acquire(pid, owner, newId, own, seen, now, ttl) =>
      if w.file.Some? && !SameProcess(w.file.value, seen) { NotSameMeansDead(w, seen); }
      assert forall id :: Outstanding(after, id) && id != newId ==> Outstanding(w, id);
    case Heartbeat(_, _, _) =>
      assert forall id :: Outstanding(after, id) ==> Outstanding(w, id);
    case Release(_) =>
      assert forall id :: Outstanding(after, id) ==> Outstanding(w, id);
    case Validate(_, _) =>
  }

  lemma {:induction false} RunIsSound(worlds: seq<World>, steps: seq<Step>, i: nat)
    requires IsRun(worlds, steps) && i <= |steps|
    ensures Sound(worlds[i])
    decreases i
  {
    if i > 0 {
      RunIsSound(worlds, steps, i - 1);
      NextIsSound(worlds[i - 1], steps[i - 1]);
    }
  }

  /** Main result: in every run there is at most one outstanding lease, and it is the one on
      file; reused process ids, unreadable markers and elapsed times do not matter. */
  lemma AtMostOneLease(worlds: seq<World>, steps: seq<Step>, i: nat, a: nat, b: nat)
    requires IsRun(worlds, steps) && i <= |steps|
    requires Outstanding(worlds[i], a) && Outstanding(worlds[i], b)
    ensures a == b && worlds[i].file.Some? && worlds[i].file.value.id == a
  {
    RunIsSound(worlds, steps, i);
  }

  /** While a lease is outstanding nobody but its own client gets past `acquire`. */
  lemma OthersAreTurnedAway(worlds: seq<World>, steps: seq<Step>, i: nat, id: nat)
    requires IsRun(worlds, steps) && i < |steps| && Outstanding(worlds[i], id) && steps[i].Acquire?
    ensures var r := Next(worlds[i], steps[i]).1;
            if !TtlOk(steps[i].ttl) then r.BadTtl?
            else if steps[i].owner == worlds[i].grants[id].owner then r.Refreshed? && r.lease.id == id
            else r == Conflict(worlds[i].grants[id].owner)
  {
    RunIsSound(worlds, steps, i);
    if !SameProcess(worlds[i].file.value, steps[i].seen) { NotSameMeansDead(worlds[i], steps[i].seen); }
  }

  /** An expired lease is as good as any other: time decides nothing. */
  lemma TimeDecidesNothing(w: World, step: Step, heartbeatAt: real, expiresAt: real)
    requires w.file.Some? && Enabled(w, step) && step.Acquire?
    ensures var aged := w.(file := Some(w.file.value.(heartbeatAt := heartbeatAt, expiresAt := expiresAt)));
            && Enabled(aged, step) && Next(aged, step).1 == Next(w, step).1
            && (Next(w, step).1.Refreshed? || Next(w, step).1.Acquired? ==> Next(aged, step).0 == Next(w, step).0)
  {
  }

  /** A dead owner does not block: whoever sees it dead, or its id reused by a process with
      another marker, gets the lease. */
  lemma DeadOwnerIsReplaced(w: World, step: Step)
    requires Sound(w) && w.file.Some? && Enabled(w, step) && step.Acquire? && TtlOk(step.ttl)
    requires !OwnerLives(w, w.grants[w.file.value.id])
    requires !step.seen.alive || (step.seen.marker.Some? && w.file.value.marker.Some?)
    ensures Next(w, step).1.Acquired? && Next(w, step).1.recoveredStale
    ensures Outstanding(Next(w, step).0, step.newId)
  {
    assert step.newId !in w.released;
  }

  // ---------------------------------------------------------------- fencing

  /** A lease that was handed out and is no longer on file. */
  predicate Fenced(w: World, id: nat)
  {
    id in w.grants && (w.file.Some? ==> w.file.value.id != id)
  }

  /** A fenced lease neither validates nor renews, and releasing it changes nothing. */
  lemma FencedIsPowerless(w: World, id: nat, seen: Sight, now: real, ttl: real)
    requires Fenced(w, id) && Enabled(w, Validate(id, seen))
    ensures Next(w, Validate(id, seen)) == (w, OwnershipLost)
    ensures Next(w, Heartbeat(id, now, ttl)) == (w, OwnershipLost)
    ensures Next(w, Release(id)).0 == w
  {
  }

  /** Main result: a lease that has left the file once - released or recovered - stays
      fenced, whatever happens later. */
  lemma {:induction false} FencedForever(worlds: seq<World>, steps: seq<Step>, i: nat, j: nat, id: nat)
    requires IsRun(worlds, steps) && i <= j <= |steps| && Fenced(worlds[i], id)
    ensures Fenced(worlds[j], id)
    decreases j
  {
    if i < j { FencedForever(worlds, steps, i, j - 1, id); }
  }

  /** A validation that succeeds names the one lease on file. */
  lemma ValidMeansHolder(w: World, id: nat, seen: Sight)
    requires Sound(w) && Enabled(w, Validate(id, seen)) && Next(w, Validate(id, seen)).1 == Ok
    ensures w.file.Some? && w.file.value.id == id && forall other :: Outstanding(w, other) ==> other == id
  {
  }

  // ---------------------------------------------------------------- what the steps answer

  /** Main result for the holder: as long as its process lives and it has not given the lease
      back, it validates, whatever asking about the process shows; a heartbeat moves just
      the two times; and giving it back empties the file for good. */
  lemma HolderIsServed(worlds: seq<World>, steps: seq<Step>, i: nat, id: nat, seen: Sight, now: real, ttl: real)
    requires IsRun(worlds, steps) && i <= |steps| && Outstanding(worlds[i], id)
    requires Enabled(worlds[i], Validate(id, seen))
    ensures var w := worlds[i];
            && w.file.Some? && w.file.value.id == id
            && Next(w, Validate(id, seen)) == (w, Ok)
            && (var l := w.file.value;
                var renewed := Lease(id, l.owner, l.pid, l.marker, now, now + ttl);
                Next(w, Heartbeat(id, now, ttl)) ==
                  (World(Some(renewed), w.births, w.clock, w.grants, w.released), Ok))
            && Next(w, Release(id)) == (World(None, w.births, w.clock, w.grants, w.released + {id}), Ok)
            && forall other :: !Outstanding(Next(w, Release(id)).0, other)
  {
    RunIsSound(worlds, steps, i);
    var w := worlds[i];
    if !SameProcess(w.file.value, seen) { NotSameMeansDead(w, seen); }
    var after := Next(w, Release(id)).0;
    assert forall other :: Outstanding(after, other) ==> Outstanding(w, other);
  }

  /** With a process its leases end, and no others; a new process, the same id notwithstanding,
      brings none back. */
  lemma ProcessesMatter(w: World, pid: nat, id: nat)
    requires Sound(w)
    ensures pid in w.births ==>
              var after := Next(w, Die(pid)).0;
              && (Outstanding(after, id) <==> Outstanding(w, id) && w.grants[id].pid != pid)
              && pid !in after.births && after.file == w.file
    ensures pid !in w.births ==>
              var after := Next(w, Spawn(pid)).0;
              && (Outstanding(after, id) <==> Outstanding(w, id))
              && pid in after.births && after.file == w.file
  {
  }

  /** A validation succeeds exactly if the lease is on file and its process, as far as it can
      be told, is still there; which of the two fails decides the answer. */
  lemma ValidateMeaning(w: World, id: nat, seen: Sight)
    requires Enabled(w, Validate(id, seen))
    ensures var (after, result) := Next(w, Validate(id, seen));
            var held := w.file.Some? && w.file.value.id == id;
            && after == w
            && (result == OwnershipLost <==> !held)
            && (held ==>
                  var known := w.file.value.marker.Some? && seen.marker.Some?;
                  && (result == Ok <==> seen.alive && (known ==> seen.marker == w.file.value.marker))
                  && (result == OwnerDead <==> !seen.alive || (known && seen.marker != w.file.value.marker)))
  {
  }

  /** All answers of `acquire`, the leases spelled out. `busy` is a process that may be the
      owner of the lease on file. */
  lemma AcquireMeaning(w: World, pid: nat, owner: Owner, newId: nat, own: bool, seen: Sight, now: real, ttl: real)
    requires Enabled(w, Acquire(pid, owner, newId, own, seen, now, ttl))
    ensures var (after, result) := Next(w, Acquire(pid, owner, newId, own, seen, now, ttl));
            var busy := w.file.Some? && seen.alive
                        && (w.file.value.marker.None? || seen.marker.None? || seen.marker == w.file.value.marker);
            var mine := Lease(newId, owner, pid, if own then Some(w.births[pid]) else None, now, now + ttl);
            if ttl < 10.0 || 3600.0 < ttl then result == BadTtl && after == w
            else if !busy then
              && result == Acquired(mine, w.file.Some?)
              && after == World(Some(mine), w.births, w.clock,
                                w.grants[newId := Grant(pid, w.births[pid], owner)], w.released)
            else if w.file.value.owner == owner then
              var l := w.file.value;
              && result == Refreshed(Lease(l.id, owner, l.pid, l.marker, now, now + ttl))
              && after == World(Some(result.lease), w.births, w.clock, w.grants, w.released)
            else result == Conflict(w.file.value.owner) && after == w
  {
  }

  // ---------------------------------------------------------------- the store

  class LeaseStore {
    var file: Option<Lease>
    ghost var births: map<nat, nat>
    ghost var clock: nat
    ghost var grants: map<nat, Grant>
    ghost var released: set<nat>

    constructor ()
      ensures View() == START
    {
      file, births, clock, grants, released := None, map[], 0, map[], {};
    }

    ghost function View(): World
      reads this
    {
      World(file, births, clock, grants, released)
    }

    /** `marker` is what the caller reads of its own creation marker. */
    method DoAcquire(pid: nat, owner: Owner, newId: nat, marker: Option<nat>, seen: Sight, now: real, ttl: real)
      returns (result: Result)
      requires Enabled(View(), Acquire(pid, owner, newId, marker.Some?, seen, now, ttl))
      requires marker.Some? ==> marker.value == births[pid]
      modifies this
      ensures (View(), result) == Next(old(View()), Acquire(pid, owner, newId, marker.Some?, seen, now, ttl))
    {
      if ttl < 10.0 || ttl > 3600.0 { return BadTtl; }
      var recovered := false;
      if file.Some? {
        var existing := file.value;
        if existing.owner == owner && SameProcess(existing, seen) {
          var refreshed := existing.(heartbeatAt := now, expiresAt := now + ttl);
          file := Some(refreshed);
          return Refreshed(refreshed);
        }
        if SameProcess(existing, seen) { return Conflict(existing.owner); }
        recovered := true;
      }
      var lease := Lease(newId, owner, pid, marker, now, now + ttl);
      file := Some(lease);
      grants := grants[newId := Grant(pid, births[pid], owner)];
      return Acquired(lease, recovered);
    }

    method DoHeartbeat(id: nat, now: real, ttl: real) returns (result: Result)
      modifies this
      ensures (View(), result) == Next(old(View()), Heartbeat(id, now, ttl))
    {
      if file.None? || file.value.id != id { return OwnershipLost; }
      file := Some(file.value.(heartbeatAt := now, expiresAt := now + ttl));
      return Ok;
    }

    method DoRelease(id: nat) returns (result: Result)
      modifies this
      ensures (View(), result) == Next(old(View()), Release(id))
    {
      if file.None? { return Ok; }
      if file.value.id != id { return OwnershipLost; }
      file, released := None, released + {id};
      return Ok;
    }

    method DoValidate(id: nat, seen: Sight) returns (result: Result)
      requires Enabled(View(), Validate(id, seen))
      ensures result == Next(View(), Validate(id, seen)).1
    {
      if file.None? || file.value.id != id { return OwnershipLost; }
      if !SameProcess(file.value, seen) { return OwnerDead; }
      return Ok;
    }
  }
}
