/** The HTTP middleware that lets a bounded number of requests run and a bounded number
    wait. A request's coroutine can be interrupted only while it awaits the semaphore and
    while it awaits the handler, so its life is a sequence of the events below. */
module RequestQueue {
  import opened Text

  datatype Limits = Limits(concurrency: nat, queue: nat)

  /** Both limits are at least 1. */
  predicate Configured(c: Limits)
  {
    c.concurrency >= 1 && c.queue >= 1
  }

  datatype Ticket = Waiting(high: bool) | Running

  datatype Event =
    | Arrive(id: nat, high: bool) // reaches the admission test
    | Grant(id: nat)              // the semaphore lets it through
    | TimeOut(id: nat)            // wait_for gives up: answered 503
    | Cancel(id: nat)             // cancelled while it waits
    | Finish(id: nat)             // the handler returned, raised or was cancelled

  /** How requests ended so far. */
  datatype Tally = Tally(arrived: nat, refused: nat, timedOut: nat, cancelled: nat, finished: nat)

  /** The module's counters and the semaphore's value, beside the requests they count. */
  datatype Gate = Gate(waiting: int, active: int, permits: int, requests: map<nat, Ticket>, tally: Tally)

  function Opened(c: Limits): Gate
  {
    Gate(0, 0, c.concurrency, map[], Tally(0, 0, 0, 0, 0))
  }

  predicate Holds(g: Gate, id: nat, running: bool)
  {
    id in g.requests && g.requests[id].Running? == running
  }

  predicate Enabled(g: Gate, e: Event)
  {
    match e
    case Arrive(id, _) => id !in g.requests
    case Grant(id) => Holds(g, id, false) && g.permits > 0
    case TimeOut(id) => Holds(g, id, false)
    case Cancel(id) => Holds(g, id, false)
    case Finish(id) => Holds(g, id, true)
  }

  predicate Refuses(c: Limits, g: Gate, high: bool)
  {
    g.waiting >= c.queue && !high
  }

  function Next(c: Limits, g: Gate, e: Event): Gate
    requires Enabled(g, e)
  {
    var t := g.tally;
    match e
    case Arrive(id, high) =>
      if Refuses(c, g, high) then g.(tally := t.(arrived := t.arrived + 1, refused := t.refused + 1))
      else g.(waiting := g.waiting + 1, requests := g.requests[id := Waiting(high)],
              tally := t.(arrived := t.arrived + 1))
    case Grant(id) =>
      g.(waiting := Max0(g.waiting - 1), active := g.active + 1, permits := g.permits - 1,
         requests := g.requests[id := Running])
    case TimeOut(id) =>
      g.(waiting := Max0(g.waiting - 1), requests := g.requests - {id}, tally := t.(timedOut := t.timedOut + 1))
    case Cancel(id) =>
      g.(waiting := Max0(g.waiting - 1), requests := g.requests - {id}, tally := t.(cancelled := t.cancelled + 1))
    case Finish(id) =>
      g.(active := Max0(g.active - 1), permits := g.permits + 1, requests := g.requests - {id},
         tally := t.(finished := t.finished + 1))
  }

  /** A run from `g`; None when some event cannot happen where the run has it. */
  function Run(c: Limits, g: Gate, events: seq<Event>): Option<Gate>
    decreases |events|
  {
    if events == [] then Some(g)
    else if !Enabled(g, events[0]) then None
    else Run(c, Next(c, g, events[0]), events[1..])
  }

  // ---------------------------------------------------------------- invariant

  function Waiters(m: map<nat, Ticket>): set<nat>
  {
    set id | id in m && m[id].Waiting?
  }

  function Runners(m: map<nat, Ticket>): set<nat>
  {
    set id | id in m && m[id].Running?
  }

  function Ordinary(m: map<nat, Ticket>): set<nat>
  {
    set id | id in m && m[id].Waiting? && !m[id].high
  }

  /** The counters tell the truth, no permit is lost or made up, ordinary waiters stay within
      the queue, and every arrival is accounted for. */
  ghost predicate Sound(c: Limits, g: Gate)
  {
    && g.waiting == |Waiters(g.requests)|
    && g.active == |Runners(g.requests)|
    && g.permits >= 0 && g.permits + g.active == c.concurrency
    && |Ordinary(g.requests)| <= c.queue
    && g.tally.arrived
       == g.tally.refused + g.tally.timedOut + g.tally.cancelled + g.tally.finished + g.waiting + g.active
  }

  lemma OpenedIsSound(c: Limits)
    ensures Sound(c, Opened(c))
  {
    assert Waiters(map[]) == {} && Runners(map[]) == {} && Ordinary(map[]) == {};
  }

  lemma OrdinaryAreWaiters(m: map<nat, Ticket>)
    ensures Ordinary(m) <= Waiters(m) && |Ordinary(m)| <= |Waiters(m)|
  {
    SubsetSize(Ordinary(m), Waiters(m));
  }

  lemma AddedSets(m: map<nat, Ticket>, id: nat, high: bool)
    requires id !in m
    ensures var n := m[id := Waiting(high)];
            && Waiters(n) == Waiters(m) + {id} && Runners(n) == Runners(m)
            && Ordinary(n) == Ordinary(m) + (if high then {} else {id})
  {
  }

  lemma Added(m: map<nat, Ticket>, id: nat, high: bool)
    requires id !in m
    ensures var n := m[id := Waiting(high)];
            && |Waiters(n)| == |Waiters(m)| + 1 && Runners(n) == Runners(m)
            && |Ordinary(n)| == |Ordinary(m)| + (if high then 0 else 1)
  {
    AddedSets(m, id, high);
    assert id !in Waiters(m) && id !in Ordinary(m);
    if high { assert Ordinary(m) + {} == Ordinary(m); }
  }

  lemma Started(m: map<nat, Ticket>, id: nat)
    requires id in m && m[id].Waiting?
    ensures var n := m[id := Running];
            && |Waiters(n)| == |Waiters(m)| - 1 && |Runners(n)| == |Runners(m)| + 1
            && |Ordinary(n)| <= |Ordinary(m)|
  {
    var n := m[id := Running];
    assert Waiters(n) == Waiters(m) - {id} && Runners(n) == Runners(m) + {id};
    assert Ordinary(n) == Ordinary(m) - {id};
  }

  lemma Gone(m: map<nat, Ticket>, id: nat)
    requires id in m
    ensures var n := m - {id};
            && |Waiters(n)| == |Waiters(m)| - (if m[id].Waiting? then 1 else 0)
            && |Runners(n)| == |Runners(m)| - (if m[id].Running? then 1 else 0)
            && |Ordinary(n)| <= |Ordinary(m)|
  {
    var n := m - {id};
    assert Waiters(n) == Waiters(m) - {id} && Runners(n) == Runners(m) - {id};
    assert Ordinary(n) == Ordinary(m) - {id};
  }

  /** Every event keeps the invariant, and neither `max(0, ...)` ever does anything. */
  lemma NextIsSound(c: Limits, g: Gate, e: Event)
    requires Sound(c, g) && Enabled(g, e)
    ensures Sound(c, Next(c, g, e))
    ensures e.Grant? || e.TimeOut? || e.Cancel? ==> g.waiting >= 1
    ensures e.Finish? ==> g.active >= 1
  {
    match e
    case Arrive(id, high) =>
      Added(g.requests, id, high);
      OrdinaryAreWaiters(g.requests);
    case Grant(id) =>
      Started(g.requests, id);
      assert id in Waiters(g.requests);
    case TimeOut(id) =>
      Gone(g.requests, id);
      assert id in Waiters(g.requests);
    case Cancel(id) =>
      Gone(g.requests, id);
      assert id in Waiters(g.requests);
    case Finish(id) =>
      Gone(g.requests, id);
      assert id in Runners(g.requests);
  }

  lemma {:induction false} RunIsSound(c: Limits, g: Gate, events: seq<Event>)
    requires Sound(c, g) && Run(c, g, events).Some?
    ensures Sound(c, Run(c, g, events).value)
    decreases |events|
  {
    if events != [] {
      NextIsSound(c, g, events[0]);
      RunIsSound(c, Next(c, g, events[0]), events[1..]);
    }
  }

  /** Main result: in every interleaving, permits and counters are exact, at most
      `concurrency` requests run and at most `queue` ordinary ones wait, and once nobody is
      inside, the gate is as it was when it opened. */
  lemma EveryRunIsSound(c: Limits, events: seq<Event>)
    requires Run(c, Opened(c), events).Some?
    ensures var g := Run(c, Opened(c), events).value;
            && g.permits + |Runners(g.requests)| == c.concurrency
            && |Runners(g.requests)| <= c.concurrency
            && |Ordinary(g.requests)| <= c.queue
            && g.active == |Runners(g.requests)| && g.waiting == |Waiters(g.requests)|
            && g.tally.arrived ==
               g.tally.refused + g.tally.timedOut + g.tally.cancelled + g.tally.finished + |g.requests|
            && (g.requests == map[] ==> g == Opened(c).(tally := g.tally))
  {
    OpenedIsSound(c);
    RunIsSound(c, Opened(c), events);
    var g := Run(c, Opened(c), events).value;
    assert g.requests.Keys == Waiters(g.requests) + Runners(g.requests);
    assert |g.requests| == |g.requests.Keys|;
  }

  /** What becomes of a request in each event, whom it leaves alone, and what is counted. Only
      an arrival that is not urgent is refused, and only when the queue is full. */
  lemma EventMeaning(c: Limits, g: Gate, e: Event)
    requires Sound(c, g) && Enabled(g, e)
    ensures var after, t := Next(c, g, e), g.tally;
            match e
            case Arrive(id, high) =>
              if !high && |Waiters(g.requests)| >= c.queue then
                && after.requests == g.requests
                && after.tally == Tally(t.arrived + 1, t.refused + 1, t.timedOut, t.cancelled, t.finished)
              else
                && after.requests == g.requests[id := Waiting(high)]
                && after.tally == Tally(t.arrived + 1, t.refused, t.timedOut, t.cancelled, t.finished)
            case Grant(id) => after.requests == g.requests[id := Running] && after.tally == t
            case TimeOut(id) =>
              && after.requests == g.requests - {id}
              && after.tally == Tally(t.arrived, t.refused, t.timedOut + 1, t.cancelled, t.finished)
            case Cancel(id) =>
              && after.requests == g.requests - {id}
              && after.tally == Tally(t.arrived, t.refused, t.timedOut, t.cancelled + 1, t.finished)
            case Finish(id) =>
              && after.requests == g.requests - {id}
              && after.tally == Tally(t.arrived, t.refused, t.timedOut, t.cancelled, t.finished + 1)
    ensures var after := Next(c, g, e);
            && after.waiting == |Waiters(after.requests)| && after.active == |Runners(after.requests)|
            && after.permits == c.concurrency - |Runners(after.requests)|
  {
    NextIsSound(c, g, e);
  }

  /** Nobody waits for a permit nobody holds. */
  lemma WaitingHasAReason(c: Limits, g: Gate, id: nat)
    requires Sound(c, g) && Holds(g, id, false)
    ensures Enabled(g, Grant(id)) || |Runners(g.requests)| == c.concurrency
  {
  }

  /** A 503, whether at admission or after the wait, leaves the permits alone. */
  lemma BusyCostsNoPermit(c: Limits, g: Gate, e: Event)
    requires Enabled(g, e)
    requires e.TimeOut? || (e.Arrive? && Refuses(c, g, e.high))
    ensures Next(c, g, e).permits == g.permits && Runners(Next(c, g, e).requests) == Runners(g.requests)
  {
  }

  /** An admission 503 is honest: exactly `waiting` requests wait, and the queue is full. */
  lemma RefusalIsHonest(c: Limits, g: Gate, id: nat)
    requires Sound(c, g) && id !in g.requests
    ensures Next(c, g, Arrive(id, false)).tally.refused == g.tally.refused + 1 <==> |Waiters(g.requests)| >= c.queue
  {
  }

  // ---------------------------------------------------------------- nobody gets stuck

  lemma {:induction false} RunAppend(c: Limits, g: Gate, a: seq<Event>, b: seq<Event>)
    requires Run(c, g, a).Some?
    ensures Run(c, g, a + b) == Run(c, Run(c, g, a).value, b)
    decreases |a|
  {
    if a == [] {
      assert a + b == b;
    } else {
      assert (a + b)[1..] == a[1..] + b;
      RunAppend(c, Next(c, g, a[0]), a[1..], b);
    }
  }

  /** From every sound state, handlers that end and grants alone let every request through:
      nobody is refused, timed out or cancelled on the way to the empty gate. */
  lemma {:induction false} EveryoneCanFinish(c: Limits, g: Gate) returns (events: seq<Event>)
    requires Configured(c) && Sound(c, g)
    ensures Run(c, g, events).Some?
    ensures var done := Run(c, g, events).value;
            && done.requests == map[]
            && done.tally == g.tally.(finished := g.tally.finished + |g.requests|)
    decreases 2 * g.waiting + g.active
  {
    if g.requests == map[] {
      return [];
    }
    var id :| id in g.requests;
    var e := Finish(id);
    if g.active > 0 {
      var runner :| runner in Runners(g.requests);
      e := Finish(runner);
      assert |g.requests| == |g.requests - {runner}| + 1;
    } else {
      assert id !in Runners(g.requests);
      e := Grant(id);
      assert g.requests[id := Running].Keys == g.requests.Keys;
    }
    NextIsSound(c, g, e);
    var rest := EveryoneCanFinish(c, Next(c, g, e));
    events := [e] + rest;
    assert events[1..] == rest;
  }

  // ---------------------------------------------------------------- the middleware

  datatype Busy = Busy(queuePosition: int, active: int)

  class Middleware {
    const limits: Limits
    var waiting: int
    var active: int
    var permits: int
    ghost var requests: map<nat, Ticket>
    ghost var tally: Tally

    ghost function View(): Gate
      reads this
    {
      Gate(waiting, active, permits, requests, tally)
    }

    constructor (limits: Limits)
      ensures this.limits == limits && View() == Opened(limits)
    {
      this.limits := limits;
      waiting, active, permits := 0, 0, limits.concurrency;
      requests, tally := map[], Tally(0, 0, 0, 0, 0);
    }

    /** From the entry to the first await. A refusal tells the place in the queue the
        request would have had. */
    method Enter(id: nat, high: bool) returns (busy: Option<Busy>, position: int)
      requires Sound(limits, View()) && Enabled(View(), Arrive(id, high))
      modifies this
      ensures View() == Next(limits, old(View()), Arrive(id, high)) && Sound(limits, View())
      ensures busy.Some? <==> |old(Waiters(requests))| >= limits.queue && !high
      ensures busy.Some? ==> busy.value == Busy(|old(Waiters(requests))| + 1, |old(Runners(requests))|)
      ensures busy.None? ==> position == |Waiters(requests)|
    {
      NextIsSound(limits, View(), Arrive(id, high));
      tally := tally.(arrived := tally.arrived + 1);
      if waiting >= limits.queue && !high {
        tally := tally.(refused := tally.refused + 1);
        return Some(Busy(waiting + 1, active)), 0;
      }
      waiting := waiting + 1;
      requests := requests[id := Waiting(high)];
      return None, waiting;
    }

    /** The semaphore has let the request through: up to the call of the handler. */
    method Granted(id: nat)
      requires Sound(limits, View()) && Enabled(View(), Grant(id))
      modifies this
      ensures View() == Next(limits, old(View()), Grant(id)) && Sound(limits, View())
    {
      NextIsSound(limits, View(), Grant(id));
      permits := permits - 1;
      waiting := Max0(waiting - 1);
      active := active + 1;
      requests := requests[id := Running];
    }

    /** The wait ended without a permit; a timeout answers 503, a cancellation goes on. */
    method LeftQueue(id: nat, position: int, timedOut: bool) returns (busy: Option<Busy>)
      requires Sound(limits, View()) && Enabled(View(), TimeOut(id))
      modifies this
      ensures View() == Next(limits, old(View()), if timedOut then TimeOut(id) else Cancel(id)) && Sound(limits, View())
      ensures busy == if timedOut then Some(Busy(position, |Runners(requests)|)) else None
    {
      NextIsSound(limits, View(), if timedOut then TimeOut(id) else Cancel(id));
      busy := if timedOut then Some(Busy(position, active)) else None;
      waiting := Max0(waiting - 1);
      requests := requests - {id};
      tally := if timedOut then tally.(timedOut := tally.timedOut + 1) else tally.(cancelled := tally.cancelled + 1);
    }

    /** The handler is done, in whatever way. */
    method Left(id: nat)
      requires Sound(limits, View()) && Enabled(View(), Finish(id))
      modifies this
      ensures View() == Next(limits, old(View()), Finish(id)) && Sound(limits, View())
    {
      NextIsSound(limits, View(), Finish(id));
      active := Max0(active - 1);
      permits := permits + 1;
      requests := requests - {id};
      tally := tally.(finished := tally.finished + 1);
    }
  }
}
