/** The limit on failed authentications: a pruned, cut-off list of time stamps per client
    stands for all failures since the client's last success. Times are in seconds. */
module AuthLimiter {
  import opened Text

  const WINDOW: real := 60.0
  const LIMIT: nat := 30
  const KEEP: nat := 50

  type Stamps = seq<real>

  function Repeat<T>(n: nat, x: T): (s: seq<T>)
    ensures |s| == n && forall i :: 0 <= i < n ==> s[i] == x
  {
    seq(n, _ => x)
  }

  /** Stamps less than a window old. */
  function Prune(stamps: Stamps, now: real): Stamps
  {
    if stamps == [] then []
    else (if now - stamps[0] < WINDOW then [stamps[0]] else []) + Prune(stamps[1..], now)
  }

  lemma PruneFirst(stamps: Stamps, i: nat, now: real)
    requires i < |stamps|
    ensures var rest := Prune(stamps[i + 1..], now);
            Prune(stamps[i..], now) == if now - stamps[i] < WINDOW then [stamps[i]] + rest else rest
  {
    assert stamps[i..][0] == stamps[i] && stamps[i..][1..] == stamps[i + 1..];
  }

  lemma MoveOver(a: Stamps, x: real, b: Stamps)
    ensures a + ([x] + b) == (a + [x]) + b
  {
  }

  function LastKept(stamps: Stamps): Stamps
  {
    if |stamps| > KEEP then stamps[|stamps| - KEEP..] else stamps
  }

  function Get(failures: map<string, Stamps>, client: string): Stamps
  {
    if client in failures then failures[client] else []
  }

  // ---------------------------------------------------------------- one client's run

  /** What happens to one client: the test at the start of a request, and the answer. */
  datatype Event = Test(at: real) | Answered(status: int, at: real)

  /** What an event leaves of the client's list. */
  function Kept(kept: Stamps, e: Event): Stamps
  {
    match e
    case Test(now) => Prune(kept, now)
    case Answered(status, now) =>
      if status == 401 then LastKept(Prune(kept, now) + [now]) else if status < 400 then [] else kept
  }

  /** The list kept, and every failure since the last success. */
  datatype Track = Track(kept: Stamps, all: Stamps)

  function Next(t: Track, e: Event): Track
  {
    var all :=
      if e.Test? then t.all
      else if e.status == 401 then t.all + [e.at]
      else if e.status < 400 then []
      else t.all;
    Track(Kept(t.kept, e), all)
  }

  function Run(events: seq<Event>): Track
  {
    if events == [] then Track([], []) else Next(Run(events[..|events| - 1]), events[|events| - 1])
  }

  predicate Monotone(events: seq<Event>)
  {
    forall i, j :: 0 <= i < j < |events| ==> events[i].at <= events[j].at
  }

  ghost predicate Sorted(s: Stamps, now: real)
  {
    && (forall i, j :: 0 <= i < j < |s| ==> s[i] <= s[j])
    && (forall i :: 0 <= i < |s| ==> s[i] <= now)
  }

  /** What the list has lost can be told from what it has: everything lost is stale, or a
      full list is left, which says "too many" on its own as long as none of it is stale. */
  ghost predicate Represents(t: Track, now: real)
  {
    && Sorted(t.all, now) && IsSuffix(t.kept, t.all)
    && (|t.kept| >= KEEP || forall i :: 0 <= i < |t.all| - |t.kept| ==> now - t.all[i] >= WINDOW)
  }

  lemma AllAreFresh(s: Stamps, bound: real, now: real)
    requires s != [] && Sorted(s, bound) && now - s[0] < WINDOW
    ensures Prune(s, now) == s && forall i :: 0 <= i < |s| ==> now - s[i] < WINDOW
  {
    hide Prune;
    assert forall i :: 0 <= i < |s| ==> s[0] <= s[i];
    PruneAllFresh(s, now);
  }

  lemma PruneNone(now: real)
    ensures Prune([], now) == []
  {
  }

  /** Pruning a sorted list drops a front part: exactly the stale stamps. */
  lemma {:induction false} PruneIsSuffix(s: Stamps, bound: real, now: real)
    requires Sorted(s, bound)
    ensures IsSuffix(Prune(s, now), s)
    ensures forall i :: 0 <= i < |s| ==> (now - s[i] < WINDOW <==> i >= |s| - |Prune(s, now)|)
    decreases |s|
  {
    hide Prune;
    if s == [] {
      PruneNone(now);
    } else if now - s[0] < WINDOW {
      AllAreFresh(s, bound, now);
    } else {
      PruneFirst(s, 0, now);
      assert s[0..] == s;
      SortedTail(s, bound);
      PruneIsSuffix(s[1..], bound, now);
      hide IsSuffix, Sorted;
      SuffixOfTail(Prune(s[1..], now), s);
      FreshTail(s, |Prune(s[1..], now)|, now);
    }
  }

  lemma SortedTail(s: Stamps, bound: real)
    requires s != [] && Sorted(s, bound)
    ensures Sorted(s[1..], bound)
  {
  }

  lemma SuffixOfTail(part: Stamps, s: Stamps)
    requires s != [] && IsSuffix(part, s[1..])
    ensures IsSuffix(part, s) && |part| < |s|
  {
  }

  lemma {:induction false} PruneAllFresh(s: Stamps, now: real)
    requires forall i :: 0 <= i < |s| ==> now - s[i] < WINDOW
    ensures Prune(s, now) == s
    decreases |s|
  {
    if s != [] {
      PruneAllFresh(s[1..], now);
      assert s == [s[0]] + s[1..];
    }
  }

  /** A stale first stamp moves the boundary between stale and fresh ones by one. */
  lemma FreshTail(s: Stamps, kept: nat, now: real)
    requires s != [] && now - s[0] >= WINDOW && kept <= |s| - 1
    requires forall i :: 0 <= i < |s[1..]| ==> (now - s[1..][i] < WINDOW <==> i >= |s| - 1 - kept)
    ensures forall i :: 0 <= i < |s| ==> (now - s[i] < WINDOW <==> i >= |s| - kept)
  {
    forall i | 0 <= i < |s|
      ensures now - s[i] < WINDOW <==> i >= |s| - kept
    {
      if i > 0 { assert s[1..][i - 1] == s[i]; }
    }
  }

  lemma SuffixOfSuffix(a: Stamps, b: Stamps, c: Stamps)
    requires IsSuffix(a, b) && IsSuffix(b, c)
    ensures IsSuffix(a, c)
  {
  }

  /** If the last `k` of the kept stamps and the last `a` of all are the fresh ones, and the
      kept stamps are the last of all, `k` is `a`, as far as there are so many. */
  lemma SameBoundary(kept: Stamps, all: Stamps, k: nat, a: nat, now: real)
    requires IsSuffix(kept, all) && k <= |kept| && a <= |all|
    requires forall i :: 0 <= i < |kept| ==> (now - kept[i] < WINDOW <==> i >= |kept| - k)
    requires forall i :: 0 <= i < |all| ==> (now - all[i] < WINDOW <==> i >= |all| - a)
    ensures k == Min(|kept|, a)
  {
    var lost := |all| - |kept|;
    if k > 0 {
      var oldest := |kept| - k;
      assert now - kept[oldest] < WINDOW;
      assert kept[oldest] == all[oldest + lost];
    }
    if k < |kept| {
      var newest := |kept| - k - 1;
      assert now - kept[newest] >= WINDOW;
      assert kept[newest] == all[newest + lost];
    }
  }

  lemma SortedSuffix(kept: Stamps, all: Stamps, bound: real)
    requires Sorted(all, bound) && IsSuffix(kept, all)
    ensures Sorted(kept, bound)
  {
    assert forall i :: 0 <= i < |kept| ==> kept[i] == all[i + |all| - |kept|];
  }

  /** Pruning a suffix keeps the recent stamps of the whole, as far as it reaches back. */
  lemma PruneSuffix(kept: Stamps, all: Stamps, bound: real, now: real)
    requires Sorted(all, bound) && IsSuffix(kept, all)
    ensures |Prune(kept, now)| == Min(|kept|, |Prune(all, now)|) && IsSuffix(Prune(kept, now), all)
  {
    hide Prune;
    SortedSuffix(kept, all, bound);
    PruneIsSuffix(all, bound, now);
    PruneIsSuffix(kept, bound, now);
    SameBoundary(kept, all, |Prune(kept, now)|, |Prune(all, now)|, now);
    SuffixOfSuffix(Prune(kept, now), kept, all);
  }

  /** The kept list gives the same answer as the full history, now and at any later time. */
  lemma SameAnswer(t: Track, now: real, later: real)
    requires Represents(t, now) && now <= later
    ensures |Prune(t.kept, later)| >= LIMIT <==> |Prune(t.all, later)| >= LIMIT
    ensures Represents(t.(kept := Prune(t.kept, later)), later)
  {
    var lost := |t.all| - |t.kept|;
    PruneSuffix(t.kept, t.all, now, later);
    PruneIsSuffix(t.all, now, later);
    if lost > 0 && |t.kept| < KEEP {
      assert later - t.all[lost - 1] >= WINDOW;
    }
  }

  lemma AppendRepresents(t: Track, now: real)
    requires Represents(t, now)
    ensures Represents(Track(LastKept(t.kept + [now]), t.all + [now]), now)
  {
    var values, all := t.kept + [now], t.all + [now];
    SuffixAppend(t.kept, t.all, now);
    SuffixOfSuffix(LastKept(values), values, all);
    SortedAppend(t.all, now);
    if |values| < KEEP {
      assert forall i :: 0 <= i < |all| - |values| ==> all[i] == t.all[i];
    }
  }

  lemma SuffixAppend(kept: Stamps, all: Stamps, now: real)
    requires IsSuffix(kept, all)
    ensures IsSuffix(kept + [now], all + [now])
  {
  }

  lemma SortedAppend(all: Stamps, now: real)
    requires Sorted(all, now)
    ensures Sorted(all + [now], now)
  {
  }

  lemma NextRepresents(t: Track, e: Event, now: real)
    requires Represents(t, now) && now <= e.at
    ensures Represents(Next(t, e), e.at)
  {
    hide Prune;
    SameAnswer(t, now, e.at);
    if e.Answered? && e.status == 401 {
      AppendRepresents(t.(kept := Prune(t.kept, e.at)), e.at);
    } else {
      SameAnswerNow(t, now, e.at);
    }
  }

  lemma {:induction false} RunRepresents(events: seq<Event>, now: real)
    requires Monotone(events) && forall i :: 0 <= i < |events| ==> events[i].at <= now
    ensures Represents(Run(events), now)
    decreases |events|
  {
    if events != [] {
      var before, last := events[..|events| - 1], events[|events| - 1];
      RunRepresents(before, last.at);
      NextRepresents(Run(before), last, last.at);
      SameAnswerNow(Run(events), last.at, now);
    }
  }

  lemma SameAnswerNow(t: Track, now: real, later: real)
    requires Represents(t, now) && now <= later
    ensures Represents(t, later)
  {
  }

  /** Main result: as long as request times do not go back, every test answers as if all
      failures since the last success had been kept and counted. */
  lemma TestIsExact(events: seq<Event>, now: real)
    requires Monotone(events + [Test(now)])
    ensures |Prune(Run(events).kept, now)| >= LIMIT <==> |Prune(Run(events).all, now)| >= LIMIT
  {
    var more := events + [Test(now)];
    assert forall i :: 0 <= i < |events| ==> events[i] == more[i];
    assert more[|events|].at == now;
    RunRepresents(events, now);
    SameAnswer(Run(events), now, now);
  }

  /** The answers behind event `i` contain no success. */
  predicate NoSuccessAfter(events: seq<Event>, i: nat)
  {
    forall j :: i < j < |events| ==> !(events[j].Answered? && events[j].status < 400)
  }

  /** The answers 401 of the last minute with no success behind them. */
  function RecentFailures(events: seq<Event>, now: real): set<nat>
  {
    set i | 0 <= i < |events| && events[i].Answered? && events[i].status == 401
            && now - events[i].at < 60.0 && NoSuccessAfter(events, i)
  }

  lemma RecentStep(before: seq<Event>, e: Event, now: real)
    ensures RecentFailures(before + [e], now) ==
            (if e.Answered? && e.status < 400 then {} else RecentFailures(before, now)) +
            (if e.Answered? && e.status == 401 && now - e.at < 60.0 then {|before|} else {})
  {
    var events := before + [e];
    forall i: nat | i < |before|
      ensures NoSuccessAfter(events, i) <==> NoSuccessAfter(before, i) && !(e.Answered? && e.status < 400)
    {
      assert events[|before|] == e;
      assert forall j :: i < j < |before| ==> events[j] == before[j];
    }
    assert NoSuccessAfter(events, |before|);
    assert forall i :: 0 <= i < |before| ==> events[i] == before[i];
  }

  lemma RecentIsBelow(events: seq<Event>, now: real)
    ensures |events| !in RecentFailures(events, now)
  {
  }

  lemma {:induction false} FailuresAreCounted(events: seq<Event>, now: real)
    ensures |Prune(Run(events).all, now)| == |RecentFailures(events, now)|
    decreases |events|
  {
    if events == [] {
      assert RecentFailures(events, now) == {};
    } else {
      var n := |events| - 1;
      var before, e := events[..n], events[n];
      FailuresAreCounted(before, now);
      RunSnoc(before, e);
      assert before + [e] == events;
      RecentStep(before, e, now);
      RecentIsBelow(before, now);
      PruneConcat(Run(before).all, [e.at], now);
      PruneOne(e.at, now);
      PruneNone(now);
      hide Prune, RecentFailures, Run, NoSuccessAfter;
    }
  }

  lemma PruneOne(stamp: real, now: real)
    ensures Prune([stamp], now) == if now - stamp < 60.0 then [stamp] else []
  {
    assert [stamp][1..] == [];
  }

  /** The same told by the run alone: a test refuses exactly if there were 30 answers 401 in
      the minute before it, with no success behind them. */
  lemma RefusedExactly(events: seq<Event>, now: real)
    requires Monotone(events + [Test(now)])
    ensures |Prune(Run(events).kept, now)| >= LIMIT <==> |RecentFailures(events, now)| >= 30
  {
    TestIsExact(events, now);
    FailuresAreCounted(events, now);
  }

  lemma {:induction false} PruneEqual(n: nat, stamp: real, now: real)
    ensures var s := Repeat(n, stamp);
            Prune(s, now) == if now - stamp < WINDOW then s else []
    decreases n
  {
    hide Repeat, Prune;
    var s := Repeat(n, stamp);
    if n == 0 {
      assert s == [];
      PruneNone(now);
    } else {
      PruneEqual(n - 1, stamp, now);
      PruneFirst(s, 0, now);
      assert s[0..] == s && s[1..] == Repeat(n - 1, stamp);
      assert s == [stamp] + s[1..];
    }
  }

  lemma RunSnoc(events: seq<Event>, e: Event)
    ensures Run(events + [e]) == Next(Run(events), e)
  {
    assert (events + [e])[..|events|] == events;
  }

  /** `n` requests one after the other that all fail, each a test and its answer. */
  function Failing(n: nat, now: real): (events: seq<Event>)
    ensures |events| == 2 * n
    ensures forall i :: 0 <= i < 2 * n ==> events[i] == if i % 2 == 0 then Test(now) else Answered(401, now)
  {
    seq(2 * n, i requires 0 <= i => if i % 2 == 0 then Test(now) else Answered(401, now))
  }

  lemma FailingMore(n: nat, now: real)
    ensures Failing(n + 1, now) == Failing(n, now) + [Test(now), Answered(401, now)]
    ensures Repeat(n + 1, now) == Repeat(n, now) + [now]
  {
  }

  lemma NoFailures(now: real)
    ensures Run(Failing(0, now)) == Track(Repeat(0, now), Repeat(0, now))
  {
    assert Failing(0, now) == [] && Repeat(0, now) == [];
  }

  lemma {:induction false} FailuresAreKept(n: nat, now: real)
    requires n <= KEEP
    ensures Run(Failing(n, now)) == Track(Repeat(n, now), Repeat(n, now))
    decreases n
  {
    hide Run, Prune, Failing, Repeat;
    if n == 0 {
      NoFailures(now);
    } else {
      FailuresAreKept(n - 1, now);
      FailingMore(n - 1, now);
      PruneEqual(n - 1, now, now);
      var before := Failing(n - 1, now);
      RunSnoc(before, Test(now));
      RunSnoc(before + [Test(now)], Answered(401, now));
      assert (before + [Test(now)]) + [Answered(401, now)] == before + [Test(now), Answered(401, now)];
    }
  }

  /** The guard lets the request in whose test is event `n`. */
  ghost predicate LetIn(events: seq<Event>, n: nat)
    requires n < |events|
  {
    |Prune(Run(events[..n]).kept, events[n].at)| < LIMIT
  }

  /** The answer in event `n` comes right behind the test of its request. */
  predicate AfterItsTest(events: seq<Event>, n: nat)
    requires n < |events|
  {
    n > 0 && events[n - 1] == Test(events[n].at)
  }

  /** Thirty failing requests at time 0, and a test at 61. */
  function Forgetful(): (events: seq<Event>)
    ensures |events| == 61
  {
    Failing(30, 0.0) + [Test(61.0)]
  }

  /** Where times go back the list forgets: all thirty requests were let in and failed, and a
      test at 10 that comes after the one at 61 finds none of them. */
  lemma GoingBackForgets()
    ensures forall n :: 0 <= n < 61 && Forgetful()[n].Test? ==> LetIn(Forgetful(), n)
    ensures forall n :: 0 <= n < 61 && Forgetful()[n].Answered? ==> AfterItsTest(Forgetful(), n)
    ensures var t := Run(Forgetful()); |Prune(t.kept, 10.0)| == 0 && |Prune(t.all, 10.0)| == 30
  {
    hide Run, Prune, Forgetful, LetIn, Failing, Repeat;
    hide AfterItsTest;
    forall n | 0 <= n < 61
      ensures Forgetful()[n].Test? ==> LetIn(Forgetful(), n)
      ensures Forgetful()[n].Answered? ==> AfterItsTest(Forgetful(), n)
    {
      ForgetfulAt(n);
    }
    ForgetfulEnds();
  }

  lemma ForgetfulAt(n: nat)
    requires n < 61
    ensures Forgetful()[n].Test? ==> LetIn(Forgetful(), n)
    ensures Forgetful()[n].Answered? ==> AfterItsTest(Forgetful(), n)
  {
    hide Run, Failing, Prune, Repeat;
    var failing := Failing(30, 0.0);
    if n < 60 { assert Forgetful()[n] == failing[n]; }
    if n % 2 == 0 {
      FailingPrefix(n / 2);
      FailuresAreKept(n / 2, 0.0);
      PruneEqual(n / 2, 0.0, Forgetful()[n].at);
    } else {
      assert Forgetful()[n - 1] == failing[n - 1];
    }
  }

  lemma FailingPrefix(k: nat)
    requires k <= 30
    ensures Forgetful()[..2 * k] == Failing(k, 0.0)
  {
    hide Failing;
    assert Forgetful()[..2 * k] == Failing(30, 0.0)[..2 * k];
  }

  lemma ForgetfulEnds()
    ensures var t := Run(Forgetful()); |Prune(t.kept, 10.0)| == 0 && |Prune(t.all, 10.0)| == 30
  {
    hide Run, Failing, Prune, Repeat;
    FailuresAreKept(30, 0.0);
    RunSnoc(Failing(30, 0.0), Test(61.0));
    PruneEqual(30, 0.0, 61.0);
    PruneEqual(30, 0.0, 10.0);
    PruneNone(10.0);
  }

  // ---------------------------------------------------------------- overlapping requests

  /** Requests that overlap: an answer carries the time of its own test, which is event
      `origin[j]` of the run for the answer in event `j`; times of tests do not go back. */
  ghost predicate Overlapping(events: seq<Event>, origin: seq<nat>)
  {
    && |origin| == |events|
    && (forall i, j :: 0 <= i < j < |events| && events[i].Test? && events[j].Test? ==> events[i].at <= events[j].at)
    && (forall j :: 0 <= j < |events| && events[j].Answered? ==>
          origin[j] < j && events[origin[j]] == Test(events[j].at))
  }

  /** The answers still to come, at the end of the first `n` events, to tests among them. */
  function InFlight(events: seq<Event>, origin: seq<nat>, n: nat): set<nat>
    requires |origin| == |events|
  {
    set j | n <= j < |events| && events[j].Answered? && origin[j] < n
  }

  /** A failure since the last success: its stamp, its answer's place in the run, and whether
      the list still holds it. */
  datatype Mark = Mark(at: real, answer: nat, held: bool)

  function Held(marks: seq<Mark>): Stamps
  {
    if marks == [] then [] else (if marks[0].held then [marks[0].at] else []) + Held(marks[1..])
  }

  function Ats(marks: seq<Mark>): Stamps
  {
    if marks == [] then [] else [marks[0].at] + Ats(marks[1..])
  }

  function PruneMarks(marks: seq<Mark>, now: real): (r: seq<Mark>)
    ensures |r| == |marks|
    ensures forall p :: 0 <= p < |r| ==> r[p] == marks[p].(held := marks[p].held && now - marks[p].at < WINDOW)
  {
    if marks == [] then []
    else [marks[0].(held := marks[0].held && now - marks[0].at < WINDOW)] + PruneMarks(marks[1..], now)
  }

  /** Lets go of the first `k` that are held. */
  function Release(marks: seq<Mark>, k: nat): (r: seq<Mark>)
    ensures |r| == |marks|
    ensures forall p :: 0 <= p < |r| ==> r[p].at == marks[p].at && r[p].answer == marks[p].answer
  {
    if marks == [] || k == 0 then marks
    else if marks[0].held then [marks[0].(held := false)] + Release(marks[1..], k - 1)
    else [marks[0]] + Release(marks[1..], k)
  }

  function Cut(marks: seq<Mark>): seq<Mark>
  {
    if |Held(marks)| > KEEP then Release(marks, |Held(marks)| - KEEP) else marks
  }

  function RunMarks(events: seq<Event>): seq<Mark>
  {
    if events == [] then []
    else
      var n := |events| - 1;
      var before := RunMarks(events[..n]);
      match events[n]
      case Test(now) => PruneMarks(before, now)
      case Answered(status, now) =>
        if status == 401 then Cut(PruneMarks(before, now) + [Mark(now, n, true)])
        else if status < 400 then []
        else before
  }

  lemma {:induction false} HeldPrune(marks: seq<Mark>, now: real)
    ensures Held(PruneMarks(marks, now)) == Prune(Held(marks), now)
    ensures Ats(PruneMarks(marks, now)) == Ats(marks)
    decreases |marks|
  {
    if marks != [] {
      HeldPrune(marks[1..], now);
      assert PruneMarks(marks, now)[1..] == PruneMarks(marks[1..], now);
      var rest := Held(marks[1..]);
      assert ([marks[0].at] + rest)[1..] == rest && [] + rest == rest;
    }
  }

  lemma HeldFirst(marks: seq<Mark>)
    ensures Held([]) == [] && Ats([]) == []
    ensures marks != [] ==>
      && Held(marks) == (if marks[0].held then [marks[0].at] else []) + Held(marks[1..])
      && Ats(marks) == [marks[0].at] + Ats(marks[1..])
  {
  }

  lemma {:induction false} HeldAppend(a: seq<Mark>, b: seq<Mark>)
    ensures Held(a + b) == Held(a) + Held(b) && Ats(a + b) == Ats(a) + Ats(b)
    decreases |a|
  {
    hide Held, Ats;
    HeldFirst(a);
    if a == [] {
      assert a + b == b;
    } else {
      HeldFirst(a + b);
      assert (a + b)[1..] == a[1..] + b && (a + b)[0] == a[0];
      HeldAppend(a[1..], b);
    }
  }

  lemma {:induction false} HeldRelease(marks: seq<Mark>, k: nat)
    requires k <= |Held(marks)|
    ensures Held(Release(marks, k)) == Held(marks)[k..] && Ats(Release(marks, k)) == Ats(marks)
    decreases |marks|
  {
    if marks != [] && k > 0 {
      HeldRelease(marks[1..], if marks[0].held then k - 1 else k);
    }
  }

  lemma CutIsLastKept(marks: seq<Mark>)
    ensures Held(Cut(marks)) == LastKept(Held(marks)) && Ats(Cut(marks)) == Ats(marks)
  {
    hide Held, Release, Ats;
    if |Held(marks)| > KEEP { HeldRelease(marks, |Held(marks)| - KEEP); }
  }

  /** The marks are the run with more detail. */
  lemma {:induction false} RunIsMarked(events: seq<Event>)
    ensures Run(events) == Track(Held(RunMarks(events)), Ats(RunMarks(events)))
    decreases |events|
  {
    if events != [] {
      var n := |events| - 1;
      RunIsMarked(events[..n]);
      var before, e := RunMarks(events[..n]), events[n];
      hide PruneMarks, Prune, LastKept, Cut;
      HeldPrune(before, e.at);
      if e.Answered? && e.status == 401 {
        var mark := Mark(e.at, n, true);
        HeldAppend(PruneMarks(before, e.at), [mark]);
        assert Held([mark]) == [e.at] && Ats([mark]) == [e.at];
        CutIsLastKept(PruneMarks(before, e.at) + [mark]);
      }
    }
  }

  /** Marks stand in the order of their answers and have their times. */
  ghost predicate InOrder(marks: seq<Mark>, events: seq<Event>)
  {
    && (forall p, q :: 0 <= p < q < |marks| ==> marks[p].answer < marks[q].answer)
    && (forall p :: 0 <= p < |marks| ==> marks[p].answer < |events|)
    && (forall p :: 0 <= p < |marks| ==> events[marks[p].answer].Answered? && events[marks[p].answer].at == marks[p].at)
  }

  lemma StillInOrder(marks: seq<Mark>, changed: seq<Mark>, events: seq<Event>)
    requires InOrder(marks, events) && |changed| == |marks|
    requires forall p :: 0 <= p < |marks| ==> changed[p].at == marks[p].at && changed[p].answer == marks[p].answer
    ensures InOrder(changed, events)
  {
  }

  lemma LongerInOrder(marks: seq<Mark>, events: seq<Event>, held: bool)
    requires events != []
    requires InOrder(marks, events[..|events| - 1])
    ensures InOrder(marks, events)
    ensures events[|events| - 1].Answered? ==>
              InOrder(marks + [Mark(events[|events| - 1].at, |events| - 1, held)], events)
  {
  }

  lemma {:induction false} MarksInOrder(events: seq<Event>)
    ensures InOrder(RunMarks(events), events)
    decreases |events|
  {
    if events != [] {
      var n := |events| - 1;
      var before, e := RunMarks(events[..n]), events[n];
      MarksInOrder(events[..n]);
      LongerInOrder(before, events, true);
      var pruned := PruneMarks(before, e.at);
      StillInOrder(before, pruned, events);
      StillInOrder(before, pruned, events[..n]);
      LongerInOrder(pruned, events, true);
      if e.Answered? {
        var more := pruned + [Mark(e.at, n, true)];
        StillInOrder(more, Cut(more), events);
      }
      hide InOrder, Cut, PruneMarks;
      assert InOrder([], events) by { EmptyInOrder(events); }
    }
  }

  lemma EmptyInOrder(events: seq<Event>)
    ensures InOrder([], events)
  {
  }

  /** Every stamp among the newest fifty that is fresh is held. */
  ghost predicate HoldsNewest(marks: seq<Mark>, now: real)
  {
    forall p :: 0 <= p < |marks| && |marks| - KEEP <= p && now - marks[p].at < WINDOW ==> marks[p].held
  }

  lemma {:induction false} HeldLength(marks: seq<Mark>)
    ensures |Held(marks)| <= |marks|
    decreases |marks|
  {
    if marks != [] { HeldLength(marks[1..]); }
  }

  lemma ReleaseFirst(marks: seq<Mark>, k: nat, p: nat)
    requires k > 0 && 0 < p < |marks|
    ensures Release(marks, k)[p] == Release(marks[1..], if marks[0].held then k - 1 else k)[p - 1]
  {
  }

  lemma {:induction false} ReleaseIsAhead(marks: seq<Mark>, k: nat, p: nat)
    requires p < |marks| && k <= |Held(marks[..p])|
    ensures Release(marks, k)[p] == marks[p]
    decreases |marks|
  {
    hide Held;
    HeldFirst(marks[..p]);
    if k > 0 {
      hide Release;
      var front := marks[..p];
      assert front[0] == marks[0] && front[1..] == marks[1..][..p - 1];
      ReleaseFirst(marks, k, p);
      ReleaseIsAhead(marks[1..], if marks[0].held then k - 1 else k, p - 1);
    }
  }

  lemma CutHoldsNewest(marks: seq<Mark>, now: real)
    requires HoldsNewest(marks, now)
    ensures HoldsNewest(Cut(marks), now)
  {
    if |Held(marks)| > KEEP {
      var k := |Held(marks)| - KEEP;
      forall p | 0 <= p < |marks| && |marks| - KEEP <= p
        ensures Release(marks, k)[p] == marks[p]
      {
        assert marks == marks[..p] + marks[p..];
        HeldAppend(marks[..p], marks[p..]);
        HeldLength(marks[p..]);
        ReleaseIsAhead(marks, k, p);
      }
    }
  }

  lemma {:induction false} NewestAreHeld(events: seq<Event>, now: real)
    requires forall i :: 0 <= i < |events| ==> events[i].at <= now
    ensures HoldsNewest(RunMarks(events), now)
    decreases |events|
  {
    if events != [] {
      var n := |events| - 1;
      NewestAreHeld(events[..n], now);
      hide Cut, PruneMarks;
      var before, e := RunMarks(events[..n]), events[n];
      if e.Answered? && e.status == 401 { CutHoldsNewest(PruneMarks(before, e.at) + [Mark(e.at, n, true)], now); }
    }
  }

  function Fresh(marks: seq<Mark>, now: real): nat
  {
    |Prune(Ats(marks), now)|
  }

  lemma FreshFirst(marks: seq<Mark>, now: real)
    requires marks != []
    ensures Fresh(marks, now) == (if now - marks[0].at < WINDOW then 1 else 0) + Fresh(marks[1..], now)
    ensures |Prune(Held(marks), now)| ==
            (if marks[0].held && now - marks[0].at < WINDOW then 1 else 0) + |Prune(Held(marks[1..]), now)|
  {
    var ats, held := Ats(marks[1..]), Held(marks[1..]);
    assert ([marks[0].at] + ats)[1..] == ats && ([marks[0].at] + held)[1..] == held && [] + held == held;
  }

  lemma {:induction false} HeldAreFresh(marks: seq<Mark>, k: nat, now: real)
    requires k <= |marks| && forall p :: k <= p < |marks| && now - marks[p].at < WINDOW ==> marks[p].held
    ensures Fresh(marks[k..], now) <= |Prune(Held(marks), now)| <= Fresh(marks, now)
    decreases |marks|
  {
    if marks != [] {
      var rest := marks[1..];
      FreshFirst(marks, now);
      assert marks[0..] == marks;
      HeldAreFresh(rest, if k > 0 then k - 1 else 0, now);
      assert rest[0..] == rest && (k > 0 ==> rest[k - 1..] == marks[k..]);
      hide Prune, Held, Ats, Fresh;
    }
  }

  lemma {:induction false} NoneFreshAhead(marks: seq<Mark>, k: nat, now: real)
    requires k <= |marks| && forall p :: 0 <= p < k ==> now - marks[p].at >= WINDOW
    ensures Fresh(marks, now) == Fresh(marks[k..], now)
    decreases k
  {
    if k > 0 {
      FreshFirst(marks, now);
      assert marks[1..][k - 1..] == marks[k..];
      NoneFreshAhead(marks[1..], k - 1, now);
    } else {
      assert marks[0..] == marks;
    }
  }

  /** All but the answers in `stale` are fresh. */
  lemma {:induction false} FewAreStale(marks: seq<Mark>, stale: set<nat>, now: real)
    requires forall p, q :: 0 <= p < q < |marks| ==> marks[p].answer < marks[q].answer
    requires forall p :: 0 <= p < |marks| && now - marks[p].at >= WINDOW ==> marks[p].answer in stale
    ensures Fresh(marks, now) + |stale| >= |marks|
    decreases |marks|
  {
    if marks == [] {
    } else {
      hide Fresh, Prune, Held, Ats;
      FreshFirst(marks, now);
      var first, rest := marks[0], marks[1..];
      assert forall p :: 0 <= p < |rest| ==> rest[p] == marks[p + 1] && first.answer != marks[p + 1].answer;
      if now - first.at < WINDOW {
        FewAreStale(rest, stale, now);
      } else {
        var others := stale - {first.answer};
        SubsetSize({first.answer}, stale);
        FewAreStale(rest, others, now);
      }
    }
  }

  /** A stamp older than one that was answered before it belongs to a request that was in
      flight when the other came. */
  lemma LaggardIsInFlight(events: seq<Event>, origin: seq<nat>, a: nat, b: nat)
    requires Overlapping(events, origin) && a < b < |events| && events[a].Answered? && events[b].Answered?
    requires events[b].at < events[a].at
    ensures {a, b} <= InFlight(events, origin, origin[a] + 1)
  {
  }

  const MOST_IN_FLIGHT: nat := KEEP - LIMIT + 1

  /** A fresh stamp that is no longer among the newest fifty leaves thirty fresh behind it. */
  lemma FreshBehind(events: seq<Event>, origin: seq<nat>, p: nat, now: real)
    requires Overlapping(events, origin)
    requires forall n :: 0 <= n <= |events| ==> |InFlight(events, origin, n)| <= MOST_IN_FLIGHT
    requires var marks := RunMarks(events); p + KEEP < |marks| && now - marks[p].at < WINDOW
    ensures var marks := RunMarks(events); Fresh(marks[|marks| - KEEP..], now) >= LIMIT
  {
    var marks := RunMarks(events);
    var k := |marks| - KEEP;
    MarksInOrder(events);
    hide RunMarks, Fresh;
    var a := marks[p].answer;
    var flying := InFlight(events, origin, origin[a] + 1);
    assert a in flying;
    var newest := marks[k..];
    forall q | 0 <= q < |newest| && now - newest[q].at >= WINDOW
      ensures newest[q].answer in flying - {a}
    {
      assert newest[q] == marks[k + q];
      LaggardIsInFlight(events, origin, a, marks[k + q].answer);
    }
    FewAreStale(newest, flying - {a}, now);
  }

  /** Main result: with non-decreasing times of tests and at most 21 requests of the client
      in flight at any time, every test answers as if all failures since the last success
      had been kept and counted, in whatever order the requests end. */
  lemma OverlapIsExact(events: seq<Event>, origin: seq<nat>, now: real)
    requires Overlapping(events, origin)
    requires forall n :: 0 <= n <= |events| ==> |InFlight(events, origin, n)| <= MOST_IN_FLIGHT
    requires forall i :: 0 <= i < |events| ==> events[i].at <= now
    ensures |Prune(Run(events).kept, now)| >= LIMIT <==> |Prune(Run(events).all, now)| >= LIMIT
  {
    var marks := RunMarks(events);
    var k := if |marks| > KEEP then |marks| - KEEP else 0;
    hide RunMarks, Run, Prune, Held, Ats, InFlight, Overlapping;
    RunIsMarked(events);
    NewestAreHeld(events, now);
    HeldAreFresh(marks, k, now);
    if p :| 0 <= p < k && now - marks[p].at < WINDOW {
      FreshBehind(events, origin, p, now);
    } else {
      NoneFreshAhead(marks, k, now);
    }
  }

  /** A run with 22 in flight: 21 requests come at time 0; thirty more fail one after the
      other at time 1; then the 21 fail, and the last of them pushes a stamp out. */
  function CrowdEvent(i: nat): Event
  {
    if i < 21 then Test(0.0)
    else if i < 81 then (if i % 2 == 1 then Test(1.0) else Answered(401, 1.0))
    else Answered(401, 0.0)
  }

  function Crowd(n: nat): (events: seq<Event>)
    ensures |events| == n && forall i :: 0 <= i < n ==> events[i] == CrowdEvent(i)
  {
    seq(n, i requires 0 <= i => CrowdEvent(i))
  }

  function CrowdOrigin(): (origin: seq<nat>)
    ensures |origin| == 102 && forall i :: 0 < i < 102 ==> origin[i] == if i < 81 then i - 1 else i - 81
  {
    seq(102, i requires 0 <= i < 102 => if i == 0 then 0 else if i < 81 then i - 1 else i - 81)
  }

  function Stamped(n: nat): Stamps
    requires n <= 102
  {
    if n <= 81 then Repeat(if n < 21 then 0 else (n - 21) / 2, 1.0) else Repeat(30, 1.0) + Repeat(n - 81, 0.0)
  }

  lemma {:induction false} CrowdRuns(n: nat)
    requires n <= 101
    ensures Run(Crowd(n)) == Track(Stamped(n), Stamped(n))
    decreases n
  {
    if n > 0 {
      CrowdRuns(n - 1);
      var e := CrowdEvent(n - 1);
      assert Crowd(n) == Crowd(n - 1) + [e];
      assert e.Answered? ==> e.status == 401 && |Stamped(n - 1)| < KEEP;
      PruneAllFresh(Stamped(n - 1), e.at);
      StampedGrows(n);
      hide Run, Prune, Crowd, Stamped;
      RunSnoc(Crowd(n - 1), e);
    }
  }

  lemma StampedGrows(n: nat)
    requires 0 < n <= 102
    ensures var e := CrowdEvent(n - 1);
            Stamped(n) == if e.Test? then Stamped(n - 1) else Stamped(n - 1) + [e.at]
  {
  }

  lemma {:induction false} PruneConcat(a: Stamps, b: Stamps, now: real)
    ensures Prune(a + b, now) == Prune(a, now) + Prune(b, now)
    decreases |a|
  {
    if a == [] {
      assert a + b == b;
    } else {
      assert (a + b)[1..] == a[1..] + b;
      PruneConcat(a[1..], b, now);
    }
  }

  /** So 21 is the limit. With 22 in flight, all of them let in by the guard, a test at time
      60 finds 29 failures where there were 30. */
  lemma CrowdForgets()
    ensures Overlapping(Crowd(102), CrowdOrigin())
    ensures forall n :: 0 <= n <= 102 ==> |InFlight(Crowd(102), CrowdOrigin(), n)| <= MOST_IN_FLIGHT + 1
    ensures forall n :: 0 <= n < 102 && Crowd(102)[n].Test? ==> LetIn(Crowd(102), n)
    ensures var t := Run(Crowd(102)); |Prune(t.kept, 60.0)| == LIMIT - 1 && |Prune(t.all, 60.0)| == LIMIT
  {
    CrowdOverlaps();
    forall n | 0 <= n <= 102
      ensures |InFlight(Crowd(102), CrowdOrigin(), n)| <= MOST_IN_FLIGHT + 1
    {
      CrowdFlies(n);
    }
    forall n | 0 <= n < 102 && Crowd(102)[n].Test?
      ensures LetIn(Crowd(102), n)
    {
      CrowdIsLetIn(n);
    }
    hide Crowd, CrowdOrigin, Overlapping, Run, Prune;
    CrowdEnds();
    CrowdCounts();
  }

  lemma CrowdIsLetIn(n: nat)
    requires n < 102 && Crowd(102)[n].Test?
    ensures LetIn(Crowd(102), n)
  {
    hide Run;
    assert Crowd(102)[..n] == Crowd(n);
    CrowdRuns(n);
    PruneAllFresh(Stamped(n), Crowd(102)[n].at);
    hide Prune;
  }

  function Ones(n: nat): Stamps
  {
    Repeat(n, 1.0)
  }

  function Zeros(n: nat): Stamps
  {
    Repeat(n, 0.0)
  }

  lemma CrowdEnds()
    ensures Run(Crowd(102)) == Track(Ones(29) + Zeros(21), Ones(30) + Zeros(21))
  {
    var all := Stamped(101) + [0.0];
    assert all == Ones(30) + Zeros(21) && all[1..] == Ones(29) + Zeros(21);
    assert Crowd(102) == Crowd(101) + [Answered(401, 0.0)];
    PruneAllFresh(Stamped(101), 0.0);
    CrowdRuns(101);
    hide Run, Prune, Crowd, Stamped;
    RunSnoc(Crowd(101), Answered(401, 0.0));
  }

  lemma CrowdCounts()
    ensures |Prune(Ones(29) + Zeros(21), 60.0)| == 29 && |Prune(Ones(30) + Zeros(21), 60.0)| == 30
  {
    hide Prune;
    PruneConcat(Ones(30), Zeros(21), 60.0);
    PruneConcat(Ones(29), Zeros(21), 60.0);
    PruneEqual(30, 1.0, 60.0);
    PruneEqual(29, 1.0, 60.0);
    PruneEqual(21, 0.0, 60.0);
  }

  lemma CrowdOverlaps()
    ensures Overlapping(Crowd(102), CrowdOrigin())
  {
    hide Crowd, CrowdOrigin;
    var events, origin := Crowd(102), CrowdOrigin();
    forall j | 0 <= j < |events| && events[j].Answered?
      ensures origin[j] < j && events[origin[j]] == Test(events[j].at)
    {
      assert events[j] == CrowdEvent(j) && events[origin[j]] == CrowdEvent(origin[j]);
    }
  }

  lemma CrowdFlies(n: nat)
    requires n <= 102
    ensures |InFlight(Crowd(102), CrowdOrigin(), n)| <= MOST_IN_FLIGHT + 1
  {
    hide Crowd, CrowdOrigin, Span, CrowdEvent;
    var flying, late := InFlight(Crowd(102), CrowdOrigin(), n), Span(81, 102);
    forall j | j in flying
      ensures j in late + {n}
    {
      assert CrowdOrigin()[j] < n <= j;
      assert j == 0 || CrowdOrigin()[j] == if j < 81 then j - 1 else j - 81;
    }
    hide InFlight;
    SubsetSize(flying, late + {n});
  }

  function Span(a: nat, b: nat): (s: set<nat>)
    requires a <= b
    ensures |s| == b - a && forall j: nat :: j in s <==> a <= j < b
    decreases b - a
  {
    if a == b then {} else {a} + Span(a + 1, b)
  }

  // ---------------------------------------------------------------- one request after the other

  datatype Request = Request(at: real, status: int)

  /** The guard: a refused request is answered 429 and leaves no trace. */
  function Guarded(t: Track, r: Request): Track
  {
    var tested := Next(t, Test(r.at));
    if |tested.kept| >= LIMIT then tested else Next(tested, Answered(r.status, r.at))
  }

  function Serve(requests: seq<Request>): Track
  {
    if requests == [] then Track([], []) else Guarded(Serve(requests[..|requests| - 1]), requests[|requests| - 1])
  }

  /** Every failure is at least a window later than the thirtieth before it. */
  ghost predicate Spaced(all: Stamps)
  {
    forall i :: 0 <= i < |all| - LIMIT ==> all[i + LIMIT] - all[i] >= WINDOW
  }

  /** Main result: with requests served one after the other, no 60-second window holds more
      than 30 failures since the last success, whatever the client tries. */
  lemma {:induction false} FailuresAreSpaced(requests: seq<Request>, now: real)
    requires forall i, j :: 0 <= i < j < |requests| ==> requests[i].at <= requests[j].at
    requires forall i :: 0 <= i < |requests| ==> requests[i].at <= now
    ensures Spaced(Serve(requests).all) && Represents(Serve(requests), now)
    decreases |requests|
  {
    hide Guarded;
    if requests != [] {
      var before, last := requests[..|requests| - 1], requests[|requests| - 1];
      FailuresAreSpaced(before, last.at);
      GuardedKeeps(Serve(before), last);
      SameAnswerNow(Serve(requests), last.at, now);
    }
  }

  lemma GuardedKeeps(t: Track, r: Request)
    requires Represents(t, r.at) && Spaced(t.all)
    ensures Represents(Guarded(t, r), r.at) && Spaced(Guarded(t, r).all)
  {
    hide Prune, Represents, Spaced;
    var tested := Next(t, Test(r.at));
    SameAnswer(t, r.at, r.at);
    NextRepresents(t, Test(r.at), r.at);
    NextRepresents(tested, Answered(r.status, r.at), r.at);
    if |tested.kept| < LIMIT {
      SortedHistory(t, r.at);
      RecordedIsSpaced(t.all, r.at);
      NoneIsSpaced();
    }
  }

  lemma SortedHistory(t: Track, now: real)
    requires Represents(t, now)
    ensures Sorted(t.all, now)
  {
  }

  lemma NoneIsSpaced()
    ensures Spaced([])
  {
  }

  lemma RecordedIsSpaced(all: Stamps, now: real)
    requires Sorted(all, now) && Spaced(all) && |Prune(all, now)| < LIMIT
    ensures Spaced(all + [now])
  {
    PruneIsSuffix(all, now, now);
    var more := all + [now];
    forall i | 0 <= i < |more| - LIMIT
      ensures more[i + LIMIT] - more[i] >= WINDOW
    {
      assert more[i] == all[i];
      if i + LIMIT < |all| { assert more[i + LIMIT] == all[i + LIMIT]; }
    }
  }

  /** Whether request `i` is let in, told by the requests alone: fewer than 30 of those let in
      before it failed in the last minute with no success let in behind them. */
  predicate PassesGuard(requests: seq<Request>, i: nat)
    requires i < |requests|
    decreases i, 1
  {
    |Failed(requests, i, requests[i].at)| < 30
  }

  /** The first `n` requests that were let in and failed in the minute before `now`, with no
      success among those let in behind them. */
  function Failed(requests: seq<Request>, n: nat, now: real): set<nat>
    requires n <= |requests|
    decreases n, 0
  {
    set j: nat | j < n && PassesGuard(requests, j) && requests[j].status == 401 && now - requests[j].at < 60.0
                 && forall k :: j < k < n && PassesGuard(requests, k) ==> requests[k].status >= 400
  }

  lemma FailedStep(requests: seq<Request>, n: nat, now: real)
    requires n < |requests|
    ensures n !in Failed(requests, n, now)
    ensures var r, before := requests[n], Failed(requests, n, now);
            Failed(requests, n + 1, now) ==
            if !PassesGuard(requests, n) then before
            else if r.status == 401 && now - r.at < 60.0 then before + {n}
            else if r.status < 400 then {}
            else before
  {
    hide PassesGuard;
  }

  lemma {:induction false} FailedAreCounted(requests: seq<Request>, n: nat, now: real)
    requires n <= |requests|
    requires forall i, j :: 0 <= i < j < |requests| ==> requests[i].at <= requests[j].at
    ensures |Prune(Serve(requests[..n]).all, now)| == |Failed(requests, n, now)|
    decreases n, 0
  {
    if n == 0 {
      assert Failed(requests, 0, now) == {};
    } else {
      var r, t := requests[n - 1], Serve(requests[..n - 1]);
      assert requests[..n][..n - 1] == requests[..n - 1];
      assert Serve(requests[..n]) == Guarded(t, r);
      FailedAreCounted(requests, n - 1, now);
      FailedStep(requests, n - 1, now);
      PassesMeansCounted(requests, n - 1);
      PruneConcat(t.all, [r.at], now);
      PruneOne(r.at, now);
      PruneNone(now);
      hide Prune, Serve, Failed, PassesGuard;
    }
  }

  lemma {:induction false} PassesMeansCounted(requests: seq<Request>, i: nat)
    requires i < |requests|
    requires forall i, j :: 0 <= i < j < |requests| ==> requests[i].at <= requests[j].at
    ensures |Prune(Serve(requests[..i]).kept, requests[i].at)| < LIMIT <==> PassesGuard(requests, i)
    decreases i, 1
  {
    FailedAreCounted(requests, i, requests[i].at);
    FailuresAreSpaced(requests[..i], requests[i].at);
    SameAnswer(Serve(requests[..i]), requests[i].at, requests[i].at);
  }

  /** Main result on requests one after the other: each is let in exactly if, of those let in
      before, fewer than 30 failed in the minute before it and behind the last success. */
  lemma PassesExactly(requests: seq<Request>, i: nat)
    requires i < |requests|
    requires forall i, j :: 0 <= i < j < |requests| ==> requests[i].at <= requests[j].at
    ensures var t := Serve(requests[..i]);
            && (|Prune(t.kept, requests[i].at)| < LIMIT <==> |Failed(requests, i, requests[i].at)| < 30)
            && (PassesGuard(requests, i) && requests[i].status == 401 ==>
                  Serve(requests[..i + 1]).all == t.all + [requests[i].at])
            && (!PassesGuard(requests, i) || (requests[i].status >= 400 && requests[i].status != 401) ==>
                  Serve(requests[..i + 1]).all == t.all)
            && (PassesGuard(requests, i) && requests[i].status < 400 ==> Serve(requests[..i + 1]).all == [])
  {
    PassesMeansCounted(requests, i);
    assert requests[..i + 1][..i] == requests[..i];
    assert Serve(requests[..i + 1]) == Guarded(Serve(requests[..i]), requests[i]);
    hide Prune, Serve, Failed;
  }

  // ---------------------------------------------------------------- the module's state

  class Limiter {
    var failures: map<string, Stamps>

    constructor ()
      ensures failures == map[]
    {
      failures := map[];
    }

    method PruneLoop(stamps: Stamps, now: real) returns (recent: Stamps)
      ensures recent == Prune(stamps, now)
    {
      recent := [];
      var i := 0;
      while i < |stamps|
        invariant 0 <= i <= |stamps|
        invariant recent + Prune(stamps[i..], now) == Prune(stamps, now)
      {
        hide Prune;
        PruneFirst(stamps, i, now);
        ghost var rest := Prune(stamps[i + 1..], now);
        if now - stamps[i] < WINDOW {
          MoveOver(recent, stamps[i], rest);
          recent := recent + [stamps[i]];
        }
        i := i + 1;
      }
      assert stamps[i..] == [];
      assert Prune([], now) == [] && recent + [] == recent;
    }

    method TooManyFailures(client: string, now: real) returns (refused: bool)
      modifies this
      ensures Get(failures, client) == Kept(Get(old(failures), client), Test(now))
      ensures failures - {client} == old(failures) - {client}
      ensures refused == (|Get(failures, client)| >= LIMIT)
    {
      var recent := PruneLoop(Get(failures, client), now);
      failures := failures[client := recent];
      return |recent| >= LIMIT;
    }

    method RecordResult(client: string, status: int, now: real)
      modifies this
      ensures Get(failures, client) == Kept(Get(old(failures), client), Answered(status, now))
      ensures failures - {client} == old(failures) - {client}
    {
      if status == 401 {
        var values := PruneLoop(Get(failures, client), now);
        values := values + [now];
        failures := failures[client := if |values| > KEEP then values[|values| - KEEP..] else values];
      } else if status < 400 {
        failures := failures - {client};
      }
    }

    /** The guard around a handler that would answer `status`; `all` stands for the client's
        failures since its last success, which nobody stores. */
    method Guard(client: string, r: Request, ghost all: Stamps) returns (status: int)
      modifies this
      ensures Get(failures, client) == Guarded(Track(Get(old(failures), client), all), r).kept
      ensures failures - {client} == old(failures) - {client}
      ensures status == if |Prune(Get(old(failures), client), r.at)| >= LIMIT then 429 else r.status
    {
      var refused := TooManyFailures(client, r.at);
      if refused { return 429; }
      RecordResult(client, r.status, r.at);
      return r.status;
    }
  }
}
