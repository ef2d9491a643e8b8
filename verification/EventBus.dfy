/** The polled event bus: a bounded ring of numbered events read from a cursor. */
module EventBus {
  import opened Text

  datatype Event<D> = Event(id: nat, data: D)

  const CAPACITY: nat := 1000
  const MAX_PAGE: nat := 500

  datatype Bus<D> = Bus(seq_: nat, ring: seq<Event<D>>)

  function Emit<D>(b: Bus<D>, data: D): Bus<D>
  {
    var longer := b.ring + [Event(b.seq_ + 1, data)];
    Bus(b.seq_ + 1, if |longer| > CAPACITY then longer[1..] else longer)
  }

  function PageSize(limit: int): nat
  {
    if limit < 1 then 1 else if limit > MAX_PAGE then MAX_PAGE else limit
  }

  function Newer<D>(events: seq<Event<D>>, afterId: int): seq<Event<D>>
  {
    if events == [] then []
    else (if events[0].id > afterId then [events[0]] else []) + Newer(events[1..], afterId)
  }

  function Page<D>(b: Bus<D>, afterId: int, limit: int): seq<Event<D>>
  {
    var newer := Newer(b.ring, afterId);
    if |newer| > PageSize(limit) then newer[..PageSize(limit)] else newer
  }

  // ---------------------------------------------------------------- what the ring holds

  /** All events ever emitted, oldest first, and the bus they leave behind. */
  function History<D>(data: seq<D>): seq<Event<D>>
  {
    seq(|data|, i requires 0 <= i < |data| => Event(i + 1, data[i]))
  }

  function EmitAll<D>(data: seq<D>): Bus<D>
  {
    if data == [] then Bus(0, []) else Emit(EmitAll(data[..|data| - 1]), data[|data| - 1])
  }

  /** The ring always is the newest end of the history, ids without a gap up to `seq_`. */
  lemma {:induction false} RingIsNewest<D>(data: seq<D>)
    ensures EmitAll(data).seq_ == |data|
    ensures EmitAll(data).ring == History(data)[|data| - Min(|data|, CAPACITY)..]
    decreases |data|
  {
    if data != [] {
      var n := |data| - 1;
      RingIsNewest(data[..n]);
      assert History(data) == History(data[..n]) + [Event(n + 1, data[n])];
    }
  }

  /** Among consecutive ids, those after a cursor are a suffix. */
  lemma {:induction false} NewerIsSuffix<D>(events: seq<Event<D>>, first: nat, afterId: int)
    requires forall i :: 0 <= i < |events| ==> events[i].id == first + i
    ensures Newer(events, afterId) == events[Min(|events|, if afterId < first then 0 else afterId - first + 1)..]
    decreases |events|
  {
    if events != [] {
      NewerIsSuffix(events[1..], first + 1, afterId);
    }
  }

  /** Where in the history the events behind a cursor begin that the ring still holds. A
      negative cursor is one at the start, and behind the end there is nothing. */
  function Oldest(n: nat, afterId: int): (start: nat)
    ensures start <= n
  {
    if afterId >= n then n else if n - afterId <= CAPACITY then Max0(afterId) else Max0(n - CAPACITY)
  }

  lemma HistoryIds<D>(data: seq<D>)
    ensures |History(data)| == |data| && forall i :: 0 <= i < |data| ==> History(data)[i].id == i + 1
  {
  }

  lemma NewerInHistory<D>(data: seq<D>, afterId: int)
    ensures Newer(EmitAll(data).ring, afterId) == History(data)[Oldest(|data|, afterId)..]
  {
    hide EmitAll, Newer, History;
    RingIsNewest(data);
    HistoryIds(data);
    var n, all := |data|, History(data);
    var lost := n - Min(n, CAPACITY);
    var skipped := Min(n - lost, if afterId < lost + 1 then 0 else afterId - lost);
    assert lost + skipped == Oldest(n, afterId);
    hide Oldest;
    NewerIsSuffix(all[lost..], lost + 1, afterId);
    SliceOfSlice(all, lost, skipped);
  }

  lemma PageOfNewer<D>(b: Bus<D>, afterId: int, limit: int)
    ensures var newer := Newer(b.ring, afterId); Page(b, afterId, limit) == newer[..Min(|newer|, PageSize(limit))]
  {
  }

  /** A page is a stretch of the history, whatever the cursor: from behind it, or from the
      oldest event still held if it is further back, and nothing if it is at the end or, as
      after a restart of the server, beyond it. */
  lemma PageIsStretch<D>(data: seq<D>, afterId: int, limit: int)
    ensures var n, start := |data|, Oldest(|data|, afterId);
            Page(EmitAll(data), afterId, limit) == History(data)[start..start + Min(n - start, PageSize(limit))]
  {
    hide EmitAll, Newer, History, Oldest, PageSize, Page;
    HistoryIds(data);
    NewerInHistory(data, afterId);
    PageOfNewer(EmitAll(data), afterId, limit);
    var n, start := |data|, Oldest(|data|, afterId);
    TakeOfDrop(History(data), start, Min(n - start, PageSize(limit)));
  }

  /** The same in numbers: the page begins behind the cursor, but with one of the last 1,000
      events, and has from one up to 500 of them, as the limit says, if there are so many. */
  lemma PageInNumbers<D>(data: seq<D>, afterId: int, limit: int)
    ensures var n, page := |data|, Page(EmitAll(data), afterId, limit);
            var from_ := if afterId >= n then n else if afterId < n - 1000 then n - 1000 else afterId;
            var start := if from_ < 0 then 0 else from_;
            var size := if limit < 1 then 1 else if 500 < limit then 500 else limit;
            && |page| == (if n - start < size then n - start else size)
            && forall i :: 0 <= i < |page| ==> page[i] == Event(start + i + 1, data[start + i])
  {
    hide EmitAll, Newer, Page;
    PageIsStretch(data, afterId, limit);
  }

  lemma TakeOfDrop<T>(s: seq<T>, a: nat, b: nat)
    requires a + b <= |s|
    ensures s[a..][..b] == s[a..a + b]
  {
  }

  lemma SliceOfSlice<T>(s: seq<T>, a: nat, b: nat)
    requires a + b <= |s|
    ensures s[a..][b..] == s[a + b..]
  {
  }

  // ---------------------------------------------------------------- a polling reader

  datatype Act<D> = Emits(data: D) | Polls(limit: int)

  /** What this server has emitted, and what the reader has received from it since it came
      with the cursor `base` - 0, or the id it had got to with a server before. */
  datatype World<D> = World(data: seq<D>, received: seq<Event<D>>, base: nat)

  /** The reader's cursor: the id of the last event it received. */
  function Cursor<D>(w: World<D>): nat
  {
    if w.received == [] then w.base else w.received[|w.received| - 1].id
  }

  function Act1<D>(w: World<D>, act: Act<D>): World<D>
  {
    match act
    case Emits(d) => w.(data := w.data + [d])
    case Polls(limit) => w.(received := w.received + Page(EmitAll(w.data), Cursor(w), limit))
  }

  function ActAll<D>(acts: seq<Act<D>>, base: nat): World<D>
  {
    if acts == [] then World([], [], base) else Act1(ActAll(acts[..|acts| - 1], base), acts[|acts| - 1])
  }

  /** The reader was never more than the ring's capacity behind when it polled. */
  ghost predicate KeptUp<D>(acts: seq<Act<D>>, base: nat)
  {
    forall i :: 0 <= i < |acts| && acts[i].Polls? ==>
      var w := ActAll(acts[..i], base);
      |w.data| - Cursor(w) <= CAPACITY
  }

  /** Every event behind the first cursor exactly once and in order, up to some point; none
      while that cursor is ahead of all events. */
  ghost predicate Complete<D>(w: World<D>)
  {
    if w.base + |w.received| <= |w.data| then w.received == History(w.data)[w.base..w.base + |w.received|]
    else w.received == []
  }

  /** How many events the reader is behind; negative while its cursor is ahead. */
  function Behind<D>(w: World<D>): int
  {
    |w.data| - w.base - |w.received|
  }

  lemma EmitKeeps<D>(w: World<D>, d: D)
    requires Complete(w)
    ensures Complete(Act1(w, Emits(d)))
  {
    assert History(w.data + [d]) == History(w.data) + [Event(|w.data| + 1, d)];
  }

  lemma CursorIsCount<D>(w: World<D>)
    requires Complete(w)
    ensures Cursor(w) == w.base + |w.received|
  {
  }

  /** A poll loses nothing exactly when the reader is at most 1000 events behind, and then
      it advances by the whole backlog or a full page. */
  lemma PollKeeps<D>(w: World<D>, limit: int)
    requires Complete(w)
    ensures var after := Act1(w, Polls(limit));
            && (Complete(after) <==> Behind(w) <= CAPACITY)
            && (Behind(w) <= CAPACITY ==> |after.received| == |w.received| + Min(Max0(Behind(w)), PageSize(limit)))
  {
    hide Page, EmitAll, PageSize, Complete;
    var at := w.base + |w.received|;
    CursorIsCount(w);
    PageIsStretch(w.data, at, limit);
    var page := Page(EmitAll(w.data), at, limit);
    assert Act1(w, Polls(limit)) == w.(received := w.received + page);
    if Behind(w) <= CAPACITY {
      StretchExtends(w, page);
    } else {
      SkipsAhead(w, page, limit);
    }
  }

  lemma StretchExtends<D>(w: World<D>, page: seq<Event<D>>)
    requires Complete(w) && |page| <= Max0(Behind(w))
    requires var at := Min(|w.data|, w.base + |w.received|); page == History(w.data)[at..at + |page|]
    ensures Complete(w.(received := w.received + page))
  {
    var all, at := History(w.data), w.base + |w.received|;
    if Behind(w) <= 0 {
      assert w.received + page == w.received;
    } else {
      assert all[w.base..at] + all[at..at + |page|] == all[w.base..at + |page|];
    }
  }

  lemma SkipsAhead<D>(w: World<D>, page: seq<Event<D>>, limit: int)
    requires Complete(w) && Behind(w) > CAPACITY
    requires var start := |w.data| - CAPACITY; page == History(w.data)[start..start + Min(CAPACITY, PageSize(limit))]
    ensures !Complete(w.(received := w.received + page))
  {
    var all, n := History(w.data), |w.received|;
    var after, start := w.(received := w.received + page), |w.data| - CAPACITY;
    HistoryIds(w.data);
    assert PageSize(limit) >= 1;
    hide History, PageSize;
    assert after.received[n] == page[0] == all[start];
    if w.base + |after.received| <= |w.data| {
      assert all[w.base..w.base + |after.received|][n] == all[w.base + n];
    }
  }

  /** Main result: over every run of emits and polls in which the reader keeps up, it has
      received all events behind its first cursor up to some point - each once, in order,
      none missing. A cursor from before a restart hides as many events of the new server. */
  lemma {:induction false} ReaderMissesNothing<D>(acts: seq<Act<D>>, base: nat)
    requires KeptUp(acts, base)
    ensures var w := ActAll(acts, base); w.base == base && Complete(w) && Cursor(w) == base + |w.received|
    decreases |acts|
  {
    if acts != [] {
      var before, act := acts[..|acts| - 1], acts[|acts| - 1];
      forall i | 0 <= i < |before| && before[i].Polls?
        ensures var w := ActAll(before[..i], base); |w.data| - Cursor(w) <= CAPACITY
      {
        assert before[i] == acts[i] && before[..i] == acts[..i];
      }
      ReaderMissesNothing(before, base);
      hide Complete, Cursor, Page;
      match act
      case Emits(d) =>
        EmitKeeps(ActAll(before, base), d);
        CursorIsCount(ActAll(acts, base));
      case Polls(limit) =>
        PollKeeps(ActAll(before, base), limit);
        CursorIsCount(ActAll(acts, base));
    }
  }

  /** The returned `lastId` is no cursor: polling on from it skips events exactly when the
      page was cut short. It is smaller than the cursor exactly when that is ahead of all
      events, which tells a reader of a restart. */
  lemma LastIdSkips<D>(w: World<D>, limit: int)
    requires Complete(w) && Behind(w) <= CAPACITY
    ensures var lastId, cursor := EmitAll(w.data).seq_, Cursor(Act1(w, Polls(limit)));
            && (lastId > cursor <==> Behind(w) > PageSize(limit))
            && (lastId < cursor <==> Behind(w) < 0)
  {
    hide Page, PageSize;
    RingIsNewest(w.data);
    PollKeeps(w, limit);
    CursorIsCount(Act1(w, Polls(limit)));
  }

  lemma NewerFirst<D>(events: seq<Event<D>>, afterId: int)
    requires events != []
    ensures Newer(events, afterId)
         == (if events[0].id > afterId then [events[0]] else []) + Newer(events[1..], afterId)
  {
  }

  // ---------------------------------------------------------------- the module's state

  class EventBus<D> {
    var events: seq<Event<D>>
    var eventSeq: nat

    constructor ()
      ensures View() == EmitAll([])
    {
      events, eventSeq := [], 0;
    }

    ghost function View(): Bus<D>
      reads this
    {
      Bus(eventSeq, events)
    }

    method EmitEvent(data: D) returns (id: nat)
      modifies this
      ensures View() == Emit(old(View()), data) && id == eventSeq == old(eventSeq) + 1
    {
      eventSeq := eventSeq + 1;
      events := events + [Event(eventSeq, data)];
      if |events| > CAPACITY { events := events[1..]; }
      return eventSeq;
    }

    method Poll(afterId: int, limit: int) returns (page: seq<Event<D>>, lastId: nat)
      ensures page == Page(View(), afterId, limit) && lastId == eventSeq
    {
      var size := if limit < 1 then 1 else if limit > MAX_PAGE then MAX_PAGE else limit;
      var items, i := [], 0;
      while i < |events|
        invariant 0 <= i <= |events|
        invariant items + Newer(events[i..], afterId) == Newer(events, afterId)
      {
        hide Newer;
        assert events[i..][0] == events[i] && events[i..][1..] == events[i + 1..];
        NewerFirst(events[i..], afterId);
        ghost var rest := Newer(events[i + 1..], afterId);
        if events[i].id > afterId {
          assert items + ([events[i]] + rest) == (items + [events[i]]) + rest;
          items := items + [events[i]];
        } else {
          assert [] + rest == rest;
        }
        i := i + 1;
      }
      assert events[i..] == [];
      assert items + [] == items;
      return if |items| > size then items[..size] else items, eventSeq;
    }
  }
}
