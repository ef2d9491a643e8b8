/** A debug session: the reader thread that sorts adapter messages into events and
    responses, and the requests that wait for their response. */
module DapSession {
  import opened Text
  import opened DapFraming

  /** What `json.loads` and the look at the message's type make of a payload. Unusable is
      a value on which that look raises (no object, or an unhashable request_seq); a reply
      without request_seq is filed under -1. */
  datatype Decoded<M> = NotJson | Event(message: M) | Reply(requestSeq: int, message: M) | Unusable

  datatype Session<M> = Session(events: seq<M>, responses: map<int, M>, alive: bool)

  const EVENT_LIMIT := 500
  const EVENT_KEEP := 300

  function Push<M>(events: seq<M>, message: M): seq<M>
  {
    var longer := events + [message];
    if |longer| > EVENT_LIMIT then longer[|longer| - EVENT_KEEP..] else longer
  }

  function Handle<M>(s: Session<M>, d: Decoded<M>): Session<M>
  {
    match d
    case NotJson => s
    case Event(m) => s.(events := Push(s.events, m))
    case Reply(k, m) => s.(responses := s.responses[k := m])
    case Unusable => s.(alive := false)
  }

  /** Messages handled one after the other until one of them stops the thread. */
  function Absorb<M>(decode: bytes -> Decoded<M>, s: Session<M>, payloads: seq<bytes>): Session<M>
    decreases |payloads|
  {
    if payloads == [] || !s.alive then s
    else Absorb(decode, Handle(s, decode(payloads[0])), payloads[1..])
  }

  /** Session and buffer once the framing `p` has been worked off. */
  function Outcome<M>(decode: bytes -> Decoded<M>, s: Session<M>, p: Parsed): (Session<M>, bytes)
  {
    var after := Absorb(decode, s, p.payloads);
    if after.alive && p.alive then (after, p.rest) else (after.(alive := false), [])
  }

  lemma {:induction false} AbsorbAppend<M>(decode: bytes -> Decoded<M>, s: Session<M>, a: seq<bytes>, b: seq<bytes>)
    ensures Absorb(decode, s, a + b) == Absorb(decode, Absorb(decode, s, a), b)
    decreases |a|
  {
    if a == [] {
      assert a + b == b;
    } else if s.alive {
      AbsorbAppend(decode, Handle(s, decode(a[0])), a[1..], b);
      assert (a + b)[1..] == a[1..] + b;
    }
  }

  lemma AbsorbFirst<M>(decode: bytes -> Decoded<M>, s: Session<M>, first: bytes, rest: Parsed)
    requires s.alive
    ensures Outcome(decode, s, Parsed([first], [], true).Then(rest))
         == if Handle(s, decode(first)).alive then Outcome(decode, Handle(s, decode(first)), rest)
            else (Handle(s, decode(first)), [])
  {
    var all := Parsed([first], [], true).Then(rest).payloads;
    assert all[0] == first && all[1..] == rest.payloads;
    var h := Handle(s, decode(first));
    assert Absorb(decode, s, all) == Absorb(decode, h, rest.payloads);
    assert !h.alive ==> Absorb(decode, h, rest.payloads) == h && h.(alive := false) == h;
  }

  lemma OutcomeNothing<M>(decode: bytes -> Decoded<M>, s: Session<M>, rest: bytes)
    requires s.alive
    ensures Outcome(decode, s, Parsed([], rest, true)) == (s, rest)
    ensures Outcome(decode, s, Parsed([], [], false)) == (s.(alive := false), [])
  {
  }

  /** Two stretches of framing, worked off one after the other. */
  lemma OutcomeThen<M>(decode: bytes -> Decoded<M>, s: Session<M>, p: Parsed, q: Parsed)
    requires s.alive && p.alive
    ensures var (mid, rest) := Outcome(decode, s, p);
            Outcome(decode, s, p.Then(q)) == if mid.alive then Outcome(decode, mid, q) else (mid, [])
  {
    AbsorbAppend(decode, s, p.payloads, q.payloads);
  }

  /** The parse of one byte more, in terms of the reader's buffer. */
  lemma OutcomeByte<M>(decode: bytes -> Decoded<M>, s: Session<M>, stream: bytes, i: nat)
    requires i < |stream|
    requires s.alive && Outcome(decode, s, Parse(stream[..i])).0.alive
    ensures var (mid, buffer) := Outcome(decode, s, Parse(stream[..i]));
            Outcome(decode, s, Parse(stream[..i + 1])) == Outcome(decode, mid, Drain(buffer + [stream[i]]))
  {
    hide Parse, Drain;
    var seen := Parse(stream[..i]);
    ByteStep(stream[..i], stream[i]);
    assert stream[..i] + [stream[i]] == stream[..i + 1];
    OutcomeThen(decode, s, seen, Drain(seen.rest + [stream[i]]));
  }

  /** A thread that stopped, or came to the end, left what the whole stream would. */
  lemma OutcomeStopped<M>(decode: bytes -> Decoded<M>, s: Session<M>, stream: bytes, i: nat)
    requires i <= |stream|
    requires s.alive && (i == |stream| || !Outcome(decode, s, Parse(stream[..i])).0.alive)
    ensures Outcome(decode, s, Parse(stream)) == Outcome(decode, s, Parse(stream[..i]))
  {
    hide Parse;
    var p := Parse(stream[..i]);
    assert stream[..i] + stream[i..] == stream;
    if i == |stream| {
      assert stream[..i] == stream;
    } else {
      ParseResumes(stream[..i], stream[i..]);
      if p.alive {
        OutcomeThen(decode, s, p, Parse(p.rest + stream[i..]));
      }
    }
  }

  class DapReader<M> {
    const decode: bytes -> Decoded<M>
    var buf: bytes
    var events: seq<M>
    var responses: map<int, M>
    var alive: bool
    var seq_: nat

    constructor (decode: bytes -> Decoded<M>)
      ensures this.decode == decode && seq_ == 0
      ensures State() == Session([], map[], true) && buf == []
    {
      this.decode := decode;
      buf, events, responses, alive, seq_ := [], [], map[], true, 0;
    }

    ghost function State(): Session<M>
      reads this
    {
      Session(events, responses, alive)
    }

    /** The header loop of the reader. */
    method ScanHeader(header: bytes) returns (length: Option<int>)
      ensures length == DeclaredLength(header)
    {
      var lines, n := Split(header, CRLF), 0;
      var i := 0;
      while i < |lines|
        invariant 0 <= i <= |lines|
        invariant LengthOf(lines, 0) == LengthOf(lines[i..], n)
      {
        assert lines[i..][1..] == lines[i + 1..];
        if FIELD <= Lower(lines[i]) {
          match Decimal.ParseInt(FieldValue(lines[i])) {
            case None => return None;
            case Some(value) => n := value;
          }
        }
        i := i + 1;
      }
      return Some(n);
    }

    method Dispatch(payload: bytes)
      requires alive
      modifies this`events, this`responses, this`alive
      ensures State() == Handle(old(State()), decode(payload))
    {
      match decode(payload) {
        case NotJson =>
        case Event(m) =>
          events := events + [m];
          if |events| > EVENT_LIMIT { events := events[|events| - EVENT_KEEP..]; }
        case Reply(k, m) => responses := responses[k := m];
        case Unusable => alive := false;
      }
    }

    /** One turn of the reader's outer loop: a byte, then every frame it completes. */
    method ReadByte(b: char)
      requires alive
      modifies this`buf, this`events, this`responses, this`alive
      ensures (State(), buf) == Outcome(decode, old(State()), Drain(old(buf) + [b]))
    {
      hide Absorb;
      buf := buf + [b];
      ghost var whole, start := buf, State();
      while true
        invariant alive && Outcome(decode, State(), Drain(buf)) == Outcome(decode, start, Drain(whole))
        decreases |buf|
      {
        OutcomeNothing(decode, State(), buf);
        match Find(buf, DELIMITER) {
          case None => break;
          case Some(i) =>
            var header, rest := buf[..i], buf[i + 4..];
            var length := ScanHeader(header);
            if length.None? {
              alive, buf := false, [];
              break;
            }
            if |rest| < length.value { break; }
            var cut := Cut(|rest|, length.value);
            AbsorbFirst(decode, State(), rest[..cut], Drain(rest[cut..]));
            buf := rest[cut..];
            Dispatch(rest[..cut]);
            if !alive {
              buf := [];
              break;
            }
        }
      }
    }

    /** The thread's whole life on a stream that ends with the adapter: what it leaves is
        what a one-shot parse of the stream leaves. */
    method Read(stream: bytes)
      requires alive && buf == []
      modifies this`buf, this`events, this`responses, this`alive
      ensures (State(), buf) == Outcome(decode, old(State()), Parse(stream))
    {
      ghost var start := State();
      var i := 0;
      assert Parse(stream[..0]) == NOTHING;
      while i < |stream| && alive
        invariant 0 <= i <= |stream|
        invariant (State(), buf) == Outcome(decode, start, Parse(stream[..i]))
      {
        OutcomeByte(decode, start, stream, i);
        ReadByte(stream[i]);
        i := i + 1;
      }
      OutcomeStopped(decode, start, stream, i);
    }

    /** A request takes the next sequence number; `encode` stands for json.dumps. */
    method Send(encode: nat -> bytes) returns (number: nat, frame: bytes)
      modifies this`seq_
      ensures number == seq_ == old(seq_) + 1
      ensures forall before, after :: Parse(before).alive && Parse(before).rest == [] ==>
        Parse(before + (frame + after)) == Parse(before).Then(Parsed([encode(number)], [], true).Then(Parse(after)))
    {
      seq_ := seq_ + 1;
      number, frame := seq_, Frame(encode(seq_));
      forall before, after | Parse(before).alive && Parse(before).rest == []
        ensures Parse(before + (frame + after)) ==
                  Parse(before).Then(Parsed([encode(number)], [], true).Then(Parse(after)))
      {
        ParseResumes(before, frame + after);
        assert [] + (frame + after) == frame + after;
        FrameParses(encode(number), after);
      }
    }

    /** One look of a waiting request; a response found is taken out. */
    method Take(number: int) returns (response: Option<M>)
      modifies this`responses
      ensures response == if number in old(responses) then Some(old(responses)[number]) else None
      ensures responses == old(responses) - {number}
    {
      if number in responses {
        response, responses := Some(responses[number]), responses - {number};
      } else {
        response := None;
      }
    }

    method TakeEvents() returns (taken: seq<M>)
      modifies this`events
      ensures taken == old(events) && events == []
    {
      taken, events := events, [];
    }
  }

  // ---------------------------------------------------------------- events between two polls

  function PushAll<M>(arrivals: seq<M>): seq<M>
  {
    if arrivals == [] then [] else Push(PushAll(arrivals[..|arrivals| - 1]), arrivals[|arrivals| - 1])
  }

  /** How many of `n` arrivals since the last poll are still there. */
  function Kept(n: nat): (k: nat)
    ensures k <= n && k <= EVENT_LIMIT && (k == n <==> n <= EVENT_LIMIT)
  {
    if n <= EVENT_LIMIT then n else EVENT_KEEP + (n - EVENT_LIMIT - 1) % (EVENT_LIMIT + 1 - EVENT_KEEP)
  }

  lemma PushKeepsNewest<M>(before: seq<M>, x: M)
    ensures var n := |before|;
            Push(before[n - Kept(n)..], x) == (before + [x])[n + 1 - Kept(n + 1)..]
  {
    hide Kept;
    var n := |before|;
    KeptStep(n);
    assert before[n - Kept(n)..] + [x] == (before + [x])[n - Kept(n)..];
  }

  /** A poll finds the newest arrivals in order, all of them as long as there were no more
      than 500 since the poll before; beyond that 201 at a time are lost from the front. */
  lemma {:induction false} PollFindsNewest<M>(arrivals: seq<M>)
    ensures PushAll(arrivals) == arrivals[|arrivals| - Kept(|arrivals|)..]
    decreases |arrivals|
  {
    hide Kept, Push;
    if arrivals != [] {
      var n := |arrivals| - 1;
      var before, last := arrivals[..n], arrivals[n];
      assert PushAll(arrivals) == Push(PushAll(before), last);
      hide PushAll;
      PollFindsNewest(before);
      PushKeepsNewest(before, last);
      assert before + [last] == arrivals;
    }
  }

  lemma KeptStep(n: nat)
    ensures Kept(n + 1) == if Kept(n) + 1 > EVENT_LIMIT then EVENT_KEEP else Kept(n) + 1
  {
    if n > EVENT_LIMIT {
      var a := n - EVENT_LIMIT - 1;
      assert a % 201 == 200 ==> (a + 1) % 201 == 0;
      assert a % 201 < 200 ==> (a + 1) % 201 == a % 201 + 1;
    }
  }

  // ---------------------------------------------------------------- what the reader leaves

  /** The messages in front of the first unusable one. */
  function Usable<M>(decode: bytes -> Decoded<M>, payloads: seq<bytes>): seq<Decoded<M>>
  {
    if payloads == [] || decode(payloads[0]).Unusable? then []
    else [decode(payloads[0])] + Usable(decode, payloads[1..])
  }

  function EventsIn<M>(messages: seq<Decoded<M>>): seq<M>
  {
    if messages == [] then []
    else (if messages[0].Event? then [messages[0].message] else []) + EventsIn(messages[1..])
  }

  /** The last of the messages that is a reply to request `k`. */
  function LastIn<M>(messages: seq<Decoded<M>>, k: int): Option<M>
  {
    if messages == [] then None
    else if LastIn(messages[1..], k).Some? then LastIn(messages[1..], k)
    else if messages[0].Reply? && messages[0].requestSeq == k then Some(messages[0].message)
    else None
  }

  /** Under every number stands the last of the messages that replies to it, else what stood
      there before. */
  ghost predicate Files<M>(before: map<int, M>, messages: seq<Decoded<M>>, after: map<int, M>)
  {
    forall k ::
      && (k in after <==> k in before || LastIn(messages, k).Some?)
      && (k in after ==> after[k] == if LastIn(messages, k).Some? then LastIn(messages, k).value else before[k])
  }

  lemma PushNext<M>(arrivals: seq<M>, m: M)
    ensures PushAll(arrivals + [m]) == Push(PushAll(arrivals), m)
  {
    assert (arrivals + [m])[..|arrivals|] == arrivals;
  }

  /** `arrivals` are the events since the last poll. */
  lemma {:induction false} AbsorbEvents<M>(decode: bytes -> Decoded<M>, s: Session<M>, payloads: seq<bytes>,
                                           arrivals: seq<M>)
    requires s.alive && s.events == PushAll(arrivals)
    ensures var after := Absorb(decode, s, payloads);
            && (after.alive <==> |Usable(decode, payloads)| == |payloads|)
            && after.events == PushAll(arrivals + EventsIn(Usable(decode, payloads)))
    decreases |payloads|
  {
    hide Push;
    if payloads == [] {
      assert arrivals + [] == arrivals;
    } else {
      var d, rest := decode(payloads[0]), Usable(decode, payloads[1..]);
      if d.Unusable? {
        assert arrivals + [] == arrivals;
      } else {
        var recent := if d.Event? then [d.message] else [];
        if d.Event? { PushNext(arrivals, d.message); } else { assert arrivals + recent == arrivals; }
        AbsorbEvents(decode, Handle(s, d), payloads[1..], arrivals + recent);
        assert ([d] + rest)[1..] == rest;
        assert arrivals + (recent + EventsIn(rest)) == arrivals + recent + EventsIn(rest);
        hide PushAll, Absorb;
      }
    }
  }

  lemma {:induction false} AbsorbReplies<M>(decode: bytes -> Decoded<M>, s: Session<M>, payloads: seq<bytes>)
    requires s.alive
    ensures Files(s.responses, Usable(decode, payloads), Absorb(decode, s, payloads).responses)
    decreases |payloads|
  {
    hide Push, EventsIn, PushAll;
    if payloads != [] {
      var d, rest := decode(payloads[0]), Usable(decode, payloads[1..]);
      if !d.Unusable? {
        AbsorbReplies(decode, Handle(s, d), payloads[1..]);
        assert ([d] + rest)[1..] == rest;
      }
    }
  }

  lemma {:induction false} UsableMeaning<M>(decode: bytes -> Decoded<M>, payloads: seq<bytes>)
    ensures var n := |Usable(decode, payloads)|;
            && n <= |payloads| && (n < |payloads| ==> decode(payloads[n]).Unusable?)
            && forall i :: 0 <= i < n ==>
                 !decode(payloads[i]).Unusable? && Usable(decode, payloads)[i] == decode(payloads[i])
    decreases |payloads|
  {
    if payloads != [] && !decode(payloads[0]).Unusable? { UsableMeaning(decode, payloads[1..]); }
  }

  /** Main result on the reader's life: what it has parsed counts up to the first unusable
      payload, with which it dies, as it does with an unreadable header. Of the events the
      newest are kept in order, each reply stands under its number until the next to the
      same, and a payload that is not JSON leaves no trace. */
  lemma ReadMeaning<M>(decode: bytes -> Decoded<M>, s: Session<M>, p: Parsed, arrivals: seq<M>)
    requires s.alive && s.events == PushAll(arrivals)
    ensures var (after, rest) := Outcome(decode, s, p);
            var messages := Usable(decode, p.payloads);
            var events := arrivals + EventsIn(messages);
            && (after.alive <==> p.alive && forall i :: 0 <= i < |p.payloads| ==> !decode(p.payloads[i]).Unusable?)
            && rest == (if after.alive then p.rest else [])
            && after.events == events[|events| - Kept(|events|)..]
            && Files(s.responses, messages, after.responses)
  {
    hide Kept, PushAll, Absorb, Usable, EventsIn, Files;
    AbsorbEvents(decode, s, p.payloads, arrivals);
    AbsorbReplies(decode, s, p.payloads);
    UsableMeaning(decode, p.payloads);
    PollFindsNewest(arrivals + EventsIn(Usable(decode, p.payloads)));
  }

  // ---------------------------------------------------------------- requests and responses

  /** Steps of requesters and reader: `Ask` sends, `Arrive` is a handled message, `Look` is
      one look of a request that still waits, `GiveUp` is its timeout, `Poll` asks for events. */
  datatype Act<M> = Ask | Arrive(message: Decoded<M>) | Look(number: int) | GiveUp(number: int) | Poll

  /** `polled` are the answers to the polls so far. */
  datatype Exchange<M> = Exchange(seq_: nat, waiting: set<int>, session: Session<M>, answers: map<int, M>,
                                  polled: seq<seq<M>>)

  function Do<M>(x: Exchange<M>, act: Act<M>): Exchange<M>
  {
    match act
    case Ask => x.(seq_ := x.seq_ + 1, waiting := x.waiting + {x.seq_ + 1})
    case Arrive(d) => if x.session.alive then x.(session := Handle(x.session, d)) else x
    case Look(k) =>
      if k in x.waiting && k in x.session.responses then
        x.(waiting := x.waiting - {k},
           session := x.session.(responses := x.session.responses - {k}),
           answers := x.answers[k := x.session.responses[k]])
      else x
    case GiveUp(k) => x.(waiting := x.waiting - {k})
    case Poll => x.(polled := x.polled + [x.session.events], session := x.session.(events := []))
  }

  function DoAll<M>(acts: seq<Act<M>>): Exchange<M>
  {
    if acts == [] then Exchange(0, {}, Session([], map[], true), map[], [])
    else Do(DoAll(acts[..|acts| - 1]), acts[|acts| - 1])
  }

  /** The reply to request `k` that stands when `acts` are over: the last that arrived while
      the reader was alive. */
  ghost predicate LastReply<M(!new)>(acts: seq<Act<M>>, k: int, m: M)
  {
    exists i :: 0 <= i < |acts| && acts[i] == Arrive(Reply(k, m)) && DoAll(acts[..i]).session.alive
             && forall j, m' :: i < j < |acts| && acts[j] == Arrive(Reply(k, m')) ==> !DoAll(acts[..j]).session.alive
  }

  /** A request was answered by what stood for its number at one of its looks. */
  ghost predicate Answered<M(!new)>(acts: seq<Act<M>>, k: int, m: M)
  {
    exists n :: 0 <= n < |acts| && acts[n] == Look(k) && LastReply(acts[..n], k, m)
  }

  /** A reply to request `k` reached the live reader. */
  ghost predicate Filed<M(!new)>(acts: seq<Act<M>>, k: int)
  {
    exists i, m :: 0 <= i < |acts| && acts[i] == Arrive(Reply(k, m)) && DoAll(acts[..i]).session.alive
  }

  ghost predicate Orderly<M(!new)>(acts: seq<Act<M>>, x: Exchange<M>)
  {
    && (forall k :: k in x.waiting ==> 1 <= k <= x.seq_)
    && (forall k :: k in x.answers ==> 1 <= k <= x.seq_ && k !in x.waiting)
    && (forall k :: k in x.session.responses ==> LastReply(acts, k, x.session.responses[k]))
    && (forall k :: k in x.answers ==> Answered(acts, k, x.answers[k]))
    && (forall k :: (k in x.waiting || k > x.seq_) && Filed(acts, k) ==> k in x.session.responses)
  }

  lemma FiledBefore<M(!new)>(acts: seq<Act<M>>, act: Act<M>, k: int)
    requires Filed(acts + [act], k)
    ensures || Filed(acts, k)
            || (act.Arrive? && act.message.Reply? && act.message.requestSeq == k && DoAll(acts).session.alive)
  {
    var more := acts + [act];
    var i, m :| 0 <= i < |more| && more[i] == Arrive(Reply(k, m)) && DoAll(more[..i]).session.alive;
    if i < |acts| {
      assert acts[i] == more[i] && acts[..i] == more[..i];
    } else {
      assert more[..i] == acts;
    }
  }

  lemma LastReplyStays<M(!new)>(acts: seq<Act<M>>, act: Act<M>, k: int, m: M)
    requires LastReply(acts, k, m)
    requires !(act.Arrive? && act.message.Reply? && act.message.requestSeq == k) || !DoAll(acts).session.alive
    ensures LastReply(acts + [act], k, m)
  {
    var more := acts + [act];
    var i :| 0 <= i < |acts| && acts[i] == Arrive(Reply(k, m)) && DoAll(acts[..i]).session.alive
          && forall j, m' :: i < j < |acts| && acts[j] == Arrive(Reply(k, m')) ==> !DoAll(acts[..j]).session.alive;
    assert more[i] == acts[i] && more[..i] == acts[..i];
    assert more[..|acts|] == acts;
    forall j, m' | i < j < |more| && more[j] == Arrive(Reply(k, m'))
      ensures !DoAll(more[..j]).session.alive
    {
      if j < |acts| { assert more[j] == acts[j] && more[..j] == acts[..j]; }
    }
  }

  lemma LastReplyArrives<M(!new)>(acts: seq<Act<M>>, k: int, m: M)
    requires DoAll(acts).session.alive
    ensures LastReply(acts + [Arrive(Reply(k, m))], k, m)
  {
    var more := acts + [Arrive(Reply(k, m))];
    assert more[|acts|] == Arrive(Reply(k, m)) && more[..|acts|] == acts;
  }

  /** At most one reply stands for a number. */
  lemma LastReplyIsUnique<M(!new)>(acts: seq<Act<M>>, k: int, m: M, m': M)
    requires LastReply(acts, k, m) && LastReply(acts, k, m')
    ensures m == m'
  {
    var i :| 0 <= i < |acts| && acts[i] == Arrive(Reply(k, m)) && DoAll(acts[..i]).session.alive
          && forall j, n :: i < j < |acts| && acts[j] == Arrive(Reply(k, n)) ==> !DoAll(acts[..j]).session.alive;
    var i' :| 0 <= i' < |acts| && acts[i'] == Arrive(Reply(k, m')) && DoAll(acts[..i']).session.alive
           && forall j, n :: i' < j < |acts| && acts[j] == Arrive(Reply(k, n)) ==> !DoAll(acts[..j]).session.alive;
  }

  lemma AnsweredStays<M(!new)>(acts: seq<Act<M>>, act: Act<M>, k: int, m: M)
    requires Answered(acts, k, m)
    ensures Answered(acts + [act], k, m)
  {
    var n :| 0 <= n < |acts| && acts[n] == Look(k) && LastReply(acts[..n], k, m);
    var more := acts + [act];
    assert more[n] == acts[n] && more[..n] == acts[..n];
  }

  lemma AnsweredNow<M(!new)>(acts: seq<Act<M>>, k: int, m: M)
    requires LastReply(acts, k, m)
    ensures Answered(acts + [Look(k)], k, m)
  {
    var more := acts + [Look(k)];
    assert more[|acts|] == Look(k) && more[..|acts|] == acts;
  }

  lemma RepliesStep<M(!new)>(before: seq<Act<M>>, act: Act<M>)
    requires Orderly(before, DoAll(before))
    ensures var y := Do(DoAll(before), act);
            forall k :: k in y.session.responses ==> LastReply(before + [act], k, y.session.responses[k])
  {
    hide LastReply, Answered, Filed;
    var x, y := DoAll(before), Do(DoAll(before), act);
    forall k | k in y.session.responses
      ensures LastReply(before + [act], k, y.session.responses[k])
    {
      if x.session.alive && act.Arrive? && act.message.Reply? && act.message.requestSeq == k {
        LastReplyArrives(before, k, act.message.message);
      } else {
        LastReplyStays(before, act, k, x.session.responses[k]);
      }
    }
  }

  lemma AnswersStep<M(!new)>(before: seq<Act<M>>, act: Act<M>)
    requires Orderly(before, DoAll(before))
    ensures var y := Do(DoAll(before), act);
            forall k :: k in y.answers ==> Answered(before + [act], k, y.answers[k])
  {
    hide LastReply, Answered, Filed;
    var x, y := DoAll(before), Do(DoAll(before), act);
    forall k | k in y.answers
      ensures Answered(before + [act], k, y.answers[k])
    {
      if k in x.answers && !(act == Look(k) && k in x.waiting) {
        AnsweredStays(before, act, k, x.answers[k]);
      } else {
        AnsweredNow(before, k, y.answers[k]);
      }
    }
  }

  lemma FilingStep<M(!new)>(before: seq<Act<M>>, act: Act<M>)
    requires Orderly(before, DoAll(before))
    ensures var y := Do(DoAll(before), act);
            forall k :: (k in y.waiting || k > y.seq_) && Filed(before + [act], k) ==> k in y.session.responses
  {
    hide LastReply, Answered, Filed;
    var y := Do(DoAll(before), act);
    forall k | (k in y.waiting || k > y.seq_) && Filed(before + [act], k)
      ensures k in y.session.responses
    {
      FiledBefore(before, act, k);
    }
  }

  lemma NumbersStep<M(!new)>(before: seq<Act<M>>, act: Act<M>)
    requires Orderly(before, DoAll(before))
    ensures var y := Do(DoAll(before), act);
            && (forall k :: k in y.waiting ==> 1 <= k <= y.seq_)
            && (forall k :: k in y.answers ==> 1 <= k <= y.seq_ && k !in y.waiting)
  {
    hide LastReply, Answered, Filed;
  }

  /** In every run, numbers are handed out in order, no request is answered twice, and the
      answer to a request is the last reply to it that the live reader had filed. */
  lemma {:induction false} ExchangeIsOrderly<M(!new)>(acts: seq<Act<M>>)
    ensures Orderly(acts, DoAll(acts))
    decreases |acts|
  {
    if acts == [] {
      assert forall k :: !Filed(acts, k);
    } else {
      var before, act := acts[..|acts| - 1], acts[|acts| - 1];
      ExchangeIsOrderly(before);
      hide Do, LastReply, Answered, Filed;
      assert acts == before + [act];
      RepliesStep(before, act);
      AnswersStep(before, act);
      FilingStep(before, act);
      NumbersStep(before, act);
    }
  }

  /** Requests sent so far. */
  function Asks<M>(acts: seq<Act<M>>): nat
  {
    if acts == [] then 0 else Asks(acts[..|acts| - 1]) + (if acts[|acts| - 1].Ask? then 1 else 0)
  }

  /** Request `k` gave up at some time after it was sent. */
  ghost predicate GaveUp<M>(acts: seq<Act<M>>, k: int)
  {
    exists i :: 0 <= i < |acts| && acts[i].GiveUp? && acts[i].number == k && k <= Asks(acts[..i])
  }

  lemma GaveUpStep<M>(before: seq<Act<M>>, act: Act<M>, k: int)
    ensures GaveUp(before + [act], k) <==>
              GaveUp(before, k) || (act.GiveUp? && act.number == k && k <= Asks(before))
  {
    hide Asks;
    var acts := before + [act];
    assert acts[..|before|] == before && acts[|before|] == act;
    forall i | 0 <= i < |before|
      ensures acts[i] == before[i] && acts[..i] == before[..i]
    {
    }
  }

  lemma {:induction false} AsksGrow<M>(acts: seq<Act<M>>, n: nat)
    requires n <= |acts|
    ensures Asks(acts[..n]) <= Asks(acts)
    decreases |acts| - n
  {
    if n < |acts| {
      AsksGrow(acts, n + 1);
      assert acts[..n + 1][..n] == acts[..n];
    } else {
      assert acts[..n] == acts;
    }
  }

  lemma NotYetGivenUp<M>(acts: seq<Act<M>>, k: int)
    ensures k > Asks(acts) ==> !GaveUp(acts, k)
  {
    hide Asks;
    forall i | 0 <= i < |acts|
      ensures Asks(acts[..i]) <= Asks(acts)
    {
      AsksGrow(acts, i);
    }
  }

  /** Over every run: the requests that wait are those sent, not answered and not given up. */
  lemma {:induction false} WaitingIsExact<M(!new)>(acts: seq<Act<M>>, k: int)
    ensures var x := DoAll(acts);
            && x.seq_ == Asks(acts)
            && (k in x.waiting <==> 1 <= k <= Asks(acts) && k !in x.answers && !GaveUp(acts, k))
    decreases |acts|
  {
    if acts != [] {
      var before, act := acts[..|acts| - 1], acts[|acts| - 1];
      assert acts == before + [act];
      WaitingIsExact(before, k);
      ExchangeIsOrderly(before);
      GaveUpStep(before, act, k);
      NotYetGivenUp(before, k);
      hide GaveUp, LastReply, Answered, Filed, Handle;
    }
  }

  /** The reader has not yet met an unusable message. */
  predicate NoneUnusable<M>(acts: seq<Act<M>>)
  {
    forall i :: 0 <= i < |acts| ==> !(acts[i].Arrive? && acts[i].message.Unusable?)
  }

  /** The event messages that have reached the live reader since the last poll, in order. */
  function Fresh<M>(acts: seq<Act<M>>): seq<M>
  {
    if acts == [] then []
    else
      var before, last := acts[..|acts| - 1], acts[|acts| - 1];
      if last.Poll? then []
      else if last.Arrive? && last.message.Event? && NoneUnusable(before) then Fresh(before) + [last.message.message]
      else Fresh(before)
  }

  lemma {:induction false} FreshAreKept<M>(acts: seq<Act<M>>)
    ensures DoAll(acts).session.alive <==> NoneUnusable(acts)
    ensures DoAll(acts).session.events == PushAll(Fresh(acts))
    decreases |acts|
  {
    hide Push;
    if acts != [] {
      var before, act := acts[..|acts| - 1], acts[|acts| - 1];
      FreshAreKept(before);
      assert acts == before + [act];
      NoneUnusableStep(before, act);
      if act.Arrive? && act.message.Event? { PushNext(Fresh(before), act.message.message); }
      hide NoneUnusable, PushAll;
      assert PushAll<M>([]) == [] by { EmptyPush<M>(); }
    }
  }

  lemma EmptyPush<M>()
    ensures PushAll<M>([]) == []
  {
  }

  lemma NoneUnusableStep<M>(before: seq<Act<M>>, act: Act<M>)
    ensures NoneUnusable(before + [act]) <==> NoneUnusable(before) && !(act.Arrive? && act.message.Unusable?)
  {
    var more := before + [act];
    assert more[|before|] == act;
    assert forall i :: 0 <= i < |before| ==> more[i] == before[i];
  }

  /** Main result on events, over every run: a poll is answered with the newest of the events
      that have reached the reader since the last one, up to its death if it has died: all of
      them up to 500, and beyond that from 300 to 500. They are gone then; all else stays. */
  lemma PollIsExact<M>(acts: seq<Act<M>>)
    ensures var x, after, recent := DoAll(acts), DoAll(acts + [Poll]), Fresh(acts);
            var n := if |recent| <= 500 then |recent| else 300 + (|recent| - 501) % 201;
            && n <= |recent| && after.polled == x.polled + [recent[|recent| - n..]]
            && after.session == Session([], x.session.responses, NoneUnusable(acts))
            && after.seq_ == x.seq_ && after.waiting == x.waiting && after.answers == x.answers
  {
    hide PushAll, NoneUnusable, Fresh;
    FreshAreKept(acts);
    PollFindsNewest(Fresh(acts));
    assert (acts + [Poll])[..|acts|] == acts;
  }

  /** A waiting request that looks is answered exactly when a reply to it has reached the
      live reader, and then with the last such reply. */
  lemma LookIsExact<M(!new)>(acts: seq<Act<M>>, k: int)
    requires k in DoAll(acts).waiting
    ensures var after := DoAll(acts + [Look(k)]);
            && (k in after.answers <==> Filed(acts, k))
            && (k in after.answers ==> LastReply(acts, k, after.answers[k]))
            && (k in after.answers ==>
                  && after.waiting == DoAll(acts).waiting - {k}
                  && after.session.responses == DoAll(acts).session.responses - {k})
            && (k !in after.answers ==> after == DoAll(acts))
  {
    ExchangeIsOrderly(acts);
    var x, more := DoAll(acts), acts + [Look(k)];
    assert more[..|acts|] == acts;
    assert k !in x.answers;
    if k in x.session.responses {
      StandingIsFiled(acts, k, x.session.responses[k]);
    }
  }

  lemma StandingIsFiled<M(!new)>(acts: seq<Act<M>>, k: int, m: M)
    requires LastReply(acts, k, m)
    ensures Filed(acts, k)
  {
  }
}
