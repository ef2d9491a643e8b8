/** The bounded store of responses that makes a repeated request replay the first answer.
    Requests come one after the other: lookup, handler and store of one request are not
    interleaved with those of another. */
module IdempotencyStore {
  import opened Text

  datatype Json = Boolean(value: bool) | Atom(text: string) | Object(fields: map<string, Json>)

  /** `placed` is the entry's place in the order of the dictionary, in which keys stand as they
      were first set. */
  datatype Entry = Entry(expiresAt: real, placed: nat, response: Json)

  type Store = map<string, Entry>

  const TTL: real := 86400.0
  const MAX_ENTRIES: nat := 500
  const REPLAY_FLAG := "idempotentReplay"

  function Encode(scope: string, key: string): string
  {
    scope + "\n" + key
  }

  /** A request without key, or with an empty one, does not take part. */
  function Slot(scope: string, key: Option<string>): Option<string>
  {
    if key.None? || key.value == [] then None else Some(Encode(scope, key.value))
  }

  function Flagged(fields: map<string, Json>): map<string, Json>
  {
    fields[REPLAY_FLAG := Boolean(true)]
  }

  /** The answer found, and the store without an entry found to be expired. */
  function Lookup(s: Store, slot: Option<string>, now: real): (Option<map<string, Json>>, Store)
  {
    if slot.None? || slot.value !in s then (None, s)
    else
      var e := s[slot.value];
      if now > e.expiresAt then (None, s - {slot.value})
      else if e.response.Object? then (Some(Flagged(e.response.fields)), s)
      else (None, s)
  }

  /** The order a stable sort by expiry gives. */
  predicate Older(a: Entry, b: Entry)
  {
    a.expiresAt < b.expiresAt || (a.expiresAt == b.expiresAt && a.placed < b.placed)
  }

  /** `victims` are the first `n` entries in that order. */
  ghost predicate Oldest(s: Store, victims: set<string>, n: nat)
  {
    && victims <= s.Keys && |victims| == n
    && forall v, r :: v in victims && r in s && r !in victims ==> !Older(s[r], s[v])
  }

  /** A key that is set again keeps its place; a new one goes behind all others. */
  ghost predicate Places(rest: Store, slot: string, place: nat)
  {
    if slot in rest then place == rest[slot].placed else forall k :: k in rest ==> rest[k].placed < place
  }

  function Surplus(s: Store): nat
  {
    if |s| >= MAX_ENTRIES then |s| - MAX_ENTRIES + 1 else 0
  }

  /** `victims` make room for an entry at `place`. */
  ghost predicate Exchanged(s: Store, after: Store, victims: set<string>, slot: string, e: Entry)
  {
    Oldest(s, victims, Surplus(s)) && Places(s - victims, slot, e.placed) && after == (s - victims)[slot := e]
  }

  ghost predicate Stored(s: Store, after: Store, slot: string, expiresAt: real, response: Json)
  {
    exists victims, place :: Exchanged(s, after, victims, slot, Entry(expiresAt, place, response))
  }

  // ---------------------------------------------------------------- one request

  datatype Outcome = Raises | Returns(response: Json)

  datatype Request = Request(scope: string, key: Option<string>, lookupAt: real, storeAt: real, outcome: Outcome)

  datatype Answer = Replayed(fields: map<string, Json>) | Ran(response: Json) | Failed

  function SlotOf(r: Request): Option<string>
  {
    Slot(r.scope, r.key)
  }

  /** The handler runs and leaves something to replay. */
  predicate Writes(r: Request, a: Answer)
  {
    SlotOf(r).Some? && a.Ran? && a.response.Object?
  }

  ghost predicate Serves(s: Store, r: Request, after: Store, a: Answer)
  {
    var (hit, looked) := Lookup(s, SlotOf(r), r.lookupAt);
    if hit.Some? then a == Replayed(hit.value) && after == looked
    else match r.outcome
      case Raises => a == Failed && after == looked
      case Returns(response) =>
        && a == Ran(response)
        && if Writes(r, a) then Stored(looked, after, SlotOf(r).value, r.storeAt + TTL, response)
           else after == looked
  }

  // ---------------------------------------------------------------- keys

  /** Scopes without a newline and keys can be told apart in the combined key. */
  lemma EncodeInjective(scope: string, key: string, scope': string, key': string)
    requires '\n' !in scope && '\n' !in scope'
    requires Encode(scope, key) == Encode(scope', key')
    ensures scope == scope' && key == key'
  {
    var a, b := Encode(scope, key), Encode(scope', key');
    assert a[|scope|] == '\n' == b[|scope'|];
    assert |scope| == |scope'|;
    assert scope == a[..|scope|] && scope' == b[..|scope|];
    assert key == a[|scope| + 1..] && key' == b[|scope| + 1..];
  }

  // ---------------------------------------------------------------- size

  lemma OneMore<T>(a: set<T>, x: T)
    ensures |a + {x}| == |a| + (if x in a then 0 else 1)
  {
    if x in a { assert a + {x} == a; }
  }

  lemma SizeAfter(s: Store, victims: set<string>, slot: string, e: Entry)
    requires victims <= s.Keys
    ensures |(s - victims)[slot := e]| <= |s| - |victims| + 1
  {
    var after := (s - victims)[slot := e];
    SubsetSize(victims, s.Keys);
    OneMore(s.Keys - victims, slot);
    assert after.Keys == (s.Keys - victims) + {slot};
    assert |after| == |after.Keys|;
  }

  /** Whatever was loaded, one store brings the map within its bound. */
  lemma StoreIsBounded(s: Store, after: Store, slot: string, expiresAt: real, response: Json)
    requires Stored(s, after, slot, expiresAt, response)
    ensures |after| <= MAX_ENTRIES && |after| <= |s| + 1
    ensures slot in after && after[slot].expiresAt == expiresAt && after[slot].response == response
  {
    var victims, place :| Exchanged(s, after, victims, slot, Entry(expiresAt, place, response));
    SizeAfter(s, victims, slot, Entry(expiresAt, place, response));
  }

  /** Where no two entries share a place, which ones go is determined. */
  lemma OldestAreUnique(s: Store, victims: set<string>, victims': set<string>, n: nat)
    requires forall j, k :: j in s && k in s && s[j].placed == s[k].placed ==> j == k
    requires Oldest(s, victims, n) && Oldest(s, victims', n)
    ensures victims == victims'
  {
    var a, b := victims - victims', victims' - victims;
    forall v, w | v in a && w in b
      ensures v == w
    {
      Tied(s, victims, victims', n, v, w);
    }
    hide Oldest;
    assert a == {} || b == {} by {
      if v :| v in a { assert forall w :: w in b ==> w == v; }
    }
    assert victims <= victims' || victims' <= victims;
    SameSize(victims, victims');
  }

  lemma Tied(s: Store, victims: set<string>, victims': set<string>, n: nat, v: string, w: string)
    requires Oldest(s, victims, n) && Oldest(s, victims', n)
    requires v in victims - victims' && w in victims' - victims
    ensures s[v].placed == s[w].placed
  {
    assert !Older(s[w], s[v]) && !Older(s[v], s[w]);
  }

  lemma SameSize<T>(a: set<T>, b: set<T>)
    requires |a| == |b| && (a <= b || b <= a)
    ensures a == b
  {
    if a <= b {
      SubsetSize(a, b);
      assert b - a == {};
    } else {
      SubsetSize(b, a);
    }
  }

  // ---------------------------------------------------------------- what a request gets

  /** A replay has the first response's fields as they were, and the flag besides. */
  ghost predicate Repeats(replay: map<string, Json>, first: map<string, Json>)
  {
    && replay.Keys == first.Keys + {"idempotentReplay"}
    && replay["idempotentReplay"] == Boolean(true)
    && forall k :: k in first && k != "idempotentReplay" ==> replay[k] == first[k]
  }

  lemma FlaggedRepeats(fields: map<string, Json>)
    ensures Repeats(Flagged(fields), fields)
  {
  }

  /** The store has made room for the slot: the entry is there, the others are old ones, and
      those dropped expire no later than those kept. */
  ghost predicate Keeps(s: Store, after: Store, slot: string, expiresAt: real, response: Json)
  {
    && slot in after && after[slot].expiresAt == expiresAt && after[slot].response == response
    && (forall k :: k in after && k != slot ==> k in s && after[k] == s[k])
    && (|s| < 500 ==> after.Keys == s.Keys + {slot})
    && (500 <= |s| ==> 499 <= |after| <= 500)
    && DropsFirst(s, s.Keys - after.Keys, after.Keys * s.Keys - {slot})
  }

  /** Entries dropped expire no later than those kept. */
  ghost predicate DropsFirst(s: Store, dropped: set<string>, kept: set<string>)
    requires dropped <= s.Keys && kept <= s.Keys
  {
    forall v, k :: v in dropped && k in kept ==> s[v].expiresAt <= s[k].expiresAt
  }

  lemma StoredKeeps(s: Store, after: Store, slot: string, expiresAt: real, response: Json)
    requires Stored(s, after, slot, expiresAt, response)
    ensures Keeps(s, after, slot, expiresAt, response)
  {
    hide Oldest, Places, Keeps, DropsFirst;
    var victims, place :| Exchanged(s, after, victims, slot, Entry(expiresAt, place, response));
    RoomIsExact(s, victims, slot, Entry(expiresAt, place, response));
    VictimsExpireFirst(s, victims, Surplus(s));
    RestKeeps(s, victims, slot, Entry(expiresAt, place, response));
  }

  /** Where a stored entry stands: a new key behind all others, one that is set again, and did
      not have to make room for itself, where it stood. */
  lemma StoredPlace(s: Store, after: Store, slot: string, expiresAt: real, response: Json)
    requires Stored(s, after, slot, expiresAt, response)
    ensures slot in after
    ensures slot in s && |s| < 500 ==> after[slot].placed == s[slot].placed
    ensures slot !in s ==> forall k :: k in after && k != slot ==> after[k].placed < after[slot].placed
  {
    var victims, place :| Exchanged(s, after, victims, slot, Entry(expiresAt, place, response));
    if |s| < 500 { assert victims == {}; }
    hide Oldest;
  }

  lemma RestKeeps(s: Store, victims: set<string>, slot: string, e: Entry)
    requires victims <= s.Keys && DropsFirst(s, victims, s.Keys - victims)
    requires var after := (s - victims)[slot := e];
             (|s| < 500 ==> after.Keys == s.Keys + {slot}) && (500 <= |s| ==> 499 <= |after| <= 500)
    ensures Keeps(s, (s - victims)[slot := e], slot, e.expiresAt, e.response)
  {
    var after := (s - victims)[slot := e];
    Narrower(s, victims, s.Keys - victims, s.Keys - after.Keys, after.Keys * s.Keys - {slot});
    hide DropsFirst;
  }

  lemma Narrower(s: Store, dropped: set<string>, kept: set<string>, dropped': set<string>, kept': set<string>)
    requires dropped' <= dropped <= s.Keys && kept' <= kept <= s.Keys && DropsFirst(s, dropped, kept)
    ensures DropsFirst(s, dropped', kept')
  {
  }

  lemma RoomIsExact(s: Store, victims: set<string>, slot: string, e: Entry)
    requires Oldest(s, victims, Surplus(s))
    ensures var after := (s - victims)[slot := e];
            && (|s| < 500 ==> after.Keys == s.Keys + {slot})
            && (500 <= |s| ==> 499 <= |after| <= 500)
  {
    var after := (s - victims)[slot := e];
    assert |s| == |s.Keys| && |after| == |after.Keys| && victims <= s.Keys && |victims| == Surplus(s);
    hide Oldest;
    assert after.Keys == (s.Keys - victims) + {slot};
    SubsetSize(victims, s.Keys);
    OneMore(s.Keys - victims, slot);
    if |s| < 500 { assert victims == {}; }
  }

  lemma VictimsExpireFirst(s: Store, victims: set<string>, n: nat)
    requires Oldest(s, victims, n)
    ensures victims <= s.Keys && DropsFirst(s, victims, s.Keys - victims)
  {
    forall v, k | v in victims && k in s.Keys - victims
      ensures s[v].expiresAt <= s[k].expiresAt
    {
      assert !Older(s[k], s[v]);
    }
  }

  /** What one request comes to. Without a key its handler runs, and nothing is looked up or
      stored. With one, a dictionary stored under it and not expired is repeated and the
      handler does not run; else the handler runs on a store without the expired entry, and
      what it returns is stored for a day if it is a dictionary. */
  lemma RequestMeaning(s: Store, r: Request, after: Store, a: Answer)
    requires Serves(s, r, after, a)
    ensures r.key.None? || r.key == Some("") ==>
              after == s && a == if r.outcome.Raises? then Failed else Ran(r.outcome.response)
    ensures r.key.Some? && r.key.value != "" ==>
              var slot := r.scope + "\n" + r.key.value;
              var kept := if slot in s && s[slot].expiresAt < r.lookupAt then s - {slot} else s;
              if slot in kept && kept[slot].response.Object? then
                a.Replayed? && Repeats(a.fields, s[slot].response.fields) && after == s
              else if r.outcome.Raises? then a == Failed && after == kept
              else if !r.outcome.response.Object? then a == Ran(r.outcome.response) && after == kept
              else
                && a == Ran(r.outcome.response)
                && Keeps(kept, after, slot, r.storeAt + 86400.0, r.outcome.response)
  {
    hide Keeps, Repeats, Stored, Lookup;
    if SlotOf(r).Some? {
      var slot := SlotOf(r).value;
      var looked := Lookup(s, SlotOf(r), r.lookupAt).1;
      LookupMeaning(s, slot, r.lookupAt);
      if Writes(r, a) && Stored(looked, after, slot, r.storeAt + TTL, a.response) {
        StoredKeeps(looked, after, slot, r.storeAt + TTL, a.response);
      }
    } else {
      NoLookup(s, r.lookupAt);
    }
  }

  lemma LookupMeaning(s: Store, slot: string, now: real)
    ensures var (hit, kept) := Lookup(s, Some(slot), now);
            && kept == (if slot in s && s[slot].expiresAt < now then s - {slot} else s)
            && (hit.Some? <==> slot in kept && kept[slot].response.Object?)
            && (hit.Some? ==> Repeats(hit.value, s[slot].response.fields))
  {
    if slot in s && s[slot].response.Object? { FlaggedRepeats(s[slot].response.fields); }
    hide Repeats;
  }

  lemma NoLookup(s: Store, now: real)
    ensures Lookup(s, None, now) == (None, s)
  {
  }

  // ---------------------------------------------------------------- survival

  /** Other entries that are not older than the one in `slot`. */
  ghost function Rivals(s: Store, slot: string): set<string>
    requires slot in s
  {
    set k | k in s && k != slot && !Older(s[k], s[slot])
  }

  /** An entry among the victims has 499 others that are not older. */
  lemma VictimHasRivals(s: Store, victims: set<string>, slot: string)
    requires Oldest(s, victims, Surplus(s)) && slot in victims
    ensures |Rivals(s, slot)| >= MAX_ENTRIES - 1
  {
    SubsetSize(victims, s.Keys);
    assert |s.Keys - victims| == MAX_ENTRIES - 1;
    assert s.Keys - victims <= Rivals(s, slot);
    SubsetSize(s.Keys - victims, Rivals(s, slot));
  }

  lemma NewRivals(s: Store, victims: set<string>, slot: string, other: string, e: Entry)
    requires slot in s && slot !in victims && other != slot
    ensures var after := (s - victims)[other := e]; |Rivals(after, slot)| <= |Rivals(s, slot)| + 1
  {
    var after := (s - victims)[other := e];
    assert Rivals(after, slot) <= Rivals(s, slot) + {other};
    SubsetSize(Rivals(after, slot), Rivals(s, slot) + {other});
    OneMore(Rivals(s, slot), other);
  }

  /** A store of another key drops an entry only if 499 others are not older. */
  lemma StoreKeeps(s: Store, after: Store, slot: string, other: string, expiresAt: real, response: Json)
    requires slot in s && other != slot && Stored(s, after, other, expiresAt, response)
    requires |Rivals(s, slot)| < MAX_ENTRIES - 1
    ensures slot in after && after[slot] == s[slot]
    ensures |Rivals(after, slot)| <= |Rivals(s, slot)| + 1
  {
    hide Rivals;
    var victims, place :| Exchanged(s, after, victims, other, Entry(expiresAt, place, response));
    if slot in victims { VictimHasRivals(s, victims, slot); }
    NewRivals(s, victims, slot, other, Entry(expiresAt, place, response));
  }

  /** Dropping an expired entry elsewhere adds no rival. */
  lemma LookupKeeps(s: Store, slot: string, other: Option<string>, now: real)
    requires slot in s && (other == Some(slot) ==> now <= s[slot].expiresAt)
    ensures var after := Lookup(s, other, now).1;
            slot in after && after[slot] == s[slot] && |Rivals(after, slot)| <= |Rivals(s, slot)|
  {
    var after := Lookup(s, other, now).1;
    SubsetSize(Rivals(after, slot), Rivals(s, slot));
  }

  // ---------------------------------------------------------------- runs

  /** A run: `stores[i]` is the store before request `i`. */
  ghost predicate Session(stores: seq<Store>, requests: seq<Request>, answers: seq<Answer>)
  {
    && |stores| == |requests| + 1 && |answers| == |requests|
    && forall i :: 0 <= i < |requests| ==> Serves(stores[i], requests[i], stores[i + 1], answers[i])
  }

  /** Store times do not decrease, nor does what was loaded expire later. A loaded entry without
      dictionary keeps its place when its key is stored, so then they must increase. */
  ghost predicate Ticking(loaded: Store, requests: seq<Request>)
  {
    && (forall i, j :: 0 <= i < j < |requests| ==> requests[i].storeAt <= requests[j].storeAt)
    && (requests != [] ==> forall k :: k in loaded ==> loaded[k].expiresAt <= requests[0].storeAt + TTL)
    && (Strict(loaded, requests) || AllObjects(loaded))
  }

  ghost predicate Strict(loaded: Store, requests: seq<Request>)
  {
    && (forall i, j :: 0 <= i < j < |requests| ==> requests[i].storeAt < requests[j].storeAt)
    && (requests != [] ==> forall k :: k in loaded ==> loaded[k].expiresAt < requests[0].storeAt + TTL)
  }

  ghost predicate AllObjects(s: Store)
  {
    forall k :: k in s ==> s[k].response.Object?
  }

  /** Requests from `i` up to `j` whose handler ran and left a response. */
  function CountWrites(requests: seq<Request>, answers: seq<Answer>, i: nat, j: nat): (n: nat)
    requires i <= j <= |requests| && |answers| == |requests|
    decreases j
  {
    if i == j then 0
    else CountWrites(requests, answers, i, j - 1) + (if Writes(requests[j - 1], answers[j - 1]) then 1 else 0)
  }

  /** What a stored entry would be is newer than everything in the store. */
  ghost predicate NewestNext(s: Store, r: Request)
  {
    && (forall k :: k in s ==> s[k].expiresAt <= r.storeAt + TTL)
    && (AllObjects(s) || forall k :: k in s ==> s[k].expiresAt < r.storeAt + TTL)
  }

  lemma {:induction false} StoreIsOlder(stores: seq<Store>, requests: seq<Request>, answers: seq<Answer>, i: nat)
    requires Session(stores, requests, answers) && Ticking(stores[0], requests) && i < |requests|
    ensures NewestNext(stores[i], requests[i])
    ensures AllObjects(stores[0]) ==> AllObjects(stores[i])
    ensures Strict(stores[0], requests) ==>
              forall k :: k in stores[i] ==> stores[i][k].expiresAt < requests[i].storeAt + TTL
    decreases i
  {
    hide Serves, Session, AllObjects, Strict, Ticking;
    Lengths(stores, requests, answers);
    if i == 0 {
      LoadedIsOlder(stores[0], requests);
    } else {
      var s, r, after, now := stores[i - 1], requests[i - 1], stores[i], requests[i];
      StoreIsOlder(stores, requests, answers, i - 1);
      RequestIsServed(stores, requests, answers, i - 1);
      AfterServing(s, r, after, answers[i - 1]);
      TimesStep(stores[0], requests, i);
      LaterStore(s, r, after, now);
    }
  }

  lemma Lengths(stores: seq<Store>, requests: seq<Request>, answers: seq<Answer>)
    requires Session(stores, requests, answers)
    ensures |stores| == |requests| + 1 && |answers| == |requests|
  {
  }

  lemma LoadedIsOlder(loaded: Store, requests: seq<Request>)
    requires Ticking(loaded, requests) && requests != []
    ensures NewestNext(loaded, requests[0])
    ensures Strict(loaded, requests) ==> forall k :: k in loaded ==> loaded[k].expiresAt < requests[0].storeAt + TTL
  {
  }

  lemma RequestIsServed(stores: seq<Store>, requests: seq<Request>, answers: seq<Answer>, i: nat)
    requires Session(stores, requests, answers) && i < |requests|
    ensures Serves(stores[i], requests[i], stores[i + 1], answers[i])
  {
  }

  lemma TimesStep(loaded: Store, requests: seq<Request>, i: nat)
    requires Ticking(loaded, requests) && 0 < i < |requests|
    ensures requests[i - 1].storeAt <= requests[i].storeAt
    ensures Strict(loaded, requests) ==> requests[i - 1].storeAt < requests[i].storeAt
    ensures Strict(loaded, requests) || AllObjects(loaded)
  {
  }

  lemma LaterStore(s: Store, r: Request, after: Store, now: Request)
    requires forall k :: k in after ==>
               || (k in s && after[k] == s[k])
               || (after[k].expiresAt == r.storeAt + TTL && after[k].response.Object?)
    requires (forall k :: k in s ==> s[k].expiresAt <= r.storeAt + TTL) && r.storeAt <= now.storeAt
    ensures forall k :: k in after ==> after[k].expiresAt <= now.storeAt + TTL
    ensures r.storeAt < now.storeAt ==> forall k :: k in after ==> after[k].expiresAt < now.storeAt + TTL
    ensures AllObjects(s) ==> AllObjects(after)
  {
  }

  lemma StoredEntries(s: Store, after: Store, slot: string, expiresAt: real, response: Json)
    requires Stored(s, after, slot, expiresAt, response)
    ensures slot in after && after[slot].expiresAt == expiresAt && after[slot].response == response
    ensures forall k :: k in after && k != slot ==> k in s && after[k] == s[k]
  {
    hide Oldest, Places;
  }

  lemma LookupEntries(s: Store, slot: Option<string>, now: real)
    ensures var looked := Lookup(s, slot, now).1;
            |looked| <= |s| && forall k :: k in looked ==> k in s && looked[k] == s[k]
  {
    var looked := Lookup(s, slot, now).1;
    SubsetSize(looked.Keys, s.Keys);
    assert |looked| == |looked.Keys| && |s| == |s.Keys|;
  }

  /** Every entry behind a request was there before, or is its own. */
  lemma AfterServing(s: Store, r: Request, after: Store, a: Answer)
    requires Serves(s, r, after, a)
    ensures forall k :: k in after ==>
              || (k in s && after[k] == s[k])
              || (after[k].expiresAt == r.storeAt + TTL && after[k].response.Object?)
    ensures !Writes(r, a) ==> |after| <= |s|
  {
    hide Stored, Lookup;
    var looked := Lookup(s, SlotOf(r), r.lookupAt).1;
    LookupEntries(s, SlotOf(r), r.lookupAt);
    if Writes(r, a) && after != looked { StoredEntries(looked, after, SlotOf(r).value, r.storeAt + TTL, a.response); }
  }

  /** A store puts its entry behind all others. */
  lemma StoredIsNewest(s: Store, r: Request, after: Store, a: Answer)
    requires Serves(s, r, after, a) && Writes(r, a) && NewestNext(s, r)
    ensures var slot := SlotOf(r).value;
            && slot in after && after[slot].expiresAt == r.storeAt + TTL && after[slot].response == a.response
            && forall k :: k in after && k != slot ==> k in s && after[k] == s[k] && Older(after[k], after[slot])
  {
    var slot := SlotOf(r).value;
    var looked := Lookup(s, SlotOf(r), r.lookupAt).1;
    assert Stored(looked, after, slot, r.storeAt + TTL, a.response);
    var victims, place :| Exchanged(looked, after, victims, slot, Entry(r.storeAt + TTL, place, a.response));
    assert AllObjects(s) ==> slot !in looked;
    hide Oldest;
  }

  /** The entry written by request `i` is still there before request `j`. */
  ghost predicate Resident(stores: seq<Store>, requests: seq<Request>, answers: seq<Answer>, i: nat, j: nat)
    requires i < j <= |requests| && |stores| == |requests| + 1 && |answers| == |requests|
    requires Writes(requests[i], answers[i])
  {
    var slot := SlotOf(requests[i]).value;
    && slot in stores[j]
    && stores[j][slot].expiresAt == requests[i].storeAt + TTL && stores[j][slot].response == answers[i].response
    && |Rivals(stores[j], slot)| <= CountWrites(requests, answers, i + 1, j)
  }

  /** Lookups of the same key between `i` and `j` come before the entry expires. */
  ghost predicate Unexpired(requests: seq<Request>, i: nat, j: nat)
    requires i < |requests|
  {
    forall m :: i < m <= j && m < |requests| && SlotOf(requests[m]) == SlotOf(requests[i])
      ==> requests[m].lookupAt <= requests[i].storeAt + TTL
  }

  lemma FirstResident(stores: seq<Store>, requests: seq<Request>, answers: seq<Answer>, i: nat)
    requires Session(stores, requests, answers) && Ticking(stores[0], requests) && i < |requests|
    requires Writes(requests[i], answers[i])
    ensures Resident(stores, requests, answers, i, i + 1)
  {
    var slot := SlotOf(requests[i]).value;
    StoreIsOlder(stores, requests, answers, i);
    assert Serves(stores[i], requests[i], stores[i + 1], answers[i]);
    StoredIsNewest(stores[i], requests[i], stores[i + 1], answers[i]);
    hide Serves, Ticking, NewestNext;
    assert Rivals(stores[i + 1], slot) == {};
  }

  lemma NextResident(stores: seq<Store>, requests: seq<Request>, answers: seq<Answer>, i: nat, j: nat)
    requires Session(stores, requests, answers) && i < j < |requests|
    requires Writes(requests[i], answers[i]) && Resident(stores, requests, answers, i, j)
    requires Unexpired(requests, i, j)
    requires CountWrites(requests, answers, i + 1, j + 1) < MAX_ENTRIES
    ensures Resident(stores, requests, answers, i, j + 1)
    ensures SlotOf(requests[j]) == SlotOf(requests[i]) ==>
              answers[j] == Replayed(Flagged(answers[i].response.fields)) && stores[j + 1] == stores[j]
  {
    var slot := SlotOf(requests[i]).value;
    var s, r := stores[j], requests[j];
    assert Serves(s, r, stores[j + 1], answers[j]);
    LookupKeeps(s, slot, SlotOf(r), r.lookupAt);
    var looked := Lookup(s, SlotOf(r), r.lookupAt).1;
    if SlotOf(r) != Some(slot) && Writes(r, answers[j]) && Lookup(s, SlotOf(r), r.lookupAt).0.None? {
      StoreKeeps(looked, stores[j + 1], slot, SlotOf(r).value, r.storeAt + TTL, answers[j].response);
    }
  }

  lemma {:induction false} StaysResident(stores: seq<Store>, requests: seq<Request>, answers: seq<Answer>, i: nat,
                                         j: nat)
    requires Session(stores, requests, answers) && Ticking(stores[0], requests) && i < j <= |requests|
    requires Writes(requests[i], answers[i]) && Unexpired(requests, i, j - 1)
    requires CountWrites(requests, answers, i + 1, j) < MAX_ENTRIES
    ensures Resident(stores, requests, answers, i, j)
    decreases j
  {
    hide Serves, Ticking;
    if j == i + 1 {
      FirstResident(stores, requests, answers, i);
    } else {
      StaysResident(stores, requests, answers, i, j - 1);
      NextResident(stores, requests, answers, i, j - 1);
    }
  }

  /** Main result: a request that repeats an earlier one's key within its lifetime, with at
      most 499 other responses stored in between, does not run its handler: it gets the
      first response with the replay flag, and the store is left exactly as it was. */
  lemma RunsOnce(stores: seq<Store>, requests: seq<Request>, answers: seq<Answer>, i: nat, j: nat)
    requires Session(stores, requests, answers) && Ticking(stores[0], requests) && i < j < |requests|
    requires Writes(requests[i], answers[i])
    requires requests[j].scope == requests[i].scope && requests[j].key == requests[i].key
    requires Unexpired(requests, i, j)
    requires CountWrites(requests, answers, i + 1, j) < MAX_ENTRIES
    ensures answers[j] == Replayed(Flagged(answers[i].response.fields)) && stores[j + 1] == stores[j]
    ensures Repeats(answers[j].fields, answers[i].response.fields)
  {
    FlaggedRepeats(answers[i].response.fields);
    StaysResident(stores, requests, answers, i, j);
    var slot := SlotOf(requests[i]).value;
    assert Serves(stores[j], requests[j], stores[j + 1], answers[j]);
    assert Lookup(stores[j], Some(slot), requests[j].lookupAt).0.Some?;
  }

  /** No request from `i` up to `j` stored a response under the slot. */
  ghost predicate NoWrite(requests: seq<Request>, answers: seq<Answer>, slot: string, i: nat, j: nat)
    requires j <= |requests| && |answers| == |requests|
  {
    forall m :: i <= m < j ==> !(Writes(requests[m], answers[m]) && SlotOf(requests[m]) == Some(slot))
  }

  /** An entry before request `j` was loaded, or stored by the last write of its slot. */
  ghost predicate Genuine(stores: seq<Store>, requests: seq<Request>, answers: seq<Answer>, j: nat, slot: string)
    requires j <= |requests| && |stores| == |requests| + 1 && |answers| == |requests| && slot in stores[j]
  {
    || (slot in stores[0] && stores[j][slot] == stores[0][slot] && NoWrite(requests, answers, slot, 0, j))
    || exists i :: 0 <= i < j && Writes(requests[i], answers[i]) && SlotOf(requests[i]) == Some(slot)
                && stores[j][slot].expiresAt == requests[i].storeAt + TTL
                && stores[j][slot].response == answers[i].response
                && NoWrite(requests, answers, slot, i + 1, j)
  }

  /** A request leaves an entry alone or is the one that stored it. */
  lemma EntryChanges(s: Store, r: Request, after: Store, a: Answer, slot: string)
    requires Serves(s, r, after, a) && slot in after
    ensures if Writes(r, a) && SlotOf(r) == Some(slot) then
              after[slot].expiresAt == r.storeAt + TTL && after[slot].response == a.response
            else slot in s && after[slot] == s[slot]
  {
  }

  lemma {:induction false} EntriesAreGenuine(stores: seq<Store>, requests: seq<Request>, answers: seq<Answer>,
                                             j: nat, slot: string)
    requires Session(stores, requests, answers) && j <= |requests| && slot in stores[j]
    ensures Genuine(stores, requests, answers, j, slot)
    decreases j
  {
    if j > 0 {
      var r, a := requests[j - 1], answers[j - 1];
      assert Serves(stores[j - 1], r, stores[j], a);
      hide Serves, Writes;
      EntryChanges(stores[j - 1], r, stores[j], a, slot);
      if !(Writes(r, a) && SlotOf(r) == Some(slot)) {
        EntriesAreGenuine(stores, requests, answers, j - 1, slot);
      }
    }
  }

  /** The converse: a replay is never made up. It is the response an entry was loaded with,
      or that of the last request that stored one under the key, and not yet expired. */
  lemma ReplaysAreGenuine(stores: seq<Store>, requests: seq<Request>, answers: seq<Answer>, j: nat)
    requires Session(stores, requests, answers) && j < |requests| && answers[j].Replayed?
    ensures SlotOf(requests[j]).Some?
    ensures var slot := SlotOf(requests[j]).value;
            && slot in stores[j] && Genuine(stores, requests, answers, j, slot)
            && stores[j][slot].response.Object?
            && answers[j].fields == Flagged(stores[j][slot].response.fields)
            && Repeats(answers[j].fields, stores[j][slot].response.fields)
            && requests[j].lookupAt <= stores[j][slot].expiresAt
  {
    assert Serves(stores[j], requests[j], stores[j + 1], answers[j]);
    EntriesAreGenuine(stores, requests, answers, j, SlotOf(requests[j]).value);
    FlaggedRepeats(stores[j][SlotOf(requests[j]).value].response.fields);
  }

  lemma AfterAWrite(stores: seq<Store>, requests: seq<Request>, answers: seq<Answer>, j: nat)
    requires Session(stores, requests, answers) && 0 < j <= |requests| && Writes(requests[j - 1], answers[j - 1])
    ensures |stores[j]| <= MAX_ENTRIES
  {
    var s, r := stores[j - 1], requests[j - 1];
    assert Serves(s, r, stores[j], answers[j - 1]);
    var looked := Lookup(s, SlotOf(r), r.lookupAt).1;
    StoreIsBounded(looked, stores[j], SlotOf(r).value, r.storeAt + TTL, answers[j - 1].response);
  }

  /** Keys under which requests from `i` up to `j` stored a response. */
  function Written(requests: seq<Request>, answers: seq<Answer>, i: nat, j: nat): set<string>
    requires i <= j <= |requests| && |answers| == |requests|
    decreases j
  {
    if i == j then {}
    else Written(requests, answers, i, j - 1) +
         (if Writes(requests[j - 1], answers[j - 1]) then {SlotOf(requests[j - 1]).value} else {})
  }

  /** No request from `i` up to `j` finds a response expired that was stored since `i`. */
  ghost predicate NoneExpires(requests: seq<Request>, answers: seq<Answer>, i: nat, j: nat)
    requires j <= |requests| && |answers| == |requests|
  {
    forall w, m :: i <= w < m < j && Writes(requests[w], answers[w]) && SlotOf(requests[m]) == SlotOf(requests[w])
      ==> requests[m].lookupAt <= requests[w].storeAt + TTL
  }

  /** What was stored since `i` is there, no older than when it was stored and not as old as
      the entry in `slot`. */
  ghost predicate AllThere(stores: seq<Store>, requests: seq<Request>, answers: seq<Answer>, slot: string, i: nat,
                           j: nat)
    requires i <= j <= |requests| && |stores| == |requests| + 1 && |answers| == |requests| && slot in stores[j]
  {
    forall w :: i <= w < j && Writes(requests[w], answers[w]) ==>
      var k := SlotOf(requests[w]).value;
      && k in stores[j] && stores[j][k].expiresAt >= requests[w].storeAt + TTL
      && Older(stores[j][slot], stores[j][k])
  }

  /** An entry that outlives a request leaves everything newer in place. */
  lemma NewerStays(s: Store, r: Request, after: Store, a: Answer, slot: string, k: string)
    requires Serves(s, r, after, a) && SlotOf(r) != Some(k)
    requires slot in s && slot in after && after[slot] == s[slot] && k in s && Older(s[slot], s[k])
    requires SlotOf(r) == Some(slot) ==> !Writes(r, a)
    ensures k in after && after[k] == s[k]
  {
    hide Older;
    var looked := Lookup(s, SlotOf(r), r.lookupAt).1;
    assert k in looked && looked[k] == s[k];
    if Lookup(s, SlotOf(r), r.lookupAt).0.None? && Writes(r, a) {
      assert Stored(looked, after, SlotOf(r).value, r.storeAt + TTL, a.response);
      var victims, place :|
        Exchanged(looked, after, victims, SlotOf(r).value, Entry(r.storeAt + TTL, place, a.response));
      assert slot in looked && slot !in victims;
    }
  }

  /** A lookup that finds nothing expired keeps the entry it looks for. */
  lemma LookedForStays(s: Store, r: Request, after: Store, a: Answer, k: string)
    requires Serves(s, r, after, a) && SlotOf(r) == Some(k) && k in s && r.lookupAt <= s[k].expiresAt
    requires !Writes(r, a)
    ensures k in after && after[k] == s[k]
  {
  }

  lemma {:induction false} NewerOutlive(stores: seq<Store>, requests: seq<Request>, answers: seq<Answer>,
                                        slot: string, i: nat, j: nat)
    requires Session(stores, requests, answers) && Ticking(stores[0], requests) && i <= j <= |requests|
    requires NoWrite(requests, answers, slot, i, j) && NoneExpires(requests, answers, i, j)
    requires slot in stores[j]
    ensures slot in stores[i] && stores[j][slot] == stores[i][slot]
    ensures AllThere(stores, requests, answers, slot, i, j)
    decreases j
  {
    if i < j {
      var s, r, after, a := stores[j - 1], requests[j - 1], stores[j], answers[j - 1];
      assert Serves(s, r, after, a);
      hide Serves, Ticking, Session, Writes, Older, NewestNext;
      EntryChanges(s, r, after, a, slot);
      NewerOutlive(stores, requests, answers, slot, i, j - 1);
      hide NoneExpires, AllThere;
      StoreIsOlder(stores, requests, answers, j - 1);
      OutliveStep(stores, requests, answers, slot, i, j);
    }
  }

  lemma OutliveStep(stores: seq<Store>, requests: seq<Request>, answers: seq<Answer>, slot: string, i: nat, j: nat)
    requires |stores| == |requests| + 1 && |answers| == |requests| && i < j <= |requests|
    requires Ticking(stores[0], requests) && NoneExpires(requests, answers, i, j)
    requires Serves(stores[j - 1], requests[j - 1], stores[j], answers[j - 1])
    requires NewestNext(stores[j - 1], requests[j - 1])
    requires slot in stores[j - 1] && slot in stores[j] && stores[j][slot] == stores[j - 1][slot]
    requires !(Writes(requests[j - 1], answers[j - 1]) && SlotOf(requests[j - 1]) == Some(slot))
    requires AllThere(stores, requests, answers, slot, i, j - 1)
    ensures AllThere(stores, requests, answers, slot, i, j)
  {
    hide Serves, Ticking, Older, NewestNext;
    var s, r, after, a := stores[j - 1], requests[j - 1], stores[j], answers[j - 1];
    if Writes(r, a) { StoredIsNewest(s, r, after, a); }
    forall w | i <= w < j - 1 && Writes(requests[w], answers[w])
      ensures var k := SlotOf(requests[w]).value;
              k in after && after[k].expiresAt >= requests[w].storeAt + TTL && Older(after[slot], after[k])
    {
      TimesGrow(stores[0], requests, w, j - 1);
      StillThere(s, r, after, a, slot, requests[w]);
    }
  }

  /** What request `old_` stored, and is newer than an entry that stays, stays or is renewed. */
  lemma StillThere(s: Store, r: Request, after: Store, a: Answer, slot: string, old_: Request)
    requires Serves(s, r, after, a) && NewestNext(s, r) && old_.storeAt <= r.storeAt
    requires slot in s && slot in after && after[slot] == s[slot] && !(Writes(r, a) && SlotOf(r) == Some(slot))
    requires SlotOf(old_).Some? && SlotOf(old_).value in s
    requires var k := SlotOf(old_).value; s[k].expiresAt >= old_.storeAt + TTL && Older(s[slot], s[k])
    requires SlotOf(r) == SlotOf(old_) ==> r.lookupAt <= old_.storeAt + TTL
    ensures var k := SlotOf(old_).value;
            k in after && after[k].expiresAt >= old_.storeAt + TTL && Older(after[slot], after[k])
  {
    hide Serves, NewestNext, Older;
    var k := SlotOf(old_).value;
    if SlotOf(r) != Some(k) {
      NewerStays(s, r, after, a, slot, k);
    } else if Writes(r, a) {
      StoredIsNewest(s, r, after, a);
    } else {
      LookedForStays(s, r, after, a, k);
    }
  }

  lemma TimesGrow(loaded: Store, requests: seq<Request>, i: nat, j: nat)
    requires Ticking(loaded, requests) && i <= j < |requests|
    ensures requests[i].storeAt <= requests[j].storeAt
  {
  }

  lemma {:induction false} WrittenAreThere(stores: seq<Store>, requests: seq<Request>, answers: seq<Answer>,
                                           slot: string, i: nat, j: nat, m: nat)
    requires |stores| == |requests| + 1 && |answers| == |requests| && i <= m <= j <= |requests|
    requires slot in stores[j] && AllThere(stores, requests, answers, slot, i, j)
    ensures Written(requests, answers, i, m) <= stores[j].Keys
    decreases m
  {
    if i < m { WrittenAreThere(stores, requests, answers, slot, i, j, m - 1); }
  }

  /** A run with a store in it leaves at most 500 entries. */
  lemma {:induction false} StaysBounded(stores: seq<Store>, requests: seq<Request>, answers: seq<Answer>, i: nat,
                                        j: nat)
    requires Session(stores, requests, answers) && i <= j <= |requests| && Written(requests, answers, i, j) != {}
    ensures |stores[j]| <= MAX_ENTRIES
    decreases j
  {
    assert i < j && (!Writes(requests[j - 1], answers[j - 1]) ==>
                       Written(requests, answers, i, j) == Written(requests, answers, i, j - 1));
    assert Serves(stores[j - 1], requests[j - 1], stores[j], answers[j - 1]);
    hide Serves, Written, Session, Writes;
    if Writes(requests[j - 1], answers[j - 1]) {
      AfterAWrite(stores, requests, answers, j);
    } else {
      StaysBounded(stores, requests, answers, i, j - 1);
      AfterServing(stores[j - 1], requests[j - 1], stores[j], answers[j - 1]);
    }
  }

  /** And 499 is the exact number: once responses under 500 other keys have been stored, with
      whatever replays, failures and repetitions between them, the entry is gone, and stays
      gone until its own key is stored again - unless some of the 500 have expired since. */
  lemma FiveHundredEvict(stores: seq<Store>, requests: seq<Request>, answers: seq<Answer>, slot: string, i: nat, j: nat)
    requires Session(stores, requests, answers) && Ticking(stores[0], requests) && i <= j <= |requests|
    requires NoWrite(requests, answers, slot, i, j) && NoneExpires(requests, answers, i, j)
    requires |Written(requests, answers, i, j)| >= MAX_ENTRIES
    ensures slot !in stores[j]
  {
    hide Serves, Ticking, NoneExpires, Written;
    if slot in stores[j] {
      var newer := Written(requests, answers, i, j);
      NewerOutlive(stores, requests, answers, slot, i, j);
      WrittenAreThere(stores, requests, answers, slot, i, j, j);
      StaysBounded(stores, requests, answers, i, j);
      NotWritten(requests, answers, slot, i, j);
      SubsetSize(newer + {slot}, stores[j].Keys);
      OneMore(newer, slot);
    }
  }

  lemma {:induction false} NotWritten(requests: seq<Request>, answers: seq<Answer>, slot: string, i: nat, j: nat)
    requires i <= j <= |requests| && |answers| == |requests| && NoWrite(requests, answers, slot, i, j)
    ensures slot !in Written(requests, answers, i, j)
    decreases j
  {
    if i < j { NotWritten(requests, answers, slot, i, j - 1); }
  }

  // ---------------------------------------------------------------- the module's state

  lemma {:induction false} HasOldest(s: Store, among: set<string>) returns (k: string)
    requires among != {} && among <= s.Keys
    ensures k in among && forall j :: j in among ==> !Older(s[j], s[k])
    decreases |among|
  {
    var x :| x in among;
    if among == {x} {
      k := x;
    } else {
      var y := HasOldest(s, among - {x});
      k := if Older(s[y], s[x]) then y else x;
    }
  }

  lemma OldestMore(all: Store, victims: set<string>, n: nat, stale: string)
    requires Oldest(all, victims, n) && stale in all - victims
    requires forall k :: k in all - victims ==> !Older(all[k], all[stale])
    ensures Oldest(all, victims + {stale}, n + 1)
    ensures (all - victims) - {stale} == all - (victims + {stale})
  {
    hide Older;
  }

  lemma Exchanges(s: Store, victims: set<string>, slot: string, e: Entry)
    requires Oldest(s, victims, Surplus(s)) && Places(s - victims, slot, e.placed)
    ensures Exchanged(s, (s - victims)[slot := e], victims, slot, e)
  {
  }

  /** The dictionary; `next` stands for the end of its order. */
  class Idempotency {
    var store: Store
    var next: nat

    constructor (loaded: Store, next: nat)
      requires forall k :: k in loaded ==> loaded[k].placed < next
      ensures Valid() && store == loaded
    {
      store, this.next := loaded, next;
    }

    ghost predicate Valid()
      reads this
    {
      forall k :: k in store ==> store[k].placed < next
    }

    method Find(scope: string, key: Option<string>, now: real) returns (replay: Option<map<string, Json>>)
      modifies this`store
      ensures (replay, store) == Lookup(old(store), Slot(scope, key), now)
    {
      if key.None? || key.value == [] { return None; }
      var slot := Encode(scope, key.value);
      if slot !in store { return None; }
      var entry := store[slot];
      if now > entry.expiresAt {
        store := store - {slot};
        return None;
      }
      if entry.response.Object? { return Some(entry.response.fields[REPLAY_FLAG := Boolean(true)]); }
      return None;
    }

    /** The oldest entries make room, one after the other. */
    method Evict(n: nat)
      requires n <= |store|
      modifies this`store
      ensures exists victims :: Oldest(old(store), victims, n) && store == old(store) - victims
    {
      ghost var all, victims := store, {};
      var taken := 0;
      while taken < n
        invariant 0 <= taken <= n
        invariant Oldest(all, victims, taken) && store == all - victims
      {
        SubsetSize(victims, all.Keys);
        assert |all| == |all.Keys| && store.Keys == all.Keys - victims;
        ghost var witness_ := HasOldest(store, store.Keys);
        var stale :| stale in store && forall k :: k in store ==> !Older(store[k], store[stale]);
        OldestMore(all, victims, taken, stale);
        store := store - {stale};
        victims := victims + {stale};
        taken := taken + 1;
      }
    }

    method Keep(scope: string, key: Option<string>, response: Json, now: real)
      requires Valid()
      modifies this
      ensures Valid()
      ensures Slot(scope, key).None? || !response.Object? ==> store == old(store)
      ensures Slot(scope, key).Some? && response.Object? ==>
                Stored(old(store), store, Slot(scope, key).value, now + TTL, response)
    {
      if key.None? || key.value == [] || !response.Object? { return; }
      var slot := Encode(scope, key.value);
      ghost var before := store;
      hide Older;
      if |store| >= MAX_ENTRIES {
        Evict(|store| - MAX_ENTRIES + 1);
      } else {
        assert Oldest(before, {}, 0) && before - {} == before;
      }
      ghost var victims :| Oldest(before, victims, Surplus(before)) && store == before - victims;
      hide Oldest, Surplus, Exchanged;
      var place := next;
      if slot in store { place := store[slot].placed; }
      var e := Entry(now + TTL, place, response);
      store, next := store[slot := e], next + 1;
      Exchanges(before, victims, slot, e);
    }

    /** An endpoint under an idempotency key; `outcome` is what its handler does if it runs. */
    method Handle(r: Request) returns (answer: Answer)
      requires Valid()
      modifies this
      ensures Valid()
      ensures Serves(old(store), r, store, answer)
    {
      hide Stored;
      var replay := Find(r.scope, r.key, r.lookupAt);
      if replay.Some? { return Replayed(replay.value); }
      if r.outcome.Raises? { return Failed; }
      answer := Ran(r.outcome.response);
      Keep(r.scope, r.key, r.outcome.response, r.storeAt);
    }
  }
}
