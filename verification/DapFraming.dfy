/** The base-protocol framing of the Debug Adapter Protocol bridge: how a request is
    framed and how the reader thread cuts the adapter's output into payloads again.
    A byte is a `char` below 256, so byte strings can be written as text. */
module DapFraming {
  import opened Text
  import Decimal

  type bytes = string

  const CRLF: bytes := "\r\n"
  const DELIMITER: bytes := "\r\n\r\n"
  const NAME: bytes := "Content-Length: "
  const FIELD: bytes := "content-length:"

  // ---------------------------------------------------------------- writing

  function Frame(payload: bytes): bytes
  {
    NAME + Decimal.Print(|payload|) + DELIMITER + payload
  }

  function Frames(payloads: seq<bytes>): bytes
  {
    if payloads == [] then [] else Frame(payloads[0]) + Frames(payloads[1..])
  }

  // ---------------------------------------------------------------- header lines

  function Lower(s: bytes): (r: bytes)
    ensures |r| == |s|
  {
    seq(|s|, i requires 0 <= i < |s| => if 'A' <= s[i] <= 'Z' then (s[i] as int + 32) as char else s[i])
  }

  predicate IsSpace(c: char)
  {
    c == ' ' || 9 <= c as int <= 13
  }

  function StripLeft(s: bytes): bytes
  {
    if s != [] && IsSpace(s[0]) then StripLeft(s[1..]) else s
  }

  function StripRight(s: bytes): bytes
  {
    if s != [] && IsSpace(s[|s| - 1]) then StripRight(s[..|s| - 1]) else s
  }

  /** The text after the first colon, without surrounding white space. */
  function FieldValue(line: bytes): bytes
  {
    match Find(line, ":")
    case None => []
    case Some(i) => StripRight(StripLeft(line[i + 1..]))
  }

  /** Length announced by header lines, `length` being the one in force before them: the
      last Content-Length line wins, and one that is no number raises (None). */
  function LengthOf(lines: seq<bytes>, length: int): Option<int>
  {
    if lines == [] then Some(length)
    else if FIELD <= Lower(lines[0]) then
      match Decimal.ParseInt(FieldValue(lines[0]))
      case None => None
      case Some(n) => LengthOf(lines[1..], n)
    else LengthOf(lines[1..], length)
  }

  predicate IsField(line: bytes)
  {
    FIELD <= Lower(line)
  }

  /** Length announced by a header. */
  function DeclaredLength(header: bytes): Option<int>
  {
    LengthOf(Split(header, CRLF), 0)
  }

  /** Among header lines the last Content-Length line decides, none means the length in force
      before, and a line with no number spoils the header wherever it stands. */
  lemma {:induction false} LastFieldDecides(lines: seq<bytes>, before: int, n: int)
    ensures LengthOf(lines, before) == Some(n) <==>
      && (forall i :: 0 <= i < |lines| && IsField(lines[i]) ==> Decimal.ParseInt(FieldValue(lines[i])).Some?)
      && if exists i :: 0 <= i < |lines| && IsField(lines[i]) then
           exists i :: 0 <= i < |lines| && IsField(lines[i]) && Decimal.ParseInt(FieldValue(lines[i])) == Some(n)
                    && forall j :: i < j < |lines| ==> !IsField(lines[j])
         else n == before
    decreases |lines|
  {
    hide FieldValue, Lower;
    if lines != [] {
      var rest := lines[1..];
      assert forall i :: 0 < i < |lines| ==> lines[i] == rest[i - 1];
      assert forall i :: 0 <= i < |rest| ==> rest[i] == lines[i + 1];
      if IsField(lines[0]) {
        match Decimal.ParseInt(FieldValue(lines[0]))
        case None =>
        case Some(value) => LastFieldDecides(rest, value, n);
      } else {
        LastFieldDecides(rest, before, n);
      }
    }
  }

  // ---------------------------------------------------------------- reading

  /** Payloads cut off so far, bytes not yet used, and whether the thread still reads.
      A thread that raised has lost its buffer. */
  datatype Parsed = Parsed(payloads: seq<bytes>, rest: bytes, alive: bool) {
    function Then(next: Parsed): Parsed
    {
      next.(payloads := payloads + next.payloads)
    }
  }

  const NOTHING := Parsed([], [], true)

  /** Where `rest[:length]` ends in Python: a negative length counts from the end. */
  function Cut(size: nat, length: int): (cut: nat)
    requires length <= size
    ensures cut <= size
  {
    if length >= 0 then length else if -length <= size then size + length else 0
  }

  /** What the reader's loop makes of its buffer, slices taken as Python takes them. */
  function Drain(buffer: bytes): Parsed
    decreases |buffer|
  {
    match Find(buffer, DELIMITER)
    case None => Parsed([], buffer, true)
    case Some(i) =>
      var rest := buffer[i + 4..];
      match DeclaredLength(buffer[..i])
      case None => Parsed([], [], false)
      case Some(n) =>
        if |rest| < n then Parsed([], buffer, true)
        else
          var cut := Cut(|rest|, n);
          Parsed([rest[..cut]], [], true).Then(Drain(rest[cut..]))
  }

  /** One-shot parser of a whole stream; a negative length means an empty payload. */
  function Parse(stream: bytes): Parsed
    decreases |stream|
  {
    match Find(stream, DELIMITER)
    case None => Parsed([], stream, true)
    case Some(i) =>
      var rest := stream[i + 4..];
      match DeclaredLength(stream[..i])
      case None => Parsed([], [], false)
      case Some(n) =>
        if |rest| < n then Parsed([], stream, true)
        else Parsed([rest[..Max0(n)]], [], true).Then(Parse(rest[Max0(n)..]))
  }

  /** One more chunk arrives. */
  function Feed(state: Parsed, chunk: bytes): Parsed
  {
    if state.alive then state.Then(Drain(state.rest + chunk)) else state
  }

  function FeedAll(state: Parsed, chunks: seq<bytes>): Parsed
    decreases |chunks|
  {
    if chunks == [] then state else FeedAll(Feed(state, chunks[0]), chunks[1..])
  }

  function Concat(chunks: seq<bytes>): bytes
  {
    if chunks == [] then [] else chunks[0] + Concat(chunks[1..])
  }

  /** The stream in chunks of one byte, the only size the reader asks for. */
  function Bytewise(stream: bytes): seq<bytes>
  {
    if stream == [] then [] else [[stream[0]]] + Bytewise(stream[1..])
  }

  /** No header announces a length -k with more than k bytes behind it. */
  predicate NoEagerNegative(stream: bytes)
    decreases |stream|
  {
    match Find(stream, DELIMITER)
    case None => true
    case Some(i) =>
      var rest := stream[i + 4..];
      match DeclaredLength(stream[..i])
      case None => true
      case Some(n) =>
        && (0 <= n || |rest| <= -n)
        && (n <= |rest| ==> NoEagerNegative(rest[Max0(n)..]))
  }

  // ---------------------------------------------------------------- the reader is a parser

  lemma ThenAssociates(p: Parsed, q: Parsed, r: Parsed)
    ensures p.Then(q).Then(r) == p.Then(q.Then(r))
  {
    assert (p.payloads + q.payloads) + r.payloads == p.payloads + (q.payloads + r.payloads);
  }

  lemma ThenNothing(p: Parsed, rest: bytes, alive: bool)
    ensures Parsed([], rest, alive).Then(p) == p
  {
    assert [] + p.payloads == p.payloads;
  }

  /** The first delimiter stays the first when more bytes come. */
  lemma FindStable(a: bytes, b: bytes)
    requires Find(a, DELIMITER).Some?
    ensures Find(a + b, DELIMITER) == Find(a, DELIMITER)
  {
    var i := Find(a, DELIMITER).value;
    forall j | 0 <= j <= i
      ensures Matches(a + b, DELIMITER, j) <==> Matches(a, DELIMITER, j)
    {
      MatchInPrefix(a, b, DELIMITER, j);
    }
  }

  lemma ParseFirst(stream: bytes, i: nat, n: int)
    requires Find(stream, DELIMITER) == Some(i) && DeclaredLength(stream[..i]) == Some(n) && n <= |stream[i + 4..]|
    ensures var rest := stream[i + 4..];
            Parse(stream) == Parsed([rest[..Max0(n)]], [], true).Then(Parse(rest[Max0(n)..]))
  {
    hide DeclaredLength;
  }

  lemma ResumeBehindFrame(a: bytes, b: bytes, i: nat, n: int)
    requires Find(a, DELIMITER) == Some(i) && DeclaredLength(a[..i]) == Some(n) && n <= |a[i + 4..]|
    requires var p := Parse(a[i + 4..][Max0(n)..]);
             Parse(a[i + 4..][Max0(n)..] + b) == if p.alive then p.Then(Parse(p.rest + b)) else p
    ensures var p := Parse(a);
            Parse(a + b) == if p.alive then p.Then(Parse(p.rest + b)) else p
  {
    hide DeclaredLength, Parse, Find;
    var rest, m := a[i + 4..], Max0(n);
    FindStable(a, b);
    assert (a + b)[..i] == a[..i] && (a + b)[i + 4..] == rest + b;
    assert (rest + b)[..m] == rest[..m] && (rest + b)[m..] == rest[m..] + b;
    ParseFirst(a, i, n);
    ParseFirst(a + b, i, n);
    var p := Parse(rest[m..]);
    ThenAssociates(Parsed([rest[..m]], [], true), p, Parse(p.rest + b));
  }

  /** Parsing can stop anywhere and go on later from the bytes left over. */
  lemma {:induction false} ParseResumes(a: bytes, b: bytes)
    ensures var p := Parse(a);
            Parse(a + b) == if p.alive then p.Then(Parse(p.rest + b)) else p
    decreases |a|
  {
    hide DeclaredLength, Find;
    ThenNothing(Parse(a + b), a, true);
    match Find(a, DELIMITER)
    case None =>
    case Some(i) =>
      FindStable(a, b);
      var rest := a[i + 4..];
      assert (a + b)[..i] == a[..i];
      match DeclaredLength(a[..i])
      case None =>
      case Some(n) =>
        if n <= |rest| {
          hide Parse;
          ParseResumes(rest[Max0(n)..], b);
          ResumeBehindFrame(a, b, i, n);
        }
  }

  /** Leftover bytes hold no complete frame. */
  lemma {:induction false} LeftoverIsIncomplete(a: bytes)
    requires Parse(a).alive
    ensures Parse(Parse(a).rest) == Parsed([], Parse(a).rest, true)
    decreases |a|
  {
    match Find(a, DELIMITER)
    case None =>
    case Some(i) =>
      var rest := a[i + 4..];
      match DeclaredLength(a[..i])
      case Some(n) =>
        if n <= |rest| {
          LeftoverIsIncomplete(rest[Max0(n)..]);
        }
  }

  /** The loop agrees with the one-shot parser exactly when no negative length finds
      enough bytes behind it to count back from their end. */
  lemma {:induction false} DrainIsParse(a: bytes)
    ensures Drain(a) == Parse(a) <==> NoEagerNegative(a)
    decreases |a|
  {
    match Find(a, DELIMITER)
    case None =>
    case Some(i) =>
      var rest := a[i + 4..];
      match DeclaredLength(a[..i])
      case None =>
      case Some(n) =>
        if n <= |rest| {
          DrainIsParse(rest[Max0(n)..]);
          var cut := Cut(|rest|, n);
          var d, p := Drain(rest[cut..]), Parse(rest[Max0(n)..]);
          assert Drain(a).payloads[0] == rest[..cut] && Parse(a).payloads[0] == rest[..Max0(n)];
          assert Drain(a).payloads[1..] == d.payloads && Parse(a).payloads[1..] == p.payloads;
        }
  }

  /** A buffer that parses to nothing and holds a header waits for more bytes than it has. */
  lemma WaitsForMore(buffer: bytes, i: nat)
    requires Parse(buffer) == Parsed([], buffer, true) && Find(buffer, DELIMITER) == Some(i)
    ensures var n := DeclaredLength(buffer[..i]); n.Some? && n.value > |buffer[i + 4..]|
  {
    hide DeclaredLength, Find;
  }

  /** One byte on top of an incomplete frame never gives a negative length any room. */
  lemma OneByteIsNeverEager(buffer: bytes, b: char)
    requires Parse(buffer) == Parsed([], buffer, true)
    ensures NoEagerNegative(buffer + [b])
  {
    var a := buffer + [b];
    match Find(a, DELIMITER)
    case None =>
    case Some(i) =>
      var rest := a[i + 4..];
      if Find(buffer, DELIMITER).None? {
        if i + 4 < |a| {
          MatchInPrefix(buffer, [b], DELIMITER, i);
        }
        assert rest == [];
      } else {
        FindStable(buffer, [b]);
        WaitsForMore(buffer, i);
        hide Parse;
        assert a[..i] == buffer[..i] && rest == buffer[i + 4..] + [b];
        var n := DeclaredLength(a[..i]).value;
        if n <= |rest| {
          assert rest[n..] == [];
        }
      }
  }

  /** One byte: the loop does what the parser does. */
  lemma ByteStep(seen: bytes, b: char)
    ensures Feed(Parse(seen), [b]) == Parse(seen + [b])
  {
    ParseResumes(seen, [b]);
    if Parse(seen).alive {
      LeftoverIsIncomplete(seen);
      OneByteIsNeverEager(Parse(seen).rest, b);
      DrainIsParse(Parse(seen).rest + [b]);
    }
  }

  /** A reader that is the parser of what it was fed stays so. */
  lemma {:induction false} BytewiseFrom(seen: bytes, more: bytes)
    ensures FeedAll(Parse(seen), Bytewise(more)) == Parse(seen + more)
    decreases |more|
  {
    hide Feed, Parse;
    if more == [] {
      assert seen + more == seen;
    } else {
      var b, chunks := [more[0]], Bytewise(more);
      ByteStep(seen, more[0]);
      BytewiseFrom(seen + b, more[1..]);
      assert chunks[0] == b && chunks[1..] == Bytewise(more[1..]);
      assert (seen + b) + more[1..] == seen + more;
    }
  }

  /** Main result: reading byte by byte is the one-shot parser, for every byte stream -
      malformed headers and negative lengths included. */
  lemma ReaderIsParser(stream: bytes)
    ensures FeedAll(NOTHING, Bytewise(stream)) == Parse(stream)
  {
    BytewiseFrom([], stream);
    assert [] + stream == stream;
  }

  // ---------------------------------------------------------------- other chunk sizes

  lemma {:induction false} NoEagerNegativeSplits(a: bytes, b: bytes)
    requires NoEagerNegative(a + b)
    ensures NoEagerNegative(a)
    ensures Parse(a).alive ==> NoEagerNegative(Parse(a).rest + b)
    decreases |a|
  {
    hide DeclaredLength;
    match Find(a, DELIMITER)
    case None =>
    case Some(i) =>
      FindStable(a, b);
      var rest := a[i + 4..];
      assert (a + b)[..i] == a[..i] && (a + b)[i + 4..] == rest + b;
      match DeclaredLength(a[..i])
      case None =>
      case Some(n) =>
        if n <= |rest| {
          var m := Max0(n);
          assert (rest + b)[m..] == rest[m..] + b;
          NoEagerNegativeSplits(rest[m..], b);
        }
  }

  lemma {:induction false} ChunksFrom(seen: bytes, chunks: seq<bytes>)
    requires NoEagerNegative(seen + Concat(chunks))
    ensures FeedAll(Parse(seen), chunks) == Parse(seen + Concat(chunks))
    decreases |chunks|
  {
    if chunks == [] {
      assert seen + Concat(chunks) == seen;
    } else {
      var state, c := Parse(seen), chunks[0];
      assert seen + Concat(chunks) == (seen + c) + Concat(chunks[1..]);
      NoEagerNegativeSplits(seen + c, Concat(chunks[1..]));
      NoEagerNegativeSplits(seen, c);
      ParseResumes(seen, c);
      if state.alive {
        DrainIsParse(state.rest + c);
      }
      ChunksFrom(seen + c, chunks[1..]);
    }
  }

  lemma OneChunk(stream: bytes)
    ensures Concat([stream]) == stream && FeedAll(NOTHING, [stream]) == Drain(stream)
  {
    var whole := [stream];
    assert whole[1..] == [] && Concat([]) == [] && [] + stream == stream;
    ThenNothing(Drain(stream), [], true);
    assert Feed(NOTHING, stream) == Drain(stream);
  }

  /** The cut of the stream into chunks is invisible exactly when no negative length
      could look back over bytes that already arrived. */
  lemma ChunkingIsInvisible(stream: bytes)
    ensures (forall chunks :: Concat(chunks) == stream ==> FeedAll(NOTHING, chunks) == Parse(stream))
       <==> NoEagerNegative(stream)
  {
    if NoEagerNegative(stream) {
      forall chunks | Concat(chunks) == stream
        ensures FeedAll(NOTHING, chunks) == Parse(stream)
      {
        assert [] + stream == stream;
        ChunksFrom([], chunks);
      }
    } else {
      DrainIsParse(stream);
      OneChunk(stream);
    }
  }

  // ---------------------------------------------------------------- round trip

  lemma {:induction false} StripLeftTo(s: bytes)
    requires s != [] && !IsSpace(s[0])
    ensures StripLeft(" " + s) == s
  {
    assert (" " + s)[1..] == s;
  }

  /** A text that a carriage return or line feed cannot be part of. */
  predicate OneLine(s: bytes)
  {
    forall j :: 0 <= j < |s| ==> s[j] != '\r'
  }

  lemma LengthOfOne(line: bytes)
    requires FIELD <= Lower(line)
    ensures LengthOf([line], 0) == Decimal.ParseInt(FieldValue(line))
  {
    var lines := [line];
    assert lines[0] == line && lines[1..] == [];
  }

  /** The same letter, the case aside. */
  predicate SameLetter(c: char, lower: char)
  {
    c == lower || ('a' <= lower <= 'z' && c as int + 32 == lower as int)
  }

  /** The white space of byte strings, by number. */
  predicate IsWhite(c: char)
  {
    c as int in {9, 10, 11, 12, 13, 32}
  }

  /** A line is a Content-Length line if it starts with that name, in any case, and a colon;
      its value is what follows, without the white space at its ends. */
  lemma FieldMeaning(line: bytes) returns (i: nat, j: nat)
    ensures IsField(line) <==>
              |line| >= 15 && forall k :: 0 <= k < 15 ==> SameLetter(line[k], "content-length:"[k])
    ensures IsField(line) ==>
              && 15 <= i <= j <= |line| && FieldValue(line) == line[i..j]
              && (i < j ==> !IsWhite(line[i]) && !IsWhite(line[j - 1]))
              && forall k :: 15 <= k < i || j <= k < |line| ==> IsWhite(line[k])
  {
    i, j := 0, 0;
    LowerMeaning(line);
    if IsField(line) {
      forall k | 0 <= k < 14
        ensures !Matches(line, ":", k)
      {
        assert SameLetter(line[k], "content-length:"[k]);
        if Matches(line, ":", k) { MatchHead(line, ":", k); }
      }
      assert SameLetter(line[14], ':');
      assert Matches(line, ":", 14);
      assert forall c: char :: IsSpace(c) <==> IsWhite(c);
      hide Lower, IsField, SameLetter, IsSpace, IsWhite;
      assert Find(line, ":") == Some(14);
      var value := line[15..];
      i := LeftStripped(value);
      j := RightStripped(value[i..]);
      assert value[i..][..j] == line[15 + i..15 + i + j];
      assert forall k :: i + j <= k < |value| ==> value[k] == value[i..][k - i];
      assert forall k :: 15 <= k < |line| ==> line[k] == value[k - 15];
      i, j := 15 + i, 15 + i + j;
    }
  }

  lemma LowerMeaning(line: bytes)
    ensures IsField(line) <==>
              |line| >= 15 && forall k :: 0 <= k < 15 ==> SameLetter(line[k], "content-length:"[k])
  {
    if |line| >= 15 {
      forall k | 0 <= k < 15
        ensures Lower(line)[k] == "content-length:"[k] <==> SameLetter(line[k], "content-length:"[k])
      {
        var c := "content-length:"[k];
        assert 'a' <= c <= 'z' || c == '-' || c == ':';
      }
      assert IsField(line) <==> Lower(line)[..15] == "content-length:";
    }
  }

  lemma {:induction false} LeftStripped(s: bytes) returns (i: nat)
    ensures i <= |s| && StripLeft(s) == s[i..] && (i < |s| ==> !IsSpace(s[i]))
    ensures forall k :: 0 <= k < i ==> IsSpace(s[k])
    decreases |s|
  {
    i := 0;
    if s != [] && IsSpace(s[0]) {
      i := LeftStripped(s[1..]);
      assert forall k :: 1 <= k < |s| ==> s[k] == s[1..][k - 1];
      i := i + 1;
    }
  }

  lemma {:induction false} RightStripped(s: bytes) returns (j: nat)
    ensures j <= |s| && StripRight(s) == s[..j] && (0 < j ==> !IsSpace(s[j - 1]))
    ensures forall k :: j <= k < |s| ==> IsSpace(s[k])
    decreases |s|
  {
    j := |s|;
    if s != [] && IsSpace(s[|s| - 1]) {
      j := RightStripped(s[..|s| - 1]);
    }
  }

  /** A single Content-Length line announces the number it is written with. */
  lemma LineDeclares(value: bytes)
    requires OneLine(value) && value != [] && !IsSpace(value[0]) && !IsSpace(value[|value| - 1])
    ensures DeclaredLength(NAME + value) == Decimal.ParseInt(value)
  {
    var line := NAME + value;
    forall j | 0 <= j < |line|
      ensures !Matches(line, CRLF, j)
    {
      if Matches(line, CRLF, j) { MatchHead(line, CRLF, j); }
    }
    assert Split(line, CRLF) == [line];
    assert FIELD == Lower(line)[..15];
    forall j | 0 <= j < 14
      ensures !Matches(line, ":", j)
    {
      if Matches(line, ":", j) { MatchHead(line, ":", j); }
    }
    assert Matches(line, ":", 14);
    assert Find(line, ":") == Some(14);
    assert line[15..] == " " + value;
    StripLeftTo(value);
    assert FieldValue(line) == value;
    LengthOfOne(line);
  }

  lemma PrintDeclares(n: nat)
    ensures OneLine(NAME + Decimal.Print(n)) && DeclaredLength(NAME + Decimal.Print(n)) == Some(n)
  {
    var digits := Decimal.Print(n);
    assert forall j :: 0 <= j < |digits| ==> digits[j] in digits;
    assert OneLine(digits) && OneLine(NAME);
    LineDeclares(digits);
    Decimal.ParsePrint(n);
  }

  /** Nothing inside a one-line header can be taken for the delimiter after it. */
  lemma HeaderEnds(header: bytes, more: bytes)
    requires OneLine(header)
    ensures var stream := header + DELIMITER + more;
            && Find(stream, DELIMITER) == Some(|header|)
            && stream[..|header|] == header && stream[|header| + 4..] == more
  {
    var stream := header + DELIMITER + more;
    forall j | 0 <= j < |header|
      ensures !Matches(stream, DELIMITER, j)
    {
      if Matches(stream, DELIMITER, j) { MatchHead(stream, DELIMITER, j); }
    }
    assert stream[|header|..|header| + 4] == DELIMITER;
    assert Matches(stream, DELIMITER, |header|);
  }

  /** Any header decides about what is behind it: one with a line that is no number stops the
      reader, a length still to come makes it wait with all it has, and else just so many
      bytes are the next payload, none for a negative length. */
  lemma HeaderDecides(header: bytes, rest: bytes)
    requires Find(header + "\r\n\r\n" + rest, "\r\n\r\n") == Some(|header|)
    ensures var stream, length := header + "\r\n\r\n" + rest, DeclaredLength(header);
            && (length.None? ==> Parse(stream) == Parsed([], [], false))
            && (length.Some? && |rest| < length.value ==> Parse(stream) == Parsed([], stream, true))
            && (length.Some? && 0 <= length.value <= |rest| ==>
                  var next := Parse(rest[length.value..]);
                  Parse(stream) == Parsed([rest[..length.value]] + next.payloads, next.rest, next.alive))
            && (length.Some? && length.value < 0 ==>
                  Parse(stream) == Parsed([[]] + Parse(rest).payloads, Parse(rest).rest, Parse(rest).alive))
  {
    hide DeclaredLength, Find;
    var stream := header + DELIMITER + rest;
    assert stream[..|header|] == header && stream[|header| + 4..] == rest;
    assert rest[..0] == [] && rest[0..] == rest;
  }

  /** A complete frame at the front is one payload, whatever the payload contains. */
  lemma FrameParses(payload: bytes, more: bytes)
    ensures Parse(Frame(payload) + more) == Parsed([payload], [], true).Then(Parse(more))
  {
    var header := NAME + Decimal.Print(|payload|);
    PrintDeclares(|payload|);
    HeaderEnds(header, payload + more);
    assert Frame(payload) + more == header + DELIMITER + (payload + more);
    assert (payload + more)[..|payload|] == payload && (payload + more)[|payload|..] == more;
  }

  /** A frame that lacks even its last byte yields nothing and is kept whole. */
  lemma PartialFrameWaits(payload: bytes, k: nat)
    requires k < |Frame(payload)|
    ensures Parse(Frame(payload)[..k]) == Parsed([], Frame(payload)[..k], true)
  {
    var header := NAME + Decimal.Print(|payload|);
    var part, missing := Frame(payload)[..k], Frame(payload)[k..];
    PrintDeclares(|payload|);
    HeaderEnds(header, payload);
    assert part + missing == Frame(payload);
    match Find(part, DELIMITER)
    case None =>
    case Some(i) =>
      FindStable(part, missing);
      assert part[..i] == header;
  }

  lemma {:induction false} FramesParse(payloads: seq<bytes>, more: bytes)
    requires Parse(more) == Parsed([], more, true)
    ensures Parse(Frames(payloads) + more) == Parsed(payloads, more, true)
    decreases |payloads|
  {
    if payloads == [] {
      assert Frames(payloads) + more == more;
    } else {
      var first, tail := payloads[0], Frames(payloads[1..]) + more;
      assert Frames(payloads) + more == Frame(first) + tail;
      FrameParses(first, tail);
      FramesParse(payloads[1..], more);
      assert payloads == [first] + payloads[1..];
    }
  }

  /** Main result: whatever the payloads contain, after any number of bytes of their
      frames the reader has delivered exactly those whose last byte has arrived, in order,
      and holds exactly the bytes of the unfinished frame. */
  lemma FramesRoundTrip(payloads: seq<bytes>, next: bytes, k: nat)
    requires k < |Frame(next)|
    ensures FeedAll(NOTHING, Bytewise(Frames(payloads) + Frame(next)[..k]))
         == Parsed(payloads, Frame(next)[..k], true)
  {
    var part := Frame(next)[..k];
    ReaderIsParser(Frames(payloads) + part);
    PartialFrameWaits(next, k);
    FramesParse(payloads, part);
  }

  // ---------------------------------------------------------------- counterexample

  /** Why the condition on negative lengths is there: in one chunk, two bytes after
      "Content-Length: -1" give a one-byte payload; byte by byte they never do. */
  lemma NegativeLengthSeesTheChunks()
    ensures var stream := NAME + "-1" + DELIMITER + "ab";
            !NoEagerNegative(stream) && FeedAll(NOTHING, [stream]) != FeedAll(NOTHING, Bytewise(stream))
  {
    var stream := NAME + "-1" + DELIMITER + "ab";
    LineDeclares("-1");
    assert "-1"[1..] == "1";
    assert Decimal.ParseDigits("1", 0) == Some(1);
    assert Decimal.ParseInt("-1") == Some(-1);
    HeaderEnds(NAME + "-1", "ab");
    assert !NoEagerNegative(stream);
    DrainIsParse(stream);
    OneChunk(stream);
    ReaderIsParser(stream);
  }
}
