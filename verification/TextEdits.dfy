/** Exact, count-checked text edits that are written all together or not at all. */
module TextEdits {
  import opened Text

  datatype CountArgument = Missing | NotInteger | Integer(value: int)

  /** One element of the decoded edit list. */
  datatype Edit = Malformed | Edit(old_: string, new_: string, count: CountArgument)

  datatype Refusal =
    | NoEdits
    | Unreadable
    | NotStrings(index: nat)
    | EmptyOld(index: nat)
    | CountNotInteger(index: nat)
    | CountOutOfRange(index: nat)
    | Stale(index: nat, expected: int, actual: nat)
    | WriteFailed

  datatype Result<+T> = Ok(value: T) | Err(refusal: Refusal)

  datatype Applied = Applied(index: nat, replacements: nat)

  const MAX_COUNT := 1000

  function Expected(e: Edit): int
    requires e.Edit?
  {
    if e.count.Integer? then e.count.value else 1
  }

  /** The argument checks an edit passes before the text is looked at. */
  predicate WellFormed(e: Edit)
  {
    e.Edit? && e.old_ != [] && !e.count.NotInteger? && 1 <= Expected(e) <= MAX_COUNT
  }

  function EditOnce(text: string, e: Edit, index: nat): Result<string>
  {
    if e.Malformed? then Err(NotStrings(index))
    else if e.old_ == [] then Err(EmptyOld(index))
    else if e.count.NotInteger? then Err(CountNotInteger(index))
    else if Expected(e) < 1 || Expected(e) > MAX_COUNT then Err(CountOutOfRange(index))
    else if Count(text, e.old_) != Expected(e) then Err(Stale(index, Expected(e), Count(text, e.old_)))
    else Ok(Replace(text, e.old_, e.new_, Expected(e)))
  }

  function Fold(text: string, edits: seq<Edit>, index: nat := 0): Result<string>
    decreases |edits|
  {
    if edits == [] then Ok(text)
    else match EditOnce(text, edits[0], index)
      case Err(r) => Err(r)
      case Ok(next) => Fold(next, edits[1..], index + 1)
  }

  predicate AllWellFormed(edits: seq<Edit>)
  {
    forall i :: 0 <= i < |edits| ==> WellFormed(edits[i])
  }

  /** One entry per edit, in order, with the number of its replacements. */
  function Record(edits: seq<Edit>): seq<Applied>
    requires AllWellFormed(edits)
  {
    seq(|edits|, i requires 0 <= i < |edits| => Applied(i, Expected(edits[i])))
  }

  // ---------------------------------------------------------------- what an edit means

  /** `after` is `before` cut at exactly the demanded number of leftmost matches of the old
      text and glued together with the new one. */
  ghost predicate Rewrites(before: string, e: Edit, after: string)
    requires WellFormed(e)
  {
    exists pieces ::
      && LeftmostPieces(before, e.old_, pieces)
      && |pieces| == Expected(e) + 1
      && after == Join(pieces, e.new_)
  }

  /** `versions` are the texts an edit list passes through. */
  ghost predicate History(versions: seq<string>, edits: seq<Edit>)
  {
    && |versions| == |edits| + 1
    && (forall i :: 0 <= i < |edits| ==> WellFormed(edits[i]) && Rewrites(versions[i], edits[i], versions[i + 1]))
  }

  lemma EditOnceMeaning(text: string, e: Edit, index: nat, after: string)
    ensures EditOnce(text, e, index) == Ok(after) <==> WellFormed(e) && Rewrites(text, e, after)
  {
    if WellFormed(e) {
      var pieces := Split(text, e.old_);
      SplitIsLeftmost(text, e.old_);
      if Count(text, e.old_) == Expected(e) {
        ReplaceJoins(text, e.old_, e.new_, Expected(e));
        assert LeftmostPieces(text, e.old_, pieces) && |pieces| == Expected(e) + 1;
      }
      if Rewrites(text, e, after) {
        var cut :| LeftmostPieces(text, e.old_, cut) && |cut| == Expected(e) + 1 && after == Join(cut, e.new_);
        LeftmostIsUnique(text, e.old_, cut);
      }
    }
  }

  /** Which refusal an edit gets, the tests coming in this order; `pieces` is the leftmost cut
      of the text at the old string. A stale edit is told how many matches it asked for, one
      if it did not say, and how many there are. */
  lemma RefusalMeaning(text: string, e: Edit, index: nat, pieces: seq<string>)
    requires e.Edit? && e.old_ != "" ==> LeftmostPieces(text, e.old_, pieces)
    ensures var outcome := EditOnce(text, e, index);
            if e.Malformed? then outcome == Err(NotStrings(index))
            else if e.old_ == "" then outcome == Err(EmptyOld(index))
            else if e.count == NotInteger then outcome == Err(CountNotInteger(index))
            else
              var wanted := if e.count == Missing then 1 else e.count.value;
              if wanted < 1 || 1000 < wanted then outcome == Err(CountOutOfRange(index))
              else if |pieces| - 1 != wanted then outcome == Err(Stale(index, wanted, |pieces| - 1))
              else outcome == Ok(Join(pieces, e.new_))
  {
    hide Count, Split, Replace, Join, LeftmostPieces;
    if e.Edit? && e.old_ != "" { CutMeaning(text, e.old_, e.new_, pieces); }
  }

  lemma CutMeaning(text: string, old_: string, new_: string, pieces: seq<string>)
    requires old_ != "" && LeftmostPieces(text, old_, pieces)
    ensures pieces != [] && Count(text, old_) == |pieces| - 1
    ensures Replace(text, old_, new_, |pieces| - 1) == Join(pieces, new_)
  {
    SplitIsLeftmost(text, old_);
    LeftmostIsUnique(text, old_, pieces);
    ReplaceJoins(text, old_, new_, |pieces| - 1);
  }

  /** The texts an accepted list passes through. */
  ghost function Versions(text: string, edits: seq<Edit>, index: nat): seq<string>
    decreases |edits|
  {
    if edits == [] then [text]
    else match EditOnce(text, edits[0], index)
      case Err(_) => [text]
      case Ok(next) => [text] + Versions(next, edits[1..], index + 1)
  }

  lemma HistoryGrows(text: string, tail: seq<string>, edits: seq<Edit>)
    requires edits != [] && History(tail, edits[1..])
    requires WellFormed(edits[0]) && Rewrites(text, edits[0], tail[0])
    ensures History([text] + tail, edits)
  {
    hide Rewrites, WellFormed;
    var versions := [text] + tail;
    forall i | 0 <= i < |edits|
      ensures WellFormed(edits[i]) && Rewrites(versions[i], edits[i], versions[i + 1])
    {
      if i > 0 { assert edits[i] == edits[1..][i - 1] && versions[i] == tail[i - 1] && versions[i + 1] == tail[i]; }
    }
  }

  lemma {:induction false} FoldHasHistory(text: string, edits: seq<Edit>, index: nat)
    requires Fold(text, edits, index).Ok?
    ensures var versions := Versions(text, edits, index);
            History(versions, edits) && versions[0] == text && versions[|edits|] == Fold(text, edits, index).value
    decreases |edits|
  {
    hide EditOnce, Rewrites, WellFormed;
    if edits != [] {
      var next := EditOnce(text, edits[0], index).value;
      EditOnceMeaning(text, edits[0], index, next);
      FoldHasHistory(next, edits[1..], index + 1);
      HistoryGrows(text, Versions(next, edits[1..], index + 1), edits);
    }
  }

  lemma {:induction false} HistoryFolds(versions: seq<string>, edits: seq<Edit>, index: nat)
    requires History(versions, edits)
    ensures Fold(versions[0], edits, index) == Ok(versions[|edits|])
    decreases |edits|
  {
    if edits != [] {
      EditOnceMeaning(versions[0], edits[0], index, versions[1]);
      forall i | 0 <= i < |edits[1..]|
        ensures WellFormed(edits[1..][i]) && Rewrites(versions[1..][i], edits[1..][i], versions[1..][i + 1])
      {
        assert edits[1..][i] == edits[i + 1];
      }
      HistoryFolds(versions[1..], edits[1..], index + 1);
    }
  }

  /** Main result: an edit list is accepted with a text exactly when that text ends a
      history in which every edit cut its text at its demanded number of leftmost matches. */
  lemma FoldMeaning(text: string, edits: seq<Edit>, result: string)
    ensures Fold(text, edits) == Ok(result)
       <==> exists versions :: History(versions, edits) && versions[0] == text && versions[|edits|] == result
  {
    if Fold(text, edits) == Ok(result) {
      FoldHasHistory(text, edits, 0);
      var versions := Versions(text, edits, 0);
      assert History(versions, edits) && versions[0] == text && versions[|edits|] == result;
    }
    forall versions | History(versions, edits) && versions[0] == text && versions[|edits|] == result
      ensures Fold(text, edits) == Ok(result)
    {
      HistoryFolds(versions, edits, 0);
    }
  }

  function Growth(edits: seq<Edit>): int
    requires AllWellFormed(edits)
  {
    if edits == [] then 0
    else Expected(edits[0]) * (|edits[0].new_| - |edits[0].old_|) + Growth(edits[1..])
  }

  /** The length of an accepted result can be told from the list alone. */
  lemma {:induction false} FoldLength(text: string, edits: seq<Edit>, index: nat)
    requires Fold(text, edits, index).Ok?
    ensures AllWellFormed(edits)
    ensures |Fold(text, edits, index).value| == |text| + Growth(edits)
    decreases |edits|
  {
    if edits != [] {
      var next := EditOnce(text, edits[0], index).value;
      ReplaceLength(text, edits[0].old_, edits[0].new_, Expected(edits[0]));
      FoldLength(next, edits[1..], index + 1);
      assert edits == [edits[0]] + edits[1..];
    }
  }

  /** A refusal names the first edit that does not fit the text left by those before it,
      and a stale one reports how many matches there really were. */
  lemma {:induction false} RefusalNamesTheEdit(text: string, edits: seq<Edit>, index: nat)
    requires Fold(text, edits, index).Err?
    ensures exists k :: 0 <= k < |edits|
              && Fold(text, edits[..k], index).Ok?
              && Fold(text, edits, index) == EditOnce(Fold(text, edits[..k], index).value, edits[k], index + k)
    decreases |edits|
  {
    hide EditOnce;
    match EditOnce(text, edits[0], index)
    case Err(_) =>
      assert edits[..0] == [] && Fold(text, edits[..0], index) == Ok(text);
    case Ok(next) =>
      RefusalNamesTheEdit(next, edits[1..], index + 1);
      var rest := edits[1..];
      var k :| 0 <= k < |rest| && Fold(next, rest[..k], index + 1).Ok?
            && Fold(next, rest, index + 1) == EditOnce(Fold(next, rest[..k], index + 1).value, rest[k], index + 1 + k);
      assert edits[..k + 1][0] == edits[0] && edits[..k + 1][1..] == rest[..k] && edits[k + 1] == rest[k];
      assert Fold(text, edits[..k + 1], index) == Fold(next, rest[..k], index + 1);
  }

  /** An edit is undone by its mirror image when the new text stands nowhere else: the
      pieces must be the leftmost cut of the result, too. */
  lemma MirrorUndoes(before: string, e: Edit, after: string, index: nat)
    requires EditOnce(before, e, index) == Ok(after)
    requires e.new_ != [] && LeftmostPieces(after, e.new_, Split(before, e.old_))
    ensures EditOnce(after, Edit(e.new_, e.old_, e.count), index) == Ok(before)
  {
    var mirror := Edit(e.new_, e.old_, e.count);
    var pieces := Split(before, e.old_);
    SplitIsLeftmost(before, e.old_);
    assert Expected(mirror) == Expected(e);
    EditOnceMeaning(after, mirror, index, before);
  }

  // ---------------------------------------------------------------- the tool

  datatype Reply =
    | Refused(refusal: Refusal)
    | Unchanged(applied: seq<Applied>)
    | Written(applied: seq<Applied>, charsBefore: nat, charsAfter: int)

  /** The loop over the edits: the fold, and on success the record of what was applied. */
  method FoldEdits(original: string, edits: seq<Edit>) returns (outcome: Result<string>, applied: seq<Applied>)
    ensures outcome == Fold(original, edits)
    ensures outcome.Ok? ==> AllWellFormed(edits) && applied == Record(edits)
  {
    hide Count, Replace;
    var updated, index := original, 0;
    applied := [];
    while index < |edits|
      invariant 0 <= index <= |edits|
      invariant Fold(original, edits) == Fold(updated, edits[index..], index)
      invariant AllWellFormed(edits[..index]) && applied == Record(edits[..index])
    {
      var e := edits[index];
      assert edits[index..][0] == e && edits[index..][1..] == edits[index + 1..];
      if e.Malformed? { return Err(NotStrings(index)), []; }
      if e.old_ == [] { return Err(EmptyOld(index)), []; }
      if e.count.NotInteger? { return Err(CountNotInteger(index)), []; }
      var expected := if e.count.Integer? then e.count.value else 1;
      if expected < 1 || expected > MAX_COUNT { return Err(CountOutOfRange(index)), []; }
      var actual := Count(updated, e.old_);
      if actual != expected { return Err(Stale(index, expected, actual)), []; }
      updated := Replace(updated, e.old_, e.new_, expected);
      applied := applied + [Applied(index, expected)];
      assert edits[..index + 1] == edits[..index] + [e];
      index := index + 1;
    }
    assert edits[index..] == [] && edits[..index] == edits;
    outcome := Ok(updated);
  }

  // ---------------------------------------------------------------- the file behind the text

  /** Universal newlines of `read_text`: "\r\n" and "\r" are read as "\n". */
  function ReadText(raw: string): (text: string)
    ensures '\r' !in text
    decreases |raw|
  {
    if raw == [] then []
    else if raw[0] == '\r' then "\n" + ReadText(raw[if |raw| > 1 && raw[1] == '\n' then 2 else 1..])
    else [raw[0]] + ReadText(raw[1..])
  }

  /** `write_text` puts the platform's line end for every "\n". */
  function WriteText(text: string, lineEnd: string): string
  {
    if text == [] then []
    else (if text[0] == '\n' then lineEnd else [text[0]]) + WriteText(text[1..], lineEnd)
  }

  predicate IsLineEnd(lineEnd: string)
  {
    lineEnd == "\n" || lineEnd == "\r\n"
  }

  lemma {:induction false} ReadsBack(text: string, lineEnd: string)
    requires IsLineEnd(lineEnd) && '\r' !in text
    ensures ReadText(WriteText(text, lineEnd)) == text
    decreases |text|
  {
    if text != [] {
      ReadsBack(text[1..], lineEnd);
      var rest := WriteText(text[1..], lineEnd);
      var raw := WriteText(text, lineEnd);
      assert text == [text[0]] + text[1..];
      assert text[0] != '\r';
      if text[0] == '\n' {
        assert raw == lineEnd + rest && raw[|lineEnd|..] == rest;
      } else {
        assert raw == [text[0]] + rest && raw[1..] == rest;
      }
    }
  }

  /** What is written reads back as what was meant exactly when it has no carriage return. */
  lemma {:induction false} WrittenIsRead(text: string, lineEnd: string)
    requires IsLineEnd(lineEnd)
    ensures ReadText(WriteText(text, lineEnd)) == text <==> '\r' !in text
  {
    if '\r' !in text { ReadsBack(text, lineEnd); }
  }

  /** Line ends come as "\r\n" only. */
  predicate AllPaired(raw: string)
  {
    if raw == [] then true
    else if raw[0] == '\r' then |raw| > 1 && raw[1] == '\n' && AllPaired(raw[2..])
    else raw[0] != '\n' && AllPaired(raw[1..])
  }

  /** All line ends of a file are the platform's. */
  predicate Uniform(raw: string, lineEnd: string)
  {
    if lineEnd == "\n" then '\r' !in raw else AllPaired(raw)
  }

  lemma WriteFirst(c: char, text: string)
    ensures WriteText([c] + text, "\r\n") == (if c == '\n' then "\r\n" else [c]) + WriteText(text, "\r\n")
  {
    assert ([c] + text)[1..] == text;
  }

  lemma {:induction false} PairedIsKept(raw: string)
    ensures WriteText(ReadText(raw), "\r\n") == raw <==> AllPaired(raw)
    decreases |raw|
  {
    if raw != [] {
      var paired := raw[0] == '\r' && |raw| > 1 && raw[1] == '\n';
      var k := if paired then 2 else 1;
      var first := if raw[0] == '\r' then '\n' else raw[0];
      var text := ReadText(raw[k..]);
      assert ReadText(raw) == [first] + text;
      assert AllPaired(raw) <==> (paired || (raw[0] != '\r' && raw[0] != '\n')) && AllPaired(raw[k..]);
      hide ReadText, WriteText, AllPaired;
      PairedIsKept(raw[k..]);
      WriteFirst(first, text);
      var end := if first == '\n' then "\r\n" else [first];
      assert end == raw[..k] <==> paired || (raw[0] != '\r' && raw[0] != '\n') by {
        if end == raw[..k] { assert raw[0] == raw[..k][0] && |end| == k; }
      }
      PrefixDecides(end, WriteText(text, "\r\n"), raw, k);
    }
  }

  lemma PrefixDecides(end: string, written: string, raw: string, k: nat)
    requires k <= |raw| && (end == raw[..k] || !(end <= raw))
    ensures end + written == raw <==> end == raw[..k] && written == raw[k..]
  {
    if end == raw[..k] {
      assert raw == raw[..k] + raw[k..];
      assert (end + written)[k..] == written;
    } else {
      assert end <= end + written;
    }
  }

  /** Reading and writing back keeps a file, and so an edit the bytes it did not touch,
      exactly when the line ends of the file are the platform's. */
  lemma {:induction false} UntouchedIsKept(raw: string, lineEnd: string)
    requires IsLineEnd(lineEnd)
    ensures WriteText(ReadText(raw), lineEnd) == raw <==> Uniform(raw, lineEnd)
  {
    if lineEnd == "\n" {
      SameLines(ReadText(raw));
      if '\r' !in raw {
        SameLines(raw);
        ReadsBack(raw, lineEnd);
      }
    } else {
      PairedIsKept(raw);
    }
  }

  lemma {:induction false} SameLines(text: string)
    ensures WriteText(text, "\n") == text
    decreases |text|
  {
    if text != [] {
      SameLines(text[1..]);
      assert text == [text[0]] + text[1..];
    }
  }

  /** The answer of the write call, which truncates the file before it writes. */
  datatype Writing = Succeeds | Fails | Tears(left: string)

  class Repository {
    const lineEnd: string
    var files: map<string, string>

    /** The text read at first decides, whatever the write finds (`found` is the state of
        all files by then). A refusal leaves the files alone. A write leaves the fold of
        all edits; one that fails before truncating changes nothing, and one that fails
        later tears the file. */
    method ApplyEdits(path: string, edits: seq<Edit>, found: map<string, string>, writing: Writing)
      returns (reply: Reply)
      modifies this`files
      ensures edits == [] ==> reply == Refused(NoEdits) && files == old(files)
      ensures edits != [] && path !in old(files) ==> reply == Refused(Unreadable) && files == old(files)
      ensures edits != [] && path in old(files) ==>
        var original := ReadText(old(files)[path]);
        match Fold(original, edits)
        case Err(r) => reply == Refused(r) && files == old(files)
        case Ok(text) =>
          && AllWellFormed(edits)
          && if text == original then reply == Unchanged(Record(edits)) && files == old(files)
             else match writing
                  case Succeeds =>
                    && files == found[path := WriteText(text, lineEnd)]
                    && reply == Written(Record(edits), |original|, |original| + Growth(edits))
                  case Fails => reply == Refused(WriteFailed) && files == found
                  case Tears(left) => reply == Refused(WriteFailed) && files == found[path := left]
    {
      if edits == [] { return Refused(NoEdits); }
      if path !in files { return Refused(Unreadable); }
      var original := ReadText(files[path]);
      var outcome, applied := FoldEdits(original, edits);
      if outcome.Err? { return Refused(outcome.refusal); }
      FoldLength(original, edits, 0);
      if outcome.value == original { return Unchanged(applied); }
      files := found;
      match writing
      case Fails =>
        return Refused(WriteFailed);
      case Tears(left) =>
        files := files[path := left];
        return Refused(WriteFailed);
      case Succeeds =>
        files := files[path := WriteText(outcome.value, lineEnd)];
        return Written(applied, |original|, |outcome.value|);
    }

    constructor (files: map<string, string>, lineEnd: string)
      ensures this.files == files && this.lineEnd == lineEnd
    {
      this.files := files;
      this.lineEnd := lineEnd;
    }
  }
}
