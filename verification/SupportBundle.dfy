/** The support bundle's scrubber and the validator that has the last word on its output.
    Regular expressions, entropy tests and URL rewriting are parameters. */
module SupportBundle {
  import opened Text

  const MARKER := "[REDACTED_KNOWN_SECRET]"
  const MARKER_WORD := "REDACTED_KNOWN_SECRET"

  // ---------------------------------------------------------------- known secrets

  /** The loop over the known secrets, in whatever order they come. */
  function ReplaceSecrets(text: string, secrets: seq<string>): string
    requires [] !in secrets
    decreases |secrets|
  {
    if secrets == [] then text
    else ReplaceSecrets(ReplaceAll(text, secrets[0], MARKER), secrets[1..])
  }

  method ReplaceSecretsLoop(text: string, secrets: seq<string>) returns (clean: string)
    requires [] !in secrets
    ensures clean == ReplaceSecrets(text, secrets)
  {
    clean := text;
    var i := 0;
    while i < |secrets|
      invariant 0 <= i <= |secrets|
      invariant ReplaceSecrets(text, secrets) == ReplaceSecrets(clean, secrets[i..])
    {
      assert secrets[i..][0] == secrets[i] && secrets[i..][1..] == secrets[i + 1..];
      clean := ReplaceAll(clean, secrets[i], MARKER);
      i := i + 1;
    }
    assert secrets[i..] == [];
  }

  /** Laid `k` letters behind the start of the marker, the secret overlaps it and agrees with
      it there. */
  predicate FitsOver(secret: string, k: int)
  {
    && -|secret| < k < |MARKER|
    && forall i :: 0 <= i < |secret| && 0 <= k + i < |MARKER| ==> secret[i] == MARKER[k + i]
  }

  /** Some text of the secret can stand over part of a marker. */
  ghost predicate Touches(secret: string)
  {
    exists k :: FitsOver(secret, k)
  }

  ghost predicate Separate(secret: string)
  {
    secret != [] && !Touches(secret)
  }

  /** An occurrence in joined pieces lies in one piece or touches a marker. */
  lemma {:induction false} OccursInJoin(pieces: seq<string>, s: string, j: int)
    requires pieces != [] && Separate(s) && Matches(Join(pieces, MARKER), s, j)
    ensures exists k :: 0 <= k < |pieces| && Occurs(pieces[k], s)
    decreases |pieces|
  {
    var p := pieces[0];
    if |pieces| == 1 {
      assert Matches(p, s, j);
    } else {
      var rest := Join(pieces[1..], MARKER);
      var n := |p|;
      assert Join(pieces, MARKER) == (p + MARKER) + rest;
      if j + |s| <= n {
        assert Join(pieces, MARKER) == p + (MARKER + rest);
        MatchInPrefix(p, MARKER + rest, s, j);
        assert Occurs(p, s);
      } else if j >= n + |MARKER| {
        MatchInSuffix(p + MARKER, rest, s, j);
        OccursInJoin(pieces[1..], s, j - n - |MARKER|);
        var k :| 0 <= k < |pieces[1..]| && Occurs(pieces[1..][k], s);
        assert Occurs(pieces[k + 1], s);
      } else {
        MeetsMarker(p, rest, s, j);
      }
    }
  }

  lemma MeetsMarker(p: string, rest: string, s: string, j: int)
    requires Matches((p + MARKER) + rest, s, j)
    requires j + |s| > |p| && j < |p| + |MARKER|
    ensures FitsOver(s, j - |p|)
  {
    var t := (p + MARKER) + rest;
    assert forall i :: 0 <= i < |s| ==> s[i] == t[j..j + |s|][i] == t[j + i];
    assert forall i :: 0 <= i < |MARKER| ==> t[|p| + i] == MARKER[i];
  }

  /** What is in a piece is in the whole. */
  lemma {:induction false} PieceOccurs(pieces: seq<string>, separator: string, k: nat, s: string)
    requires k < |pieces| && Occurs(pieces[k], s)
    ensures Occurs(Join(pieces, separator), s)
    decreases |pieces|
  {
    var whole := Join(pieces, separator);
    if |pieces| > 1 {
      var rest := Join(pieces[1..], separator);
      if k == 0 {
        var j :| Matches(pieces[0], s, j);
        assert whole == pieces[0] + (separator + rest);
        MatchInPrefix(pieces[0], separator + rest, s, j);
        assert Matches(whole, s, j);
      } else {
        assert pieces[1..][k - 1] == pieces[k];
        PieceOccurs(pieces[1..], separator, k - 1, s);
        var j :| Matches(rest, s, j);
        MatchInSuffix(pieces[0] + separator, rest, s, j + |pieces[0] + separator|);
        assert Matches(whole, s, j + |pieces[0] + separator|);
      }
    }
  }

  /** One replacement removes its secret and brings back none that is already gone. */
  lemma ReplaceCleans(text: string, secret: string, s: string)
    requires secret != [] && Separate(s) && (s == secret || !Occurs(text, s))
    ensures !Occurs(ReplaceAll(text, secret, MARKER), s)
  {
    var pieces := Split(text, secret);
    SplitIsLeftmost(text, secret);
    CountBound(text, secret);
    ReplaceJoins(text, secret, MARKER, |text|);
    if Occurs(ReplaceAll(text, secret, MARKER), s) {
      var j :| Matches(Join(pieces, MARKER), s, j);
      OccursInJoin(pieces, s, j);
      var k :| 0 <= k < |pieces| && Occurs(pieces[k], s);
      if s != secret { PieceOccurs(pieces, secret, k, s); }
      assert false;
    }
  }

  lemma {:induction false} StaysAway(text: string, secrets: seq<string>, s: string)
    requires [] !in secrets && Separate(s) && (s in secrets || !Occurs(text, s))
    ensures !Occurs(ReplaceSecrets(text, secrets), s)
    decreases |secrets|
  {
    if secrets != [] {
      if s == secrets[0] || !Occurs(text, s) { ReplaceCleans(text, secrets[0], s); }
      StaysAway(ReplaceAll(text, secrets[0], MARKER), secrets[1..], s);
    }
  }

  /** Main result: after the replacements no known secret is left anywhere in the text,
      whatever the order they were made in. */
  lemma NoSecretSurvives(text: string, secrets: seq<string>)
    requires [] !in secrets && forall s :: s in secrets ==> Separate(s)
    ensures forall s :: s in secrets ==> !Occurs(ReplaceSecrets(text, secrets), s)
  {
    forall s | s in secrets
      ensures !Occurs(ReplaceSecrets(text, secrets), s)
    {
      StaysAway(text, secrets, s);
    }
  }

  lemma OneSecret(text: string, secret: string)
    requires secret != []
    ensures ReplaceSecrets(text, [secret]) == ReplaceAll(text, secret, MARKER)
  {
    assert [secret][1..] == [];
  }

  // ---------------------------------------------------------------- secrets the marker brings back

  /** After `front` the scan meets the secret no earlier than where it stands. */
  ghost predicate Leads(front: string, secret: string)
  {
    forall j :: 0 <= j < |front| ==> !Matches(front + secret, secret, j)
  }

  /** The part of a secret in front of a marker it is laid over. */
  function Front(secret: string, k: int): (front: string)
    requires -|secret| < k
    ensures secret != [] ==> |front| < |secret|
    ensures front <= secret
  {
    if k < 0 then secret[..-k] else []
  }

  ghost predicate Completable(secret: string)
  {
    exists k :: FitsOver(secret, k) && Leads(Front(secret, k), secret)
  }

  /** Some text still holds the secret after its replacement. */
  ghost predicate Leaks(secret: string)
    requires secret != []
  {
    exists text: string :: Occurs(ReplaceSecrets(text, [secret]), secret)
  }

  lemma WholeReplaced(front: string, secret: string, tail: string)
    requires secret != [] && |tail| < |secret| && Leads(front, secret)
    ensures ReplaceAll(front + secret + tail, secret, MARKER) == front + MARKER + tail
  {
    var t := front + secret + tail;
    assert t[|front|..|front| + |secret|] == secret;
    forall j | 0 <= j < |front|
      ensures !Matches(t, secret, j)
    {
      MatchInPrefix(front + secret, tail, secret, j);
    }
    assert Matches(t, secret, |front|);
    assert Find(t, secret) == Some(|front|);
    assert t[..|front|] == front && t[|front| + |secret|..] == tail;
    assert Find(tail, secret).None?;
    assert Replace(tail, secret, MARKER, |t| - 1) == tail;
  }

  lemma FirstReplaced(secret: string, tail: string)
    requires secret != [] && |tail| < |secret|
    ensures ReplaceAll(secret + tail, secret, MARKER) == MARKER + tail
  {
    hide ReplaceAll;
    WholeReplaced([], secret, tail);
    assert [] + secret + tail == secret + tail && [] + MARKER + tail == MARKER + tail;
  }

  lemma CompletableLeaks(s: string, k: int)
    requires s != [] && FitsOver(s, k) && Leads(Front(s, k), s)
    ensures Leaks(s)
  {
    OverlaidOccurs(s, k);
    hide Occurs, FitsOver, Leads, Front, Tail, ReplaceSecrets, ReplaceAll;
    var front, tail := Front(s, k), Tail(s, k);
    WholeReplaced(front, s, tail);
    OneSecret(front + s + tail, s);
    assert Occurs(ReplaceSecrets(front + s + tail, [s]), s);
  }

  /** The part of a secret behind a marker it is laid over. */
  function Tail(secret: string, k: int): (tail: string)
    requires secret != [] && k < |MARKER|
    ensures |tail| < |secret|
  {
    if k + |secret| > |MARKER| then secret[|MARKER| - k..] else []
  }

  /** Between its front and its tail a marker completes the secret. */
  lemma OverlaidOccurs(s: string, k: int)
    requires s != [] && FitsOver(s, k)
    ensures Occurs(Front(s, k) + MARKER + Tail(s, k), s)
  {
    assert forall i :: 0 <= i < |s| && 0 <= k + i < |MARKER| ==> s[i] == MARKER[k + i];
    LaidOver(s, MARKER, k, Front(s, k), Tail(s, k));
  }

  lemma LaidOver(s: string, m: string, k: int, front: string, tail: string)
    requires -|s| < k < |m| && forall i :: 0 <= i < |s| && 0 <= k + i < |m| ==> s[i] == m[k + i]
    requires front == if k < 0 then s[..-k] else []
    requires tail == if k + |s| > |m| then s[|m| - k..] else []
    ensures Occurs(front + m + tail, s)
  {
    var after, at := front + m + tail, |front| + k;
    forall i | 0 <= i < |s|
      ensures after[at + i] == s[i]
    {
      if k + i < 0 {
        assert after[at + i] == front[i];
      } else if k + i < |m| {
        assert after[at + i] == m[k + i];
      } else {
        assert after[at + i] == tail[k + i - |m|];
      }
    }
    assert after[at..at + |s|] == s;
    assert Matches(after, s, at);
  }

  lemma {:induction false} JoinedLeak(pieces: seq<string>, s: string, j: int)
    requires s != [] && pieces != [] && Matches(Join(pieces, MARKER), s, j)
    requires forall k :: 0 <= k < |pieces| ==> !Occurs(pieces[k], s)
    requires forall k :: 0 <= k < |pieces| - 1 ==> Leads(pieces[k], s)
    ensures Completable(s)
    decreases |pieces|
  {
    var p, others := pieces[0], pieces[1..];
    if others == [] {
      assert Occurs(p, s);
      assert false;
    } else {
      var rest := Join(others, MARKER);
      assert Join(pieces, MARKER) == (p + MARKER) + rest == p + (MARKER + rest);
      if j + |s| <= |p| {
        MatchInPrefix(p, MARKER + rest, s, j);
        assert Occurs(p, s);
        assert false;
      } else if j >= |p| + |MARKER| {
        MatchInSuffix(p + MARKER, rest, s, j);
        JoinedLeak(others, s, j - |p| - |MARKER|);
      } else {
        MeetsMarker(p, rest, s, j);
        FrontLeads(p, MARKER + rest, s, j);
      }
    }
  }

  /** The front of a match that runs out of a piece leads to the secret as the piece does. */
  lemma FrontLeads(p: string, rest: string, s: string, j: int)
    requires Leads(p, s) && Matches(p + rest, s, j) && j + |s| > |p|
    ensures Leads(Front(s, j - |p|), s)
  {
    if j < |p| {
      var front := Front(s, j - |p|);
      assert front == (p + rest)[j..j + |s|][..|p| - j] == p[j..];
      assert p + s == p[..j] + (front + s);
      forall i | 0 <= i < |front|
        ensures !Matches(front + s, s, i)
      {
        MatchInSuffix(p[..j], front + s, s, j + i);
      }
    }
  }

  /** Main result on one secret: it can come back exactly when it fits over a marker and the
      scan reaches it behind the part in front. */
  lemma LeaksExactly(s: string)
    requires s != []
    ensures Leaks(s) <==> Completable(s)
  {
    if Completable(s) {
      var k :| FitsOver(s, k) && Leads(Front(s, k), s);
      CompletableLeaks(s, k);
    }
    if Leaks(s) {
      var text: string :| Occurs(ReplaceSecrets(text, [s]), s);
      var pieces := Split(text, s);
      OneSecret(text, s);
      SplitIsLeftmost(text, s);
      CountBound(text, s);
      ReplaceJoins(text, s, MARKER, |text|);
      var j :| Matches(Join(pieces, MARKER), s, j);
      JoinedLeak(pieces, s, j);
    }
  }

  /** No end of the secret is a beginning of it. */
  ghost predicate Unbordered(secret: string)
  {
    forall d :: 0 < d < |secret| ==> secret[d..] != secret[..|secret| - d]
  }

  /** So for a secret that does not overlap itself the condition of the main result above is
      exact: it leaks as soon as it touches the marker. */
  lemma TouchingLeaks(s: string)
    requires s != [] && Unbordered(s)
    ensures Leaks(s) <==> Touches(s)
  {
    LeaksExactly(s);
    if Touches(s) {
      var k :| FitsOver(s, k);
      var front := Front(s, k);
      forall j | 0 <= j < |front|
        ensures !Matches(front + s, s, j)
      {
        if Matches(front + s, s, j) { OverlapsItself(front, s, j); }
      }
    }
  }

  lemma OverlapsItself(front: string, s: string, j: nat)
    requires j < |front| < |s| && Matches(front + s, s, j)
    ensures var d := |front| - j; s[d..] == s[..|s| - d]
  {
    var d := |front| - j;
    assert s[d..] == (front + s)[j..j + |s|][d..] == (front + s)[|front|..j + |s|] == s[..|s| - d];
  }

  /** What fits over the marker has one of its brackets or lies inside its word. */
  lemma MeetsBracket(s: string, k: int)
    requires FitsOver(s, k)
    ensures '[' in s || ']' in s || Occurs(MARKER_WORD, s)
  {
    if k <= 0 {
      assert s[-k] == MARKER[0];
    } else if k + |s| >= |MARKER| {
      assert s[|MARKER| - 1 - k] == MARKER[|MARKER| - 1];
    } else {
      assert forall i :: 0 <= i < |MARKER_WORD| ==> MARKER_WORD[i] == MARKER[i + 1];
      assert MARKER_WORD[k - 1..k - 1 + |s|] == s;
      assert Matches(MARKER_WORD, s, k - 1);
    }
  }

  /** A secret without bracket that does not lie inside the marker's word is separate. */
  lemma PlainIsSeparate(s: string)
    requires s != [] && '[' !in s && ']' !in s && !Occurs(MARKER_WORD, s)
    ensures Separate(s)
  {
    forall k
      ensures !FitsOver(s, k)
    {
      if FitsOver(s, k) { MeetsBracket(s, k); }
    }
  }

  /** A secret inside the marker's word is put in by the marker. */
  lemma MarkerWordLeaks(secret: string)
    requires secret != [] && Occurs(MARKER_WORD, secret)
    ensures Occurs(ReplaceSecrets(secret, [secret]), secret)
  {
    hide ReplaceSecrets, ReplaceAll;
    InMarker(secret);
    hide Occurs;
    FirstReplaced(secret, []);
    assert secret + [] == secret && MARKER + [] == MARKER;
    OneSecret(secret, secret);
  }

  lemma InMarker(s: string)
    requires Occurs(MARKER_WORD, s)
    ensures Occurs(MARKER, s)
  {
    MarkerIsWord();
    InBrackets(MARKER_WORD, s);
  }

  lemma MarkerIsWord()
    ensures MARKER == "[" + MARKER_WORD + "]"
  {
  }

  lemma InBrackets(word: string, s: string)
    requires Occurs(word, s)
    ensures Occurs("[" + word + "]", s)
  {
    var j :| Matches(word, s, j);
    MatchInSuffix("[", word, s, j + 1);
    MatchInPrefix("[" + word, "]", s, j + 1);
    assert Matches("[" + word + "]", s, j + 1);
  }

  /** The end of the marker completes a secret that starts with its bracket. */
  lemma BracketLeaks(tail: string)
    requires tail != []
    ensures var secret := "]" + tail; Occurs(ReplaceSecrets(secret + tail, [secret]), secret)
  {
    var secret := "]" + tail;
    FirstReplaced(secret, tail);
    OneSecret(secret + tail, secret);
    var t := MARKER + tail;
    assert t[|MARKER| - 1..|MARKER| - 1 + |secret|] == secret;
    assert Matches(t, secret, |MARKER| - 1);
  }

  /** The known secrets as the program collects and orders them: each once, of at least eight
      letters, the longer before the shorter. */
  ghost predicate Collected(secrets: seq<string>)
  {
    && (forall i :: 0 <= i < |secrets| ==> |secrets[i]| >= 8)
    && (forall i, j :: 0 <= i < j < |secrets| ==> secrets[i] != secrets[j] && |secrets[i]| >= |secrets[j]|)
  }

  ghost predicate LeaksAmong(text: string, secrets: seq<string>, s: string)
  {
    Collected(secrets) && s in secrets && [] !in secrets && Occurs(ReplaceSecrets(text, secrets), s)
  }

  /** A secret without the letter `c`, and as long a one of that letter only: where they do
      not meet, the first is not there to be replaced. */
  lemma NotInFiller(front: string, tail: string, s: string, c: char)
    requires c !in s && |front| < |s| && |tail| < |s|
    ensures !Occurs(front + Repeated(c, |s|) + tail, s)
  {
    var filler := Repeated(c, |s|);
    var text := front + filler + tail;
    forall j
      ensures !Matches(text, s, j)
    {
      if 0 <= j && j + |s| <= |text| {
        var at := if j < |front| then |front| else j;
        assert text[at] == c && text[j..j + |s|][at - j] == c;
      }
    }
  }

  function Repeated(c: char, n: nat): (s: string)
    ensures |s| == n && forall i :: 0 <= i < n ==> s[i] == c
  {
    seq(n, _ => c)
  }

  /** What is not in the text is not replaced. */
  lemma NothingReplaced(text: string, s: string)
    requires s != [] && !Occurs(text, s)
    ensures ReplaceAll(text, s, MARKER) == text
  {
  }

  /** Company brings a secret back: it is not in the text, and the marker put in for another
      one completes it. */
  lemma CompanyLeaks(s: string, k: int, c: char)
    requires s != [] && FitsOver(s, k) && c !in s
    ensures exists text: string ::
              !Occurs(text, s) && Occurs(ReplaceSecrets(text, [s, Repeated(c, |s|)]), s)
  {
    var front, filler, tail := Front(s, k), Repeated(c, |s|), Tail(s, k);
    OverlaidOccurs(s, k);
    hide ReplaceAll, ReplaceSecrets, FitsOver, Front, Tail, Occurs;
    NotInFiller(front, tail, s, c);
    NothingReplaced(front + filler + tail, s);
    LeadsToFiller(front, s, c);
    WholeReplaced(front, filler, tail);
    TwoSecrets(front + filler + tail, s, filler);
  }

  lemma LeadsToFiller(front: string, s: string, c: char)
    requires front <= s && c !in s
    ensures Leads(front, Repeated(c, |s|))
  {
    var filler := Repeated(c, |s|);
    forall j | 0 <= j < |front|
      ensures !Matches(front + filler, filler, j)
    {
      if j + |filler| <= |front| + |filler| {
        assert (front + filler)[j..j + |filler|][0] == front[j] == s[j];
      }
    }
  }

  lemma TwoSecrets(text: string, s: string, t: string)
    requires s != [] && t != []
    ensures ReplaceSecrets(text, [s, t]) == ReplaceAll(ReplaceAll(text, s, MARKER), t, MARKER)
  {
    assert [s, t][1..] == [t];
    OneSecret(ReplaceAll(text, s, MARKER), t);
  }

  /** Main result, and the converse of the first: a secret can come back among known ones, as
      the program collects and orders them, exactly when it fits over the marker. */
  lemma LeaksAmongExactly(s: string, c: char)
    requires |s| >= 8 && c !in s
    ensures (exists text: string, secrets: seq<string> :: LeaksAmong(text, secrets, s)) <==> Touches(s)
  {
    if Touches(s) {
      var k :| FitsOver(s, k);
      CompanyLeaks(s, k, c);
      var secrets := [s, Repeated(c, |s|)];
      var text: string :| Occurs(ReplaceSecrets(text, secrets), s);
      assert Repeated(c, |s|)[0] == c;
      assert LeaksAmong(text, secrets, s);
    } else {
      forall text: string, secrets: seq<string>
        ensures !LeaksAmong(text, secrets, s)
      {
        if [] !in secrets && s in secrets { StaysAway(text, secrets, s); }
      }
    }
  }

  const EIGHT_BRACKETS := "[[[[[[[["

  /** Eight brackets overlap themselves: they fit over the marker and never come back alone,
      but do so in company. */
  lemma BracketsLeakInCompany()
    ensures Touches(EIGHT_BRACKETS) && !Leaks(EIGHT_BRACKETS)
    ensures exists text: string :: LeaksAmong(text, [EIGHT_BRACKETS, Repeated('x', 8)], EIGHT_BRACKETS)
  {
    BracketsStayAwayAlone();
    OnlyBeforeMarker(-7);
    hide ReplaceSecrets, FitsOver, Touches;
    CompanyLeaks(EIGHT_BRACKETS, -7, 'x');
    var filler := Repeated('x', 8);
    assert filler[0] == 'x';
    var text: string :| Occurs(ReplaceSecrets(text, [EIGHT_BRACKETS, filler]), EIGHT_BRACKETS);
    assert LeaksAmong(text, [EIGHT_BRACKETS, filler], EIGHT_BRACKETS);
  }

  lemma BracketsStayAwayAlone()
    ensures Touches(EIGHT_BRACKETS) && !Leaks(EIGHT_BRACKETS)
  {
    OnlyBeforeMarker(-7);
    hide Leads, Leaks;
    forall k | FitsOver(EIGHT_BRACKETS, k)
      ensures !Leads(Front(EIGHT_BRACKETS, k), EIGHT_BRACKETS)
    {
      OnlyBeforeMarker(k);
      BracketsMeetThemselves();
    }
    LeaksExactly(EIGHT_BRACKETS);
  }

  lemma BracketsMeetThemselves()
    ensures !Leads(EIGHT_BRACKETS[..7], EIGHT_BRACKETS)
  {
    assert (EIGHT_BRACKETS[..7] + EIGHT_BRACKETS)[0..8] == EIGHT_BRACKETS;
    assert Matches(EIGHT_BRACKETS[..7] + EIGHT_BRACKETS, EIGHT_BRACKETS, 0);
  }

  lemma NoBracketInside(i: nat)
    requires 0 < i < |MARKER|
    ensures MARKER[i] != '['
  {
  }

  lemma OnlyBeforeMarker(k: int)
    ensures FitsOver(EIGHT_BRACKETS, k) <==> k == -7
  {
    assert forall i :: 0 <= i < 8 ==> EIGHT_BRACKETS[i] == '[';
    if -7 < k < |MARKER| {
      var i := if k + 7 < |MARKER| then 7 else |MARKER| - 1 - k;
      NoBracketInside(k + i);
      assert 0 <= i < 8 && EIGHT_BRACKETS[i] == '[';
    }
  }

  // ---------------------------------------------------------------- scrubbing trees

  datatype Json =
    | Text(text: string)
    | List(items: seq<Json>)
    | Tuple(items: seq<Json>)
    | Dict(fields: seq<Field>)
    | Scalar(value: int)

  datatype Field = Field(key: string, value: Json)

  /** The program's patterns: which keys are secret, private or evidence, the redaction of
      provider tokens, and the stages behind the known secrets. */
  datatype Rules = Rules(
    secretKey: string -> bool,
    privateKey: string -> bool,
    evidenceKey: string -> bool,
    redact: string -> string,
    secrets: seq<string>,
    finish: (string, bool) -> string)

  const CAP: nat := 8000
  const MAX_ITEMS: nat := 500
  const REDACTED := "[REDACTED]"
  const PRIVATE := "[REDACTED_PRIVATE_CONTENT]"

  /** `note` tells how much was cut off; what it says does not matter here. */
  function Truncate(text: string, limit: nat, note: nat -> string): string
  {
    if |text| > limit then text[..limit] + note(|text| - limit) else text
  }

  function ScrubText(r: Rules, note: nat -> string, text: string, limit: nat, preserve: bool): string
    requires [] !in r.secrets
  {
    var redacted := Truncate(r.redact(text), Max(limit, |text|), note);
    Truncate(r.finish(ReplaceSecrets(redacted, r.secrets), preserve), limit, note)
  }

  predicate Preserves(r: Rules, key: string)
  {
    key != [] && r.evidenceKey(key)
  }

  function ItemKey(r: Rules, key: string): string
  {
    if Preserves(r, key) then key else []
  }

  function Scrub(r: Rules, note: nat -> string, v: Json, key: string): Json
    requires [] !in r.secrets
    decreases v, 1
  {
    if key != [] && r.secretKey(key) then Text(REDACTED)
    else if key != [] && r.privateKey(key) then Text(PRIVATE)
    else match v
      case Text(t) => Text(ScrubText(r, note, t, CAP, Preserves(r, key)))
      case List(items) => List(ScrubItems(r, note, items, ItemKey(r, key), MAX_ITEMS))
      case Tuple(items) => List(ScrubItems(r, note, items, ItemKey(r, key), MAX_ITEMS))
      case Dict(fields) => Dict(ScrubFields(r, note, fields))
      case Scalar(_) => v
  }

  /** The first `count` items, scrubbed. */
  function ScrubItems(r: Rules, note: nat -> string, items: seq<Json>, key: string, count: nat): seq<Json>
    requires [] !in r.secrets
    decreases items, 0
  {
    if items == [] || count == 0 then []
    else [Scrub(r, note, items[0], key)] + ScrubItems(r, note, items[1..], key, count - 1)
  }

  function ScrubFields(r: Rules, note: nat -> string, fields: seq<Field>): seq<Field>
    requires [] !in r.secrets
    decreases fields, 0
  {
    if fields == [] then []
    else [Field(fields[0].key, Scrub(r, note, fields[0].value, fields[0].key))] + ScrubFields(r, note, fields[1..])
  }

  // ---------------------------------------------------------------- what is left of a value

  /** A text up to the limit as it is, a longer one up to there and with the note. */
  ghost predicate CutAt(text: string, limit: nat, note: nat -> string, cut: string)
  {
    if |text| <= limit then cut == text else cut == text[..limit] + note(|text| - limit)
  }

  /** Main result on the scrubber's output. What stands under a secret or a private key is
      gone. A text goes through redaction, known secrets and the last stage, identifiers
      being preserved under an evidence key, and is cut at 8,000; a list or tuple becomes the
      list of its first 500 items, under the same key if that is an evidence key and under
      none else; a dictionary keeps its keys in order; anything else stays. */
  lemma ScrubMeaning(r: Rules, note: nat -> string, v: Json, key: string)
    requires [] !in r.secrets
    ensures var out := Scrub(r, note, v, key);
            var evidence := key != "" && r.evidenceKey(key);
            if key != "" && r.secretKey(key) then out == Text("[REDACTED]")
            else if key != "" && r.privateKey(key) then out == Text("[REDACTED_PRIVATE_CONTENT]")
            else
              && (v.Scalar? ==> out == v)
              && (v.Text? ==> out.Text? && exists redacted: string ::
                    && CutAt(r.redact(v.text), if |v.text| <= 8000 then 8000 else |v.text|, note, redacted)
                    && CutAt(r.finish(ReplaceSecrets(redacted, r.secrets), evidence), 8000, note, out.text))
              && (v.List? || v.Tuple? ==>
                    && out.List? && |out.items| == (if |v.items| <= 500 then |v.items| else 500)
                    && forall i :: 0 <= i < |out.items| ==>
                         out.items[i] == Scrub(r, note, v.items[i], if evidence then key else ""))
              && (v.Dict? ==>
                    && out.Dict? && |out.fields| == |v.fields|
                    && forall i :: 0 <= i < |out.fields| ==>
                         out.fields[i] == Field(v.fields[i].key, Scrub(r, note, v.fields[i].value, v.fields[i].key)))
  {
    hide ReplaceSecrets;
    match v
    case Text(t) =>
      var redacted := Truncate(r.redact(t), Max(CAP, |t|), note);
      assert CutAt(r.redact(t), Max(CAP, |t|), note, redacted);
    case List(items) => ItemsMeaning(r, note, items, ItemKey(r, key), MAX_ITEMS);
    case Tuple(items) => ItemsMeaning(r, note, items, ItemKey(r, key), MAX_ITEMS);
    case Dict(fields) => FieldsMeaning(r, note, fields);
    case Scalar(_) =>
  }

  lemma {:induction false} ItemsMeaning(r: Rules, note: nat -> string, items: seq<Json>, key: string, count: nat)
    requires [] !in r.secrets
    ensures var out := ScrubItems(r, note, items, key, count);
            && |out| == (if |items| <= count then |items| else count)
            && forall i :: 0 <= i < |out| ==> out[i] == Scrub(r, note, items[i], key)
    decreases |items|
  {
    hide Scrub;
    if items != [] && count > 0 { ItemsMeaning(r, note, items[1..], key, count - 1); }
  }

  lemma {:induction false} FieldsMeaning(r: Rules, note: nat -> string, fields: seq<Field>)
    requires [] !in r.secrets
    ensures var out := ScrubFields(r, note, fields);
            && |out| == |fields|
            && forall i :: 0 <= i < |out| ==>
                 out[i] == Field(fields[i].key, Scrub(r, note, fields[i].value, fields[i].key))
    decreases |fields|
  {
    hide Scrub;
    if fields != [] { FieldsMeaning(r, note, fields[1..]); }
  }

  // ---------------------------------------------------------------- the validator

  /** The text is what scrubbing it once more, with room to spare, would give. */
  predicate Stable(r: Rules, note: nat -> string, text: string, preserve: bool)
    requires [] !in r.secrets
  {
    ScrubText(r, note, text, Max(CAP, |text| + 1), preserve) == text
  }

  predicate Accepts(r: Rules, note: nat -> string, v: Json, key: string)
    requires [] !in r.secrets
    decreases v, 1
  {
    if key != [] && r.secretKey(key) then v == Text(REDACTED)
    else if key != [] && r.privateKey(key) then v == Text(PRIVATE)
    else match v
      case Text(t) => Stable(r, note, t, Preserves(r, key))
      case List(items) => AcceptsItems(r, note, items, ItemKey(r, key))
      case Dict(fields) => AcceptsFields(r, note, fields)
      case _ => true
  }

  predicate AcceptsItems(r: Rules, note: nat -> string, items: seq<Json>, key: string)
    requires [] !in r.secrets
    decreases items, 0
  {
    items == [] || (Accepts(r, note, items[0], key) && AcceptsItems(r, note, items[1..], key))
  }

  predicate AcceptsFields(r: Rules, note: nat -> string, fields: seq<Field>)
    requires [] !in r.secrets
    decreases fields, 0
  {
    fields == [] || (Accepts(r, note, fields[0].value, fields[0].key) && AcceptsFields(r, note, fields[1..]))
  }

  /** Main result on the validator: it wants the two fixed words under secret and private keys,
      accepts a list or dictionary if it accepts what is in them, a text exactly if scrubbing
      it with one letter to spare gives it back, and anything else as it is. */
  lemma AcceptsMeaning(r: Rules, note: nat -> string, v: Json, key: string)
    requires [] !in r.secrets
    ensures var evidence := key != "" && r.evidenceKey(key);
            if key != "" && r.secretKey(key) then Accepts(r, note, v, key) <==> v == Text("[REDACTED]")
            else if key != "" && r.privateKey(key) then
              Accepts(r, note, v, key) <==> v == Text("[REDACTED_PRIVATE_CONTENT]")
            else
              && (v.Scalar? || v.Tuple? ==> Accepts(r, note, v, key))
              && (v.Text? ==>
                    var limit := if |v.text| < 8000 then 8000 else |v.text| + 1;
                    Accepts(r, note, v, key) <==> exists redacted: string ::
                      && CutAt(r.redact(v.text), limit, note, redacted)
                      && CutAt(r.finish(ReplaceSecrets(redacted, r.secrets), evidence), limit, note, v.text))
              && (v.List? ==>
                    (Accepts(r, note, v, key) <==>
                      forall i :: 0 <= i < |v.items| ==> Accepts(r, note, v.items[i], if evidence then key else "")))
              && (v.Dict? ==>
                    (Accepts(r, note, v, key) <==>
                      forall i :: 0 <= i < |v.fields| ==> Accepts(r, note, v.fields[i].value, v.fields[i].key)))
  {
    hide ReplaceSecrets;
    match v
    case Text(t) =>
      TextAccepted(r, note, t, Preserves(r, key));
    case List(items) => AllItems(r, note, items, ItemKey(r, key));
    case Dict(fields) => AllFields(r, note, fields);
    case _ =>
  }

  lemma TextAccepted(r: Rules, note: nat -> string, text: string, preserve: bool)
    requires [] !in r.secrets
    ensures var limit := if |text| < 8000 then 8000 else |text| + 1;
            Stable(r, note, text, preserve) <==> exists redacted: string ::
              && CutAt(r.redact(text), limit, note, redacted)
              && CutAt(r.finish(ReplaceSecrets(redacted, r.secrets), preserve), limit, note, text)
  {
    hide ReplaceSecrets;
    var limit := if |text| < 8000 then 8000 else |text| + 1;
    assert limit == Max(CAP, |text| + 1) == Max(limit, |text|);
    var redacted := Truncate(r.redact(text), limit, note);
    assert CutAt(r.redact(text), limit, note, redacted);
    assert Stable(r, note, text, preserve) <==>
      CutAt(r.finish(ReplaceSecrets(redacted, r.secrets), preserve), limit, note, text);
    if other: string :| CutAt(r.redact(text), limit, note, other)
                        && CutAt(r.finish(ReplaceSecrets(other, r.secrets), preserve), limit, note, text) {
      assert other == redacted;
    }
  }

  lemma {:induction false} AllItems(r: Rules, note: nat -> string, items: seq<Json>, key: string)
    requires [] !in r.secrets
    ensures AcceptsItems(r, note, items, key) <==>
              forall i :: 0 <= i < |items| ==> Accepts(r, note, items[i], key)
    decreases |items|
  {
    hide Accepts;
    if items != [] {
      var rest := items[1..];
      AllItems(r, note, rest, key);
      assert forall i :: 1 <= i < |items| ==> items[i] == rest[i - 1];
      assert forall i :: 0 <= i < |rest| ==> rest[i] == items[i + 1];
    }
  }

  lemma {:induction false} AllFields(r: Rules, note: nat -> string, fields: seq<Field>)
    requires [] !in r.secrets
    ensures AcceptsFields(r, note, fields) <==>
              forall i :: 0 <= i < |fields| ==> Accepts(r, note, fields[i].value, fields[i].key)
    decreases |fields|
  {
    hide Accepts;
    if fields != [] {
      var rest := fields[1..];
      AllFields(r, note, rest);
      assert forall i :: 1 <= i < |fields| ==> fields[i] == rest[i - 1];
      assert forall i :: 0 <= i < |rest| ==> rest[i] == fields[i + 1];
    }
  }

  // ---------------------------------------------------------------- leaves

  /** The texts the scrubber reads, each with whether identifiers in it are preserved. */
  function Leaves(r: Rules, v: Json, key: string): set<(string, bool)>
    decreases v, 1
  {
    if key != [] && (r.secretKey(key) || r.privateKey(key)) then {}
    else match v
      case Text(t) => {(t, Preserves(r, key))}
      case List(items) => LeavesOfItems(r, items, ItemKey(r, key), MAX_ITEMS)
      case Tuple(items) => LeavesOfItems(r, items, ItemKey(r, key), MAX_ITEMS)
      case Dict(fields) => LeavesOfFields(r, fields)
      case Scalar(_) => {}
  }

  function LeavesOfItems(r: Rules, items: seq<Json>, key: string, count: nat): set<(string, bool)>
    decreases items, 0
  {
    if items == [] || count == 0 then {}
    else Leaves(r, items[0], key) + LeavesOfItems(r, items[1..], key, count - 1)
  }

  function LeavesOfFields(r: Rules, fields: seq<Field>): set<(string, bool)>
    decreases fields, 0
  {
    if fields == [] then {}
    else Leaves(r, fields[0].value, fields[0].key) + LeavesOfFields(r, fields[1..])
  }

  ghost predicate AllStable(r: Rules, note: nat -> string, leaves: set<(string, bool)>)
    requires [] !in r.secrets
  {
    forall t, p :: (t, p) in leaves ==> Stable(r, note, ScrubText(r, note, t, CAP, p), p)
  }

  /** Main result: the validator rejects scrubbed output only for a text that does not come
      to rest under scrubbing; keys, nesting, tuples and cut lists never are the reason. */
  lemma {:induction false} AcceptsScrubbed(r: Rules, note: nat -> string, v: Json, key: string)
    requires [] !in r.secrets
    ensures Accepts(r, note, Scrub(r, note, v, key), key) <==> AllStable(r, note, Leaves(r, v, key))
    decreases v, 1
  {
    hide ScrubText;
    if key != [] && (r.secretKey(key) || r.privateKey(key)) {
    } else {
      match v
      case Text(t) =>
        assert (t, Preserves(r, key)) in Leaves(r, v, key);
      case List(items) => AcceptsScrubbedItems(r, note, items, ItemKey(r, key), MAX_ITEMS);
      case Tuple(items) => AcceptsScrubbedItems(r, note, items, ItemKey(r, key), MAX_ITEMS);
      case Dict(fields) => AcceptsScrubbedFields(r, note, fields);
      case Scalar(_) =>
    }
  }

  lemma {:induction false} AcceptsScrubbedItems(r: Rules, note: nat -> string, items: seq<Json>, key: string,
                                                count: nat)
    requires [] !in r.secrets
    ensures AcceptsItems(r, note, ScrubItems(r, note, items, key, count), key)
       <==> AllStable(r, note, LeavesOfItems(r, items, key, count))
    decreases items, 0
  {
    hide ScrubText;
    if items != [] && count > 0 {
      AcceptsScrubbed(r, note, items[0], key);
      AcceptsScrubbedItems(r, note, items[1..], key, count - 1);
      var scrubbed := ScrubItems(r, note, items, key, count);
      assert scrubbed[0] == Scrub(r, note, items[0], key);
      assert scrubbed[1..] == ScrubItems(r, note, items[1..], key, count - 1);
      StableUnion(r, note, Leaves(r, items[0], key), LeavesOfItems(r, items[1..], key, count - 1));
    }
  }

  lemma {:induction false} AcceptsScrubbedFields(r: Rules, note: nat -> string, fields: seq<Field>)
    requires [] !in r.secrets
    ensures AcceptsFields(r, note, ScrubFields(r, note, fields)) <==> AllStable(r, note, LeavesOfFields(r, fields))
    decreases fields, 0
  {
    hide ScrubText;
    if fields != [] {
      var f := fields[0];
      AcceptsScrubbed(r, note, f.value, f.key);
      AcceptsScrubbedFields(r, note, fields[1..]);
      var scrubbed := ScrubFields(r, note, fields);
      assert scrubbed[0] == Field(f.key, Scrub(r, note, f.value, f.key));
      assert scrubbed[1..] == ScrubFields(r, note, fields[1..]);
      StableUnion(r, note, Leaves(r, f.value, f.key), LeavesOfFields(r, fields[1..]));
    }
  }

  lemma StableUnion(r: Rules, note: nat -> string, a: set<(string, bool)>, b: set<(string, bool)>)
    requires [] !in r.secrets
    ensures AllStable(r, note, a + b) <==> AllStable(r, note, a) && AllStable(r, note, b)
  {
    hide ScrubText;
    if AllStable(r, note, a + b) {
      forall t, p | (t, p) in a
        ensures Stable(r, note, ScrubText(r, note, t, CAP, p), p)
      {
        assert (t, p) in a + b;
      }
      forall t, p | (t, p) in b
        ensures Stable(r, note, ScrubText(r, note, t, CAP, p), p)
      {
        assert (t, p) in a + b;
      }
    }
  }

  // ---------------------------------------------------------------- fixed points

  /** No tuples, no list that would be cut, every text shorter than the cap. */
  predicate Plain(v: Json)
    decreases v, 1
  {
    match v
    case Text(t) => |t| < CAP
    case List(items) => |items| <= MAX_ITEMS && PlainItems(items)
    case Tuple(_) => false
    case Dict(fields) => PlainFields(fields)
    case Scalar(_) => true
  }

  predicate PlainItems(items: seq<Json>)
    decreases items, 0
  {
    items == [] || (Plain(items[0]) && PlainItems(items[1..]))
  }

  predicate PlainFields(fields: seq<Field>)
    decreases fields, 0
  {
    fields == [] || (Plain(fields[0].value) && PlainFields(fields[1..]))
  }

  /** What the validator accepts is exactly what the scrubber leaves as it is: nothing the
      scrubber would change gets through, and nothing clean is altered. */
  lemma {:induction false} AcceptedAreFixedPoints(r: Rules, note: nat -> string, v: Json, key: string)
    requires [] !in r.secrets && Plain(v)
    ensures Accepts(r, note, v, key) <==> Scrub(r, note, v, key) == v
    decreases v, 1
  {
    hide ScrubText;
    if key != [] && (r.secretKey(key) || r.privateKey(key)) {
    } else {
      match v
      case Text(t) => assert Max(CAP, |t| + 1) == CAP;
      case List(items) => AcceptedItems(r, note, items, ItemKey(r, key), MAX_ITEMS);
      case Dict(fields) => AcceptedFields(r, note, fields);
      case Scalar(_) =>
    }
  }

  lemma {:induction false} AcceptedItems(r: Rules, note: nat -> string, items: seq<Json>, key: string, count: nat)
    requires [] !in r.secrets && PlainItems(items) && |items| <= count
    ensures AcceptsItems(r, note, items, key) <==> ScrubItems(r, note, items, key, count) == items
    decreases items, 0
  {
    hide ScrubText;
    if items != [] {
      AcceptedAreFixedPoints(r, note, items[0], key);
      AcceptedItems(r, note, items[1..], key, count - 1);
      assert items == [items[0]] + items[1..];
      var scrubbed := ScrubItems(r, note, items, key, count);
      assert scrubbed[0] == Scrub(r, note, items[0], key);
      assert scrubbed[1..] == ScrubItems(r, note, items[1..], key, count - 1);
    }
  }

  lemma {:induction false} AcceptedFields(r: Rules, note: nat -> string, fields: seq<Field>)
    requires [] !in r.secrets && PlainFields(fields)
    ensures AcceptsFields(r, note, fields) <==> ScrubFields(r, note, fields) == fields
    decreases fields, 0
  {
    hide ScrubText;
    if fields != [] {
      var f := fields[0];
      AcceptedAreFixedPoints(r, note, f.value, f.key);
      AcceptedFields(r, note, fields[1..]);
      assert fields == [f] + fields[1..];
      var scrubbed := ScrubFields(r, note, fields);
      assert scrubbed[0] == Field(f.key, Scrub(r, note, f.value, f.key));
      assert scrubbed[1..] == ScrubFields(r, note, fields[1..]);
    }
  }

  // ---------------------------------------------------------------- idempotent rules

  /** A text no stage changes. */
  predicate Settled(r: Rules, text: string, preserve: bool)
    requires [] !in r.secrets
  {
    r.redact(text) == text && ReplaceSecrets(text, r.secrets) == text && r.finish(text, preserve) == text
  }

  function Scrubbed(r: Rules, text: string, preserve: bool): string
    requires [] !in r.secrets
  {
    r.finish(ReplaceSecrets(r.redact(text), r.secrets), preserve)
  }

  /** The stages are idempotent together: none of them changes a scrubbed text. */
  ghost predicate Idempotent(r: Rules)
    requires [] !in r.secrets
  {
    forall t, p :: Settled(r, Scrubbed(r, t, p), p)
  }

  /** No text is cut, neither by the redaction nor by the cap. */
  ghost predicate Fits(r: Rules, leaves: set<(string, bool)>)
    requires [] !in r.secrets
  {
    forall t, p :: (t, p) in leaves ==> |r.redact(t)| <= CAP && |Scrubbed(r, t, p)| <= CAP
  }

  /** With idempotent rules and texts within the cap the bundle passes its own validator,
      and no text in it holds a known secret. */
  lemma ScrubbedIsSafe(r: Rules, note: nat -> string, v: Json, key: string)
    requires [] !in r.secrets && forall s :: s in r.secrets ==> Separate(s)
    requires Idempotent(r) && Fits(r, Leaves(r, v, key))
    ensures Accepts(r, note, Scrub(r, note, v, key), key)
    ensures forall t, p, s :: (t, p) in Leaves(r, v, key) && s in r.secrets ==>
              !Occurs(ScrubText(r, note, t, CAP, p), s)
  {
    hide ReplaceSecrets;
    forall t, p | (t, p) in Leaves(r, v, key)
      ensures ScrubText(r, note, t, CAP, p) == Scrubbed(r, t, p)
      ensures Stable(r, note, ScrubText(r, note, t, CAP, p), p)
      ensures forall s :: s in r.secrets ==> !Occurs(Scrubbed(r, t, p), s)
    {
      var clean := Scrubbed(r, t, p);
      assert Settled(r, clean, p);
      NoSecretSurvives(clean, r.secrets);
    }
    AcceptsScrubbed(r, note, v, key);
  }
}
