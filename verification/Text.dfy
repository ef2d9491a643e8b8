/** Searching, splitting and replacing in sequences, with the meaning Python gives to
    `find`, `split`, `count` and `replace` for a non-empty pattern, and a few helpers the
    other modules share. */
module Text {

  datatype Option<+T> = None | Some(value: T)

  function Min(a: int, b: int): int
  {
    if a < b then a else b
  }

  function Max(a: int, b: int): int
  {
    if a < b then b else a
  }

  function Max0(n: int): nat
  {
    if n < 0 then 0 else n
  }

  lemma SubsetSize<T>(a: set<T>, b: set<T>)
    requires a <= b
    ensures |a| <= |b| && |b - a| == |b| - |a|
  {
    assert b == a + (b - a);
  }

  ghost predicate IsSuffix<T>(part: seq<T>, whole: seq<T>)
  {
    |part| <= |whole| && part == whole[|whole| - |part|..]
  }

  /** `pattern` stands in `text` at position `i`. */
  predicate Matches<T(==)>(text: seq<T>, pattern: seq<T>, i: int)
  {
    0 <= i && i + |pattern| <= |text| && text[i..i + |pattern|] == pattern
  }

  ghost predicate Occurs<T>(text: seq<T>, pattern: seq<T>)
  {
    exists i :: Matches(text, pattern, i)
  }

  /** The leftmost match at or after `from`. */
  function Find<T(==)>(text: seq<T>, pattern: seq<T>, from: nat := 0): (r: Option<nat>)
    ensures r.Some? ==> from <= r.value && Matches(text, pattern, r.value)
    ensures r.Some? ==> forall j :: from <= j < r.value ==> !Matches(text, pattern, j)
    ensures r.None? ==> forall j :: from <= j ==> !Matches(text, pattern, j)
    decreases |text| - from
  {
    if |text| < from + |pattern| then None
    else if Matches(text, pattern, from) then Some(from)
    else if from == |text| then None
    else Find(text, pattern, from + 1)
  }

  /** Number of matches met by a left-to-right scan that never overlaps two of them. */
  function Count<T(==)>(text: seq<T>, pattern: seq<T>): nat
    requires pattern != []
    decreases |text|
  {
    match Find(text, pattern)
    case None => 0
    case Some(i) => 1 + Count(text[i + |pattern|..], pattern)
  }

  /** The scan's first `limit` matches exchanged for `new`. */
  function Replace<T(==)>(text: seq<T>, pattern: seq<T>, new_: seq<T>, limit: nat): seq<T>
    requires pattern != []
    decreases |text|
  {
    if limit == 0 then text
    else match Find(text, pattern)
      case None => text
      case Some(i) => text[..i] + new_ + Replace(text[i + |pattern|..], pattern, new_, limit - 1)
  }

  function ReplaceAll<T(==)>(text: seq<T>, pattern: seq<T>, new_: seq<T>): seq<T>
    requires pattern != []
  {
    Replace(text, pattern, new_, |text|)
  }

  /** The pieces between the scan's matches. */
  function Split<T(==)>(text: seq<T>, pattern: seq<T>): (pieces: seq<seq<T>>)
    requires pattern != []
    ensures pieces != []
    decreases |text|
  {
    match Find(text, pattern)
    case None => [text]
    case Some(i) => [text[..i]] + Split(text[i + |pattern|..], pattern)
  }

  function Join<T>(pieces: seq<seq<T>>, separator: seq<T>): seq<T>
    requires pieces != []
  {
    if |pieces| == 1 then pieces[0]
    else pieces[0] + separator + Join(pieces[1..], separator)
  }

  /** `pieces` is how a leftmost, non-overlapping scan cuts `text`: glueing them with the
      pattern gives the text back, the pattern is in no piece, and no match begins inside
      a piece and runs on into the match that follows it. */
  ghost predicate LeftmostPieces<T>(text: seq<T>, pattern: seq<T>, pieces: seq<seq<T>>)
    requires pattern != []
  {
    && pieces != []
    && text == Join(pieces, pattern)
    && (forall k :: 0 <= k < |pieces| ==> !Occurs(pieces[k], pattern))
    && (forall k, j :: 0 <= k < |pieces| - 1 && 0 <= j < |pieces[k]| ==> !Matches(pieces[k] + pattern, pattern, j))
  }

  // ---------------------------------------------------------------- facts about matches

  /** A match that ends inside the left part of a concatenation is a match there. */
  lemma MatchInPrefix<T>(a: seq<T>, b: seq<T>, pattern: seq<T>, i: int)
    requires i + |pattern| <= |a|
    ensures Matches(a + b, pattern, i) <==> Matches(a, pattern, i)
  {
    if 0 <= i {
      assert (a + b)[i..i + |pattern|] == a[i..i + |pattern|];
    }
  }

  /** A match that begins inside the right part of a concatenation is a match there. */
  lemma MatchInSuffix<T>(a: seq<T>, b: seq<T>, pattern: seq<T>, i: int)
    requires |a| <= i
    ensures Matches(a + b, pattern, i) <==> Matches(b, pattern, i - |a|)
  {
    if i + |pattern| <= |a| + |b| {
      assert (a + b)[i..i + |pattern|] == b[i - |a|..i - |a| + |pattern|];
    }
  }

  /** No match begins where the pattern's first letter is missing. */
  lemma MatchHead<T>(text: seq<T>, pattern: seq<T>, i: int)
    requires pattern != [] && Matches(text, pattern, i)
    ensures text[i] == pattern[0]
  {
    assert text[i] == text[i..i + |pattern|][0];
  }

  /** The piece in front of the first match: the pattern is not in it, nor does it begin
      there and run on into the match. */
  lemma FirstPiece<T>(text: seq<T>, pattern: seq<T>, i: nat)
    requires pattern != [] && Find(text, pattern) == Some(i)
    ensures !Occurs(text[..i], pattern)
    ensures forall j :: 0 <= j < i ==> !Matches(text[..i] + pattern, pattern, j)
  {
    var rest := text[i + |pattern|..];
    assert text == (text[..i] + pattern) + rest;
    forall j | 0 <= j < i
      ensures !Matches(text[..i] + pattern, pattern, j) && !Matches(text[..i], pattern, j)
    {
      MatchInPrefix(text[..i] + pattern, rest, pattern, j);
      if j + |pattern| <= i { MatchInPrefix(text[..i], pattern, pattern, j); }
    }
  }

  lemma LeftmostGrows<T>(first: seq<T>, pattern: seq<T>, rest: seq<T>, tail: seq<seq<T>>)
    requires pattern != [] && LeftmostPieces(rest, pattern, tail)
    requires !Occurs(first, pattern) && forall j :: 0 <= j < |first| ==> !Matches(first + pattern, pattern, j)
    ensures LeftmostPieces(first + pattern + rest, pattern, [first] + tail)
  {
    hide Matches, Occurs;
    var pieces := [first] + tail;
    JoinFirst(first, tail, pattern);
    forall k | 0 <= k < |pieces|
      ensures !Occurs(pieces[k], pattern)
    {
      if k > 0 { assert pieces[k] == tail[k - 1]; }
    }
    forall k, j | 0 <= k < |pieces| - 1 && 0 <= j < |pieces[k]|
      ensures !Matches(pieces[k] + pattern, pattern, j)
    {
      if k > 0 { assert pieces[k] == tail[k - 1]; }
    }
  }

  /** The pieces of the scan really are its leftmost cut, one more than the matches. */
  lemma {:induction false} SplitIsLeftmost<T>(text: seq<T>, pattern: seq<T>)
    requires pattern != []
    ensures LeftmostPieces(text, pattern, Split(text, pattern))
    ensures |Split(text, pattern)| == Count(text, pattern) + 1
    decreases |text|
  {
    match Find(text, pattern)
    case None =>
    case Some(i) =>
      var rest := text[i + |pattern|..];
      SplitIsLeftmost(rest, pattern);
      FirstPiece(text, pattern, i);
      LeftmostGrows(text[..i], pattern, rest, Split(rest, pattern));
      assert text == text[..i] + pattern + rest;
  }

  /** There is only one leftmost cut, so the predicate pins the scan down. */
  lemma {:induction false} LeftmostIsUnique<T>(text: seq<T>, pattern: seq<T>, pieces: seq<seq<T>>)
    requires pattern != [] && LeftmostPieces(text, pattern, pieces)
    ensures pieces == Split(text, pattern)
    decreases |pieces|
  {
    if |pieces| == 1 {
      assert !Occurs(pieces[0], pattern);
      assert Find(text, pattern).None?;
    } else {
      hide Count, Replace;
      var p, tail := pieces[0], pieces[1..];
      var rest := Join(tail, pattern);
      assert text == (p + pattern) + rest;
      forall j | 0 <= j < |p|
        ensures !Matches(text, pattern, j)
      {
        MatchInPrefix(p + pattern, rest, pattern, j);
      }
      assert text[|p|..|p| + |pattern|] == pattern;
      assert Matches(text, pattern, |p|);
      assert Find(text, pattern) == Some(|p|);
      assert text[|p| + |pattern|..] == rest && text[..|p|] == p;
      forall k | 0 <= k < |tail|
        ensures !Occurs(tail[k], pattern)
        ensures k < |tail| - 1 ==> forall j :: 0 <= j < |tail[k]| ==> !Matches(tail[k] + pattern, pattern, j)
      {
        assert tail[k] == pieces[k + 1];
      }
      LeftmostIsUnique(rest, pattern, tail);
      assert pieces == [p] + tail;
    }
  }

  lemma JoinFirst<T>(first: seq<T>, others: seq<seq<T>>, separator: seq<T>)
    requires others != []
    ensures Join([first] + others, separator) == first + separator + Join(others, separator)
  {
    assert ([first] + others)[1..] == others;
  }

  /** Replacing as many matches as there are joins the same pieces with the new text. */
  lemma {:induction false} ReplaceJoins<T>(text: seq<T>, pattern: seq<T>, new_: seq<T>, limit: nat)
    requires pattern != [] && Count(text, pattern) <= limit
    ensures Replace(text, pattern, new_, limit) == Join(Split(text, pattern), new_)
    decreases |text|
  {
    match Find(text, pattern)
    case None =>
    case Some(i) =>
      var rest := text[i + |pattern|..];
      ReplaceJoins(rest, pattern, new_, limit - 1);
      JoinFirst(text[..i], Split(rest, pattern), new_);
      assert Split(text, pattern) == [text[..i]] + Split(rest, pattern);
  }

  /** A text holds at least as many letters as matches. */
  lemma {:induction false} CountBound<T>(text: seq<T>, pattern: seq<T>)
    requires pattern != []
    ensures Count(text, pattern) <= |text|
    decreases |text|
  {
    match Find(text, pattern)
    case None =>
    case Some(i) => CountBound(text[i + |pattern|..], pattern);
  }

  lemma MulStep(k: int, d: int)
    ensures k * d == (k - 1) * d + d
  {
  }

  /** Length of a replacement: each match costs the difference of the two lengths. */
  lemma {:induction false} ReplaceLength<T>(text: seq<T>, pattern: seq<T>, new_: seq<T>, limit: nat)
    requires pattern != [] && Count(text, pattern) == limit
    ensures |Replace(text, pattern, new_, limit)| == |text| + limit * (|new_| - |pattern|)
    decreases |text|
  {
    hide Find;
    match Find(text, pattern)
    case None =>
    case Some(i) =>
      var rest := text[i + |pattern|..];
      MulStep(limit, |new_| - |pattern|);
      ReplaceLength(rest, pattern, new_, limit - 1);
      assert |rest| == |text| - i - |pattern|;
      assert |Replace(text, pattern, new_, limit)| == i + |new_| + |Replace(rest, pattern, new_, limit - 1)|;
  }
}
