/** What the program sees of a list of paths that git prints: a command result keeps the last
    300,000 characters of the output, which are split into lines, stripped and normalised. */
module GitListing {
  import opened Text

  predicate IsBreak(c: char)
  {
    c == '\n' || c == '\r' || 11 <= c as int <= 12 || 28 <= c as int <= 30 || c as int == 0x85
    || c as int == 0x2028 || c as int == 0x2029
  }

  predicate IsSpace(c: char)
  {
    IsBreak(c) || c == ' ' || c == '\t' || c as int == 31 || c as int == 0xa0 || c as int == 0x1680
    || 0x2000 <= c as int <= 0x200a || c as int == 0x202f || c as int == 0x205f || c as int == 0x3000
  }

  /** Length of the first line, its break included; "\r\n" is one break. */
  function LineLength(s: string): (n: nat)
    requires s != []
    ensures 1 <= n <= |s|
  {
    if s[0] == '\r' && |s| > 1 && s[1] == '\n' then 2
    else if IsBreak(s[0]) || |s| == 1 then 1
    else 1 + LineLength(s[1..])
  }

  /** `splitlines(keepends=True)`. */
  function SplitLines(s: string): seq<string>
    decreases |s|
  {
    if s == [] then [] else [s[..LineLength(s)]] + SplitLines(s[LineLength(s)..])
  }

  /** A line without its break. */
  function Bare(line: string): (bare: string)
    ensures |bare| <= |line| && bare == line[..|bare|]
  {
    if |line| >= 2 && line[|line| - 2..] == "\r\n" then line[..|line| - 2]
    else if line != [] && IsBreak(line[|line| - 1]) then line[..|line| - 1]
    else line
  }

  predicate IsBlank(line: string)
  {
    forall i :: 0 <= i < |line| ==> IsSpace(line[i])
  }

  function Slashed(path: string): (r: string)
    ensures |r| == |path| && forall i :: 0 <= i < |r| ==> r[i] == if path[i] == '\\' then '/' else path[i]
  {
    seq(|path|, i requires 0 <= i < |path| => if path[i] == '\\' then '/' else path[i])
  }

  function StripSlashes(path: string): (r: string)
    ensures |r| <= |path|
  {
    if path == [] then []
    else if path[0] == '/' then StripSlashes(path[1..])
    else if path[|path| - 1] == '/' then StripSlashes(path[..|path| - 1])
    else path
  }

  function RelNorm(path: string): (r: string)
    ensures |r| <= |path|
  {
    StripSlashes(Slashed(path))
  }

  /** A path is normalised to the stretch of it without the slashes of either kind at its
      ends, with the slashes left in it all turned the one way. */
  lemma RelNormMeaning(path: string) returns (i: nat, j: nat)
    ensures i <= j <= |path| && |RelNorm(path)| == j - i
    ensures forall k :: 0 <= k < i || j <= k < |path| ==> path[k] == '/' || path[k] == '\\'
    ensures i < j ==> RelNorm(path)[0] != '/' && RelNorm(path)[j - i - 1] != '/'
    ensures forall k :: i <= k < j ==> RelNorm(path)[k - i] == if path[k] == '\\' then '/' else path[k]
  {
    i, j := StripSlashesMeaning(Slashed(path));
  }

  lemma {:induction false} StripSlashesMeaning(path: string) returns (i: nat, j: nat)
    ensures i <= j <= |path| && StripSlashes(path) == path[i..j]
    ensures forall k :: 0 <= k < i || j <= k < |path| ==> path[k] == '/'
    ensures i < j ==> path[i] != '/' && path[j - 1] != '/'
    decreases |path|
  {
    if path == [] || (path[0] != '/' && path[|path| - 1] != '/') {
      i, j := 0, |path|;
    } else if path[0] == '/' {
      i, j := StripSlashesMeaning(path[1..]);
      i, j := i + 1, j + 1;
      assert forall k :: 1 <= k < |path| ==> path[k] == path[1..][k - 1];
    } else {
      i, j := StripSlashesMeaning(path[..|path| - 1]);
    }
  }

  const INLINE_LIMIT: nat := 300000

  /** The end of an output that a command result keeps. */
  function Kept(output: string): string
  {
    if |output| <= INLINE_LIMIT then output else output[|output| - INLINE_LIMIT..]
  }

  function ReadLine(bare: string): (paths: seq<string>)
    ensures forall p :: p in paths ==> |p| <= |bare|
    ensures |paths| <= 1
  {
    if IsBlank(bare) then [] else [RelNorm(bare)]
  }

  /** The paths the program reads out of lines of `git diff --name-only`. */
  function Paths(lines: seq<string>): seq<string>
  {
    if lines == [] then [] else ReadLine(Bare(lines[0])) + Paths(lines[1..])
  }

  /** What the program takes to be staged when git has printed `printed`. */
  function Listed(printed: string): seq<string>
  {
    Paths(SplitLines(Kept(printed)))
  }

  function Names(paths: seq<string>): set<string>
  {
    set p | p in paths
  }

  /** Git's output for a list of paths. */
  function Print(paths: seq<string>): string
  {
    if paths == [] then [] else paths[0] + "\n" + Print(paths[1..])
  }

  /** Paths that git prints as they are and that the program does not rewrite. */
  predicate Plain(path: string)
  {
    && !IsBlank(path) && path[0] != '/' && path[|path| - 1] != '/'
    && forall i :: 0 <= i < |path| ==> !IsBreak(path[i]) && path[i] != '\\'
  }

  /** The line ends of `splitlines`, by number. */
  predicate EndsLine(c: char)
  {
    c as int in {10, 11, 12, 13, 28, 29, 30, 0x85, 0x2028, 0x2029}
  }

  /** What `strip` takes off, by number. */
  predicate IsWhite(c: char)
  {
    || 9 <= c as int < 14 || 28 <= c as int < 33 || 0x2000 <= c as int < 0x200b
    || c as int in {0x85, 0xa0, 0x1680, 0x2028, 0x2029, 0x202f, 0x205f, 0x3000}
  }

  lemma CharactersMeaning(c: char)
    ensures (IsBreak(c) <==> EndsLine(c)) && (IsSpace(c) <==> IsWhite(c))
  {
  }

  /** How a listing is read: a line up to one of the line ends, "\r\n" being one of them, is a
      path as it is normalised, unless it is all white; so is a last line without an end. */
  lemma LineIsRead(name: string, end: string, rest: string)
    requires forall i :: 0 <= i < |name| ==> !EndsLine(name[i])
    requires || (end == "" && rest == "") || end == "\r\n"
             || (|end| == 1 && EndsLine(end[0]) && !(end == "\r" && rest != "" && rest[0] == '\n'))
    ensures var white := forall i :: 0 <= i < |name| ==> IsWhite(name[i]);
            Paths(SplitLines(name + end + rest)) ==
              (if white then [] else [RelNorm(name)]) + Paths(SplitLines(rest))
  {
    hide IsBreak, IsSpace, EndsLine, IsWhite, LineLength, SplitLines, RelNorm;
    forall c: char
      ensures (IsBreak(c) <==> EndsLine(c)) && (IsSpace(c) <==> IsWhite(c))
    {
      CharactersMeaning(c);
    }
    if name + end == "" {
      EmptyIsRead();
      assert name + end + rest == "";
    } else {
      LineEnds(name, end, rest);
      BareLine(name, end);
      var lines := SplitLines(name + end + rest);
      assert lines[0] == name + end && lines[1..] == SplitLines(rest);
      assert ReadLine(name) == if IsBlank(name) then [] else [RelNorm(name)];
    }
  }

  lemma {:induction false} LineEnds(name: string, end: string, rest: string)
    requires name + end != "" && forall i :: 0 <= i < |name| ==> !IsBreak(name[i])
    requires || (end == "" && rest == "") || end == "\r\n"
             || (|end| == 1 && IsBreak(end[0]) && !(end == "\r" && rest != "" && rest[0] == '\n'))
    ensures LineLength(name + end + rest) == |name + end|
    ensures SplitLines(name + end + rest) == [name + end] + SplitLines(rest)
    decreases |name|
  {
    var all := name + end + rest;
    if name == [] {
      assert all == end + rest;
    } else {
      assert all[0] == name[0] && all[1..] == name[1..] + end + rest;
      if name[1..] + end != "" { LineEnds(name[1..], end, rest); }
    }
    assert all[..|name + end|] == name + end && all[|name + end|..] == rest;
  }

  lemma BareLine(name: string, end: string)
    requires forall i :: 0 <= i < |name| ==> !IsBreak(name[i])
    requires end == "" || end == "\r\n" || (|end| == 1 && IsBreak(end[0]))
    ensures Bare(name + end) == name
  {
    var line := name + end;
    if end == "\r\n" {
      assert line[|name|..] == "\r\n" && line[..|name|] == name;
    } else if |end| == 1 {
      if |line| >= 2 { assert line[|line| - 2] == name[|name| - 1] && line[|line| - 2..][0] != '\r'; }
      assert line[..|name|] == name;
    } else {
      assert line == name;
      if |line| >= 2 { assert line[|line| - 2..][0] == name[|name| - 2] != '\r'; }
    }
  }

  lemma ReadFirst(name: string, rest: string)
    requires forall i :: 0 <= i < |name| ==> !IsBreak(name[i])
    ensures Paths(SplitLines(name + "\n" + rest)) == ReadLine(name) + Paths(SplitLines(rest))
  {
    hide LineLength, SplitLines, IsBreak, ReadLine;
    assert IsBreak('\n') by { CharactersMeaning('\n'); }
    LineEnds(name, "\n", rest);
    var lines := SplitLines(name + "\n" + rest);
    assert lines[0] == name + "\n" && lines[1..] == SplitLines(rest);
    BareLine(name, "\n");
  }

  lemma PlainIsRead(name: string)
    requires Plain(name)
    ensures ReadLine(name) == [name]
  {
    assert Slashed(name) == name;
  }

  /** The end of a line, unless it is all of it, reads as a shorter path or none. */
  lemma FragmentIsShorter(name: string, k: nat, rest: string)
    requires Plain(name) && 0 < k <= |name| + 1
    ensures var read := Paths(SplitLines((name + "\n")[k..] + rest));
            exists first: seq<string> ::
              && read == first + Paths(SplitLines(rest)) && |first| <= 1
              && forall p :: p in first ==> |p| < |name|
  {
    hide LineLength, SplitLines, Paths, ReadLine, IsBreak;
    var line := name + "\n";
    if k == |line| {
      assert line[k..] + rest == rest;
      assert [] + Paths(SplitLines(rest)) == Paths(SplitLines(rest));
    } else {
      assert line[k..] == name[k..] + "\n";
      ReadFirst(name[k..], rest);
    }
  }

  lemma {:induction false} PrintIsRead(paths: seq<string>)
    requires forall p :: p in paths ==> Plain(p)
    ensures Paths(SplitLines(Print(paths))) == paths
    decreases |paths|
  {
    hide LineLength, Paths, ReadLine, Bare;
    if paths == [] {
      EmptyIsRead();
    } else {
      hide SplitLines;
      assert paths[0] in paths;
      ReadFirst(paths[0], Print(paths[1..]));
      PlainIsRead(paths[0]);
      PrintIsRead(paths[1..]);
    }
  }

  lemma EmptyIsRead()
    ensures Paths(SplitLines("")) == []
  {
  }

  lemma {:induction false} PrintAppend(a: seq<string>, b: seq<string>)
    ensures Print(a + b) == Print(a) + Print(b)
    decreases |a|
  {
    if a == [] {
      assert a + b == b;
    } else {
      assert (a + b)[1..] == a[1..] + b;
      PrintAppend(a[1..], b);
    }
  }

  /** How many paths in front have lines that are not whole in the last 300,000 characters. */
  function HiddenCount(paths: seq<string>): (n: nat)
    ensures n <= |paths| && |Print(paths[n..])| <= INLINE_LIMIT
    ensures forall m :: 0 <= m < n ==> |Print(paths[m..])| > INLINE_LIMIT
  {
    if |Print(paths)| <= INLINE_LIMIT then
      assert paths[0..] == paths;
      0
    else
      var n := 1 + HiddenCount(paths[1..]);
      assert paths[1..][n - 1..] == paths[n..];
      assert forall m :: 1 <= m < n ==> paths[1..][m - 1..] == paths[m..];
      assert paths[0..] == paths;
      n
  }

  /** Main result on what is hidden: the program sees the paths from there on, in order, and
      in front of them at most a piece of the last hidden one. */
  lemma {:induction false} ListedEnds(paths: seq<string>)
    requires forall p :: p in paths ==> Plain(p)
    ensures exists first: seq<string> ::
              |first| <= 1 && Listed(Print(paths)) == first + paths[HiddenCount(paths)..]
    decreases |paths|
  {
    hide LineLength, SplitLines, Paths, Plain, HiddenCount;
    if |Print(paths)| <= INLINE_LIMIT {
      NoneHidden(paths);
      PrintIsRead(paths);
      assert [] + paths[0..] == paths;
    } else {
      var name, others := paths[0], paths[1..];
      var line, rest := name + "\n", Print(paths[1..]);
      assert Print(paths) == line + rest;
      HiddenStep(paths);
      if |rest| > INLINE_LIMIT {
        ListedEnds(others);
        assert Kept(Print(paths)) == Kept(rest);
        assert paths[1 + HiddenCount(others)..] == others[HiddenCount(others)..];
      } else {
        var k := |line| + |rest| - INLINE_LIMIT;
        assert Kept(Print(paths)) == line[k..] + rest;
        assert name in paths;
        FragmentIsShorter(name, k, rest);
        PrintIsRead(others);
        NoneHidden(others);
        assert others[0..] == others == paths[1..];
      }
    }
  }

  lemma HiddenStep(paths: seq<string>)
    requires |Print(paths)| > INLINE_LIMIT
    ensures paths != [] && HiddenCount(paths) == 1 + HiddenCount(paths[1..])
  {
  }

  lemma NoneHidden(paths: seq<string>)
    requires |Print(paths)| <= INLINE_LIMIT
    ensures HiddenCount(paths) == 0
  {
  }

  /** If the cut falls between two lines, just the paths behind it are seen. */
  lemma CutBetweenLines(hidden: seq<string>, shown: seq<string>)
    requires (forall p :: p in shown ==> Plain(p)) && |Print(shown)| == INLINE_LIMIT
    ensures Listed(Print(hidden + shown)) == shown
  {
    PrintAppend(hidden, shown);
    PrintIsRead(shown);
    assert Kept(Print(hidden) + Print(shown)) == Print(shown);
  }

  lemma {:induction false} CutLoses(paths: seq<string>)
    requires (forall p :: p in paths ==> Plain(p)) && (forall i, j :: 0 <= i < j < |paths| ==> paths[i] != paths[j])
    requires |Print(paths)| > INLINE_LIMIT
    ensures exists p :: p in paths && p !in Listed(Print(paths))
    decreases |paths|
  {
    hide LineLength, SplitLines, Paths, Plain;
    var name, others := paths[0], paths[1..];
    var line, rest := name + "\n", Print(paths[1..]);
    assert Print(paths) == line + rest;
    assert name in paths && name !in others;
    if |rest| > INLINE_LIMIT {
      CutLoses(others);
      assert Kept(Print(paths)) == Kept(rest);
    } else {
      var k := |line| + |rest| - INLINE_LIMIT;
      assert Kept(Print(paths)) == line[k..] + rest;
      FragmentIsShorter(name, k, rest);
      PrintIsRead(others);
      var first :| Listed(Print(paths)) == first + Paths(SplitLines(rest)) && forall p :: p in first ==> |p| < |name|;
      assert name !in first;
    }
  }

  /** Main result on the listing: of plain paths, each printed once, the program sees all
      exactly when they print in 300,000 characters. */
  lemma ListingIsComplete(paths: seq<string>)
    requires (forall p :: p in paths ==> Plain(p)) && (forall i, j :: 0 <= i < j < |paths| ==> paths[i] != paths[j])
    ensures |Print(paths)| <= INLINE_LIMIT ==> Listed(Print(paths)) == paths
    ensures Names(Listed(Print(paths))) == Names(paths) <==> |Print(paths)| <= INLINE_LIMIT
  {
    if |Print(paths)| <= INLINE_LIMIT {
      PrintIsRead(paths);
    } else {
      CutLoses(paths);
      var p :| p in paths && p !in Listed(Print(paths));
      assert p in Names(paths) && p !in Names(Listed(Print(paths)));
    }
  }
}
