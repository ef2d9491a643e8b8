/** Checking documented command lines against the command tree that was rebuilt from the
    builders' syntax. Tokens are what shell splitting leaves of a line. */
module CommandContract {
  import opened Text
  import opened BuilderInterpreter

  // ---------------------------------------------------------------- building

  datatype Built = Contract(tables: Tables) | NoBuilder | NoRegister | NoSubcommands

  /** The two builder functions, None when the source file has no such function. */
  function Build(builder: Option<seq<Stmt>>, register: Option<seq<Stmt>>): Built
  {
    if builder.None? then NoBuilder
    else if register.None? then NoRegister
    else
      var first := VisitAll(BLANK, map[], builder.value);
      var seeded := first.(subparsers := first.subparsers["commands" := []]);
      var t := VisitAll(seeded, map[], register.value);
      if |t.paths| < 2 then NoSubcommands else Contract(t)
  }

  /** A contract is a tree with at least one command, and has everything either builder
      made on its own. */
  lemma BuiltIsTree(builder: Option<seq<Stmt>>, register: Option<seq<Stmt>>)
    requires Build(builder, register).Contract?
    ensures var t := Build(builder, register).tables;
            && IsTree(t) && (exists p :: p in t.paths && p != [])
            && Grows(VisitAll(BLANK, map[], builder.value), t)
  {
    var first := VisitAll(BLANK, map[], builder.value);
    var seeded := first.(subparsers := first.subparsers["commands" := []]);
    SeededIsTree(builder.value);
    WalkKeepsTree(seeded, map[], register.value);
    var t := VisitAll(seeded, map[], register.value);
    assert t.paths != {[]};
  }

  /** A contract is refused for a missing builder, then a missing register, then if no command
      came of either. The register starts with `commands` standing for the root's
      subparsers: what it adds to them is a top-level command, whatever the builder did. */
  lemma BuildMeaning(builder: Option<seq<Stmt>>, register: Option<seq<Stmt>>, x: string, name: string)
    ensures Build(builder, register).NoBuilder? <==> builder.None?
    ensures Build(builder, register).NoRegister? <==> builder.Some? && register.None?
    ensures Build(builder, register).NoSubcommands? ==> VisitAll(BLANK, map[], builder.value).paths == {[]}
    ensures var add := Assign([Name(x)], Call(Some("commands"), "add_parser", [Str(name)]));
            builder.Some? && register.Some? && register.value != [] && register.value[0] == add && name != "" ==>
              var built := Build(builder, register);
              && built.Contract? && [name] in built.tables.paths && [name] in built.tables.options
              && (register.value == [add] ==>
                    built.tables.paths == VisitAll(BLANK, map[], builder.value).paths + {[name]})
  {
    if builder.Some? && register.Some? {
      var first := VisitAll(BLANK, map[], builder.value);
      var seeded := first.(subparsers := first.subparsers["commands" := []]);
      var t := VisitAll(seeded, map[], register.value);
      SeededIsTree(builder.value);
      WalkKeepsTree(seeded, map[], register.value);
      hide VisitAll, IsTree;
      RootIsPath(first);
      RootIsPath(t);
      if register.value != [] && name != "" { FirstOfRegister(seeded, register.value, x, name); }
      AtLeastTwo(first, t, name);
    }
  }

  lemma RootIsPath(t: Tables)
    requires IsTree(t)
    ensures [] in t.paths && t.options.Keys == t.paths
  {
  }

  lemma AtLeastTwo(first: Tables, t: Tables, name: string)
    requires Grows(first, t) && [] in first.paths
    ensures [name] in t.paths ==> |t.paths| >= 2
    ensures |t.paths| < 2 ==> first.paths == {[]}
  {
    if [name] in t.paths { SubsetSize({[], [name]}, t.paths); }
    if |t.paths| < 2 {
      forall p | p in first.paths
        ensures p == []
      {
        if p != [] { SubsetSize({[], p}, t.paths); }
      }
    }
  }

  lemma SeededIsTree(builder: seq<Stmt>)
    ensures var first := VisitAll(BLANK, map[], builder);
            IsTree(first) && IsTree(first.(subparsers := first.subparsers["commands" := []]))
  {
    var first := VisitAll(BLANK, map[], builder);
    assert IsTree(BLANK) by { assert BLANK.paths == {[]} && BLANK.options.Keys == {[]}; }
    WalkKeepsTree(BLANK, map[], builder);
    var seeded := first.(subparsers := first.subparsers["commands" := []]);
    forall x | x in seeded.subparsers
      ensures seeded.subparsers[x] in seeded.paths
    {
      if x != "commands" { assert first.subparsers[x] in first.subparsers.Values; }
    }
  }

  lemma FirstOfRegister(seeded: Tables, register: seq<Stmt>, x: string, name: string)
    requires "commands" in seeded.subparsers && seeded.subparsers["commands"] == [] && IsTree(seeded)
    requires register != [] && name != ""
    ensures var add := Assign([Name(x)], Call(Some("commands"), "add_parser", [Str(name)]));
            register[0] == add ==>
              && [name] in VisitAll(seeded, map[], register).paths
              && (register == [add] ==> VisitAll(seeded, map[], register).paths == seeded.paths + {[name]})
  {
    hide VisitAll, IsTree, Visit, Step, OwnOp;
    var add := Assign([Name(x)], Call(Some("commands"), "add_parser", [Str(name)]));
    if register[0] == add {
      AddParserMeaning(seeded, map[], add, x, "commands", [Str(name)], name);
      assert [] + [name] == [name];
      assert register == [add] + register[1..];
      VisitAppend(seeded, map[], [add], register[1..]);
      WalkKeepsTree(seeded, map[], [add]);
      WalkKeepsTree(VisitAll(seeded, map[], [add]), map[], register[1..]);
    }
  }

  method BuildContract(builder: Option<seq<Stmt>>, register: Option<seq<Stmt>>) returns (built: Built)
    ensures built == Build(builder, register)
  {
    if builder.None? { return NoBuilder; }
    var interpreter := new Interpreter();
    interpreter.VisitStatements(builder.value);
    if register.None? { return NoRegister; }
    interpreter.tables := interpreter.tables.(subparsers := interpreter.tables.subparsers["commands" := []]);
    interpreter.VisitStatements(register.value);
    return if |interpreter.tables.paths| < 2 then NoSubcommands else Contract(interpreter.tables);
  }

  // ---------------------------------------------------------------- matching

  function Alias(token: string): string
  {
    if token == "models" then "model" else token
  }

  /** The tokens with the alias of the first resolved. */
  function Aliased(tokens: seq<string>): (r: seq<string>)
    ensures |r| == |tokens|
  {
    if tokens == [] then [] else [Alias(tokens[0])] + tokens[1..]
  }

  /** `n` leading tokens name a command path and none of them is an option. */
  predicate IsCommandPrefix(t: Tables, tokens: seq<string>, n: nat)
    requires n <= |tokens|
  {
    Aliased(tokens)[..n] in t.paths && forall i :: 0 <= i < n ==> !IsOption(Aliased(tokens)[i])
  }

  ghost predicate IsLongestPrefix(t: Tables, tokens: seq<string>, n: nat)
  {
    && n <= |tokens| && IsCommandPrefix(t, tokens, n)
    && forall m :: n < m <= |tokens| ==> !IsCommandPrefix(t, tokens, m)
  }

  /** In a tree a command prefix cannot end before a shorter one did. */
  lemma {:induction false} PrefixClosed(t: Tables, tokens: seq<string>, n: nat, m: nat)
    requires IsTree(t) && m <= n <= |tokens| && IsCommandPrefix(t, tokens, n)
    ensures IsCommandPrefix(t, tokens, m)
    decreases n
  {
    if m < n {
      var path := Aliased(tokens)[..n];
      assert path[..n - 1] == Aliased(tokens)[..n - 1];
      PrefixClosed(t, tokens, n - 1, m);
    }
  }

  lemma LongestIsUnique(t: Tables, tokens: seq<string>, n: nat, m: nat)
    requires IsLongestPrefix(t, tokens, n) && IsLongestPrefix(t, tokens, m)
    ensures n == m
  {
    assert IsCommandPrefix(t, tokens, n) && IsCommandPrefix(t, tokens, m);
  }

  /** A prefix that cannot be extended by one token cannot be extended at all. */
  lemma StopsHere(t: Tables, tokens: seq<string>, n: nat)
    requires IsTree(t) && n <= |tokens| && IsCommandPrefix(t, tokens, n)
    requires n < |tokens| ==> !IsCommandPrefix(t, tokens, n + 1)
    ensures IsLongestPrefix(t, tokens, n)
  {
    forall m | n < m <= |tokens|
      ensures !IsCommandPrefix(t, tokens, m)
    {
      if IsCommandPrefix(t, tokens, m) { PrefixClosed(t, tokens, m, n + 1); }
    }
  }

  /** Taking one token as long as that names a command finds the longest prefix that does. */
  method MatchingPath(t: Tables, tokens: seq<string>) returns (path: Path, index: nat)
    requires IsTree(t)
    ensures IsLongestPrefix(t, tokens, index) && path == Aliased(tokens)[..index]
  {
    hide IsTree, IsCommandPrefix, IsLongestPrefix, Aliased;
    path, index := [], 0;
    EmptyPrefix(t, tokens);
    while index < |tokens|
      invariant index <= |tokens| && path == Aliased(tokens)[..index] && IsCommandPrefix(t, tokens, index)
    {
      var token := if index == 0 then Alias(tokens[index]) else tokens[index];
      var candidate := path + [token];
      NextPrefix(t, tokens, index);
      assert candidate == Aliased(tokens)[..index + 1];
      if IsOption(token) || candidate !in t.paths {
        StopsHere(t, tokens, index);
        return;
      }
      path := candidate;
      index := index + 1;
    }
    StopsHere(t, tokens, index);
  }

  lemma NextPrefix(t: Tables, tokens: seq<string>, n: nat)
    requires n < |tokens| && IsCommandPrefix(t, tokens, n)
    ensures Aliased(tokens)[n] == if n == 0 then Alias(tokens[n]) else tokens[n]
    ensures IsCommandPrefix(t, tokens, n + 1) <==> !IsOption(Aliased(tokens)[n]) && Aliased(tokens)[..n + 1] in t.paths
  {
  }

  lemma EmptyPrefix(t: Tables, tokens: seq<string>)
    requires IsTree(t)
    ensures IsCommandPrefix(t, tokens, 0)
  {
    assert Aliased(tokens)[..0] == [];
  }

  // ---------------------------------------------------------------- options

  /** An option is allowed below `path` if some prefix of the path has it. */
  ghost predicate Allows(t: Tables, path: Path, option: string)
  {
    exists n :: 0 <= n <= |path| && path[..n] in t.options && option in t.options[path[..n]]
  }

  method AllowedOptions(t: Tables, path: Path) returns (allowed: set<string>)
    ensures forall option :: option in allowed <==> Allows(t, path, option)
  {
    allowed := {};
    var length := 0;
    while length <= |path|
      invariant 0 <= length <= |path| + 1
      invariant forall option :: option in allowed <==>
        exists n :: 0 <= n < length && path[..n] in t.options && option in t.options[path[..n]]
    {
      if path[..length] in t.options { allowed := allowed + t.options[path[..length]]; }
      length := length + 1;
    }
  }

  /** What is allowed at a command is allowed at every subcommand. */
  lemma AllowedGrowsAlongPath(t: Tables, path: Path, longer: Path, option: string)
    requires path <= longer && Allows(t, path, option)
    ensures Allows(t, longer, option)
  {
    var n :| 0 <= n <= |path| && path[..n] in t.options && option in t.options[path[..n]];
    assert longer[..n] == path[..n];
  }

  // ---------------------------------------------------------------- validating a command line

  datatype Problem =
    | UnexpectedExecutable(name: string)
    | UnknownCommand(token: string)
    | UnknownOption(option: string, path: Path)

  /** The option a token names: `--name=value` is split at its first `=`. */
  function OptionOf(token: string): string
  {
    if "--" <= token then
      match Find(token, "=")
      case None => token
      case Some(i) => token[..i]
    else token
  }

  /** A value is cut off at the first equals sign, and only behind two dashes. */
  lemma OptionMeaning(token: string)
    ensures var option := OptionOf(token);
            if |token| >= 2 && token[0] == '-' && token[1] == '-' && '=' in token then
              |option| < |token| && token[|option|] == '=' && '=' !in option && token[..|option|] == option
            else option == token
  {
    assert "--" <= token <==> |token| >= 2 && token[0] == '-' && token[1] == '-';
    match Find(token, "=")
    case None =>
      forall i | 0 <= i < |token|
        ensures token[i] != '='
      {
        assert !Matches(token, "=", i);
        assert token[i..i + 1] == [token[i]];
      }
    case Some(i) =>
      MatchHead(token, "=", i);
      forall j | 0 <= j < i
        ensures token[j] != '='
      {
        assert !Matches(token, "=", j);
        assert token[j..j + 1] == [token[j]];
      }
  }

  /** The first token, and no other, may go by its other name. */
  lemma AliasMeaning(first: string, others: seq<string>)
    ensures Aliased([first] + others) == (if first == "models" then ["model"] else [first]) + others
    ensures Aliased([]) == []
  {
    assert ([first] + others)[1..] == others;
  }

  ghost predicate TokenFits(t: Tables, path: Path, token: string)
  {
    IsOption(OptionOf(token)) ==> Allows(t, path, OptionOf(token))
  }

  /** Nothing to say against tokens whose longest command prefix has length `n`: it is not
      empty unless they are bare or start with an option, and every option behind it is
      known to it. */
  ghost predicate TokensFit(t: Tables, tokens: seq<string>, n: nat)
    requires n <= |tokens|
  {
    && (tokens == [] || n > 0 || IsOption(Alias(tokens[0])))
    && forall i :: n <= i < |tokens| ==> TokenFits(t, Aliased(tokens)[..n], tokens[i])
  }

  /** A command line that the contract accepts. */
  ghost predicate Fits(t: Tables, line: seq<string>)
  {
    line == [] || (
      && (line[0] == "karox" || line[0] == "karox-vnext")
      && exists n: nat :: IsLongestPrefix(t, line[1..], n) && TokensFit(t, line[1..], n))
  }

  /** One complaint for every token that does not fit, in order. */
  ghost function Complaints(t: Tables, path: Path, tokens: seq<string>): (problems: seq<Problem>)
    ensures problems == [] <==> forall j :: 0 <= j < |tokens| ==> TokenFits(t, path, tokens[j])
  {
    if tokens == [] then []
    else
      var last := tokens[|tokens| - 1];
      Complaints(t, path, tokens[..|tokens| - 1]) +
      (if TokenFits(t, path, last) then [] else [UnknownOption(OptionOf(last), path)])
  }

  ghost predicate IsAbout(t: Tables, path: Path, p: Problem, token: string)
  {
    !TokenFits(t, path, token) && p == UnknownOption(OptionOf(token), path)
  }

  lemma {:induction false} ComplaintsMeaning(t: Tables, path: Path, tokens: seq<string>, p: Problem)
    ensures p in Complaints(t, path, tokens) <==> exists j :: 0 <= j < |tokens| && IsAbout(t, path, p, tokens[j])
    decreases |tokens|
  {
    hide Allows, OptionOf, TokenFits;
    if tokens != [] {
      var n := |tokens| - 1;
      var before, last := tokens[..n], tokens[n];
      ComplaintsMeaning(t, path, before, p);
      LastComplaint(t, path, tokens, p);
      hide Complaints, IsAbout;
      if p in Complaints(t, path, before) {
        var j :| 0 <= j < n && IsAbout(t, path, p, before[j]);
        assert IsAbout(t, path, p, tokens[j]);
      }
      if j :| 0 <= j < |tokens| && IsAbout(t, path, p, tokens[j]) {
        if j < n { assert IsAbout(t, path, p, before[j]); }
      }
    }
  }

  lemma LastComplaint(t: Tables, path: Path, tokens: seq<string>, p: Problem)
    requires tokens != []
    ensures p in Complaints(t, path, tokens) <==>
              p in Complaints(t, path, tokens[..|tokens| - 1]) || IsAbout(t, path, p, tokens[|tokens| - 1])
  {
    hide TokenFits, OptionOf;
  }

  lemma ComplaintsAreUnknown(t: Tables, path: Path, tokens: seq<string>)
    ensures forall p :: p in Complaints(t, path, tokens) ==>
              p.UnknownOption? && p.path == path && IsOption(p.option) && !Allows(t, path, p.option)
  {
    hide Complaints, Allows, OptionOf;
    forall p | p in Complaints(t, path, tokens)
      ensures p.UnknownOption? && p.path == path && IsOption(p.option) && !Allows(t, path, p.option)
    {
      ComplaintsMeaning(t, path, tokens, p);
      var j :| 0 <= j < |tokens| && IsAbout(t, path, p, tokens[j]);
    }
  }

  lemma ComplaintsStep(t: Tables, path: Path, tokens: seq<string>, i: nat)
    requires i < |tokens|
    ensures Complaints(t, path, tokens[..i + 1]) == Complaints(t, path, tokens[..i]) +
            (if TokenFits(t, path, tokens[i]) then [] else [UnknownOption(OptionOf(tokens[i]), path)])
  {
    hide TokenFits, OptionOf;
    assert tokens[..i + 1][..i] == tokens[..i];
  }

  /** The options behind the command path, checked one by one. */
  method CheckOptions(t: Tables, path: Path, remaining: seq<string>) returns (problems: seq<Problem>)
    ensures problems == Complaints(t, path, remaining)
    ensures forall p :: p in problems ==>
              p.UnknownOption? && p.path == path && IsOption(p.option) && !Allows(t, path, p.option)
  {
    hide Allows, OptionOf, Complaints;
    var allowed := AllowedOptions(t, path);
    problems := [];
    NoComplaint(t, path);
    var i := 0;
    while i < |remaining|
      invariant 0 <= i <= |remaining|
      invariant problems == Complaints(t, path, remaining[..i])
    {
      ComplaintsStep(t, path, remaining, i);
      var option := OptionOf(remaining[i]);
      if IsOption(option) && option !in allowed { problems := problems + [UnknownOption(option, path)]; }
      i := i + 1;
    }
    assert remaining[..i] == remaining;
    ComplaintsAreUnknown(t, path, remaining);
  }

  lemma NoComplaint(t: Tables, path: Path)
    ensures Complaints(t, path, []) == []
  {
  }

  lemma FitsIsTokensFit(t: Tables, line: seq<string>, n: nat)
    requires line != [] && (line[0] == "karox" || line[0] == "karox-vnext")
    requires IsLongestPrefix(t, line[1..], n)
    ensures Fits(t, line) <==> TokensFit(t, line[1..], n)
  {
    if Fits(t, line) {
      var m: nat :| IsLongestPrefix(t, line[1..], m) && TokensFit(t, line[1..], m);
      LongestIsUnique(t, line[1..], n, m);
    }
  }

  /** What there is to say of tokens whose longest command prefix has length `n`. */
  ghost function Reported(t: Tables, tokens: seq<string>, n: nat): seq<Problem>
    requires n <= |tokens|
  {
    if tokens != [] && n == 0 && !IsOption(Alias(tokens[0])) then [UnknownCommand(tokens[0])]
    else Complaints(t, Aliased(tokens)[..n], tokens[n..])
  }

  lemma NothingReported(t: Tables, tokens: seq<string>, n: nat)
    requires n <= |tokens|
    ensures Reported(t, tokens, n) == [] <==> TokensFit(t, tokens, n)
  {
    hide TokenFits;
    var path, rest := Aliased(tokens)[..n], tokens[n..];
    assert forall i :: n <= i < |tokens| ==> tokens[i] == rest[i - n];
    assert forall j :: 0 <= j < |rest| ==> rest[j] == tokens[n + j];
  }

  method ValidateCommand(t: Tables, line: seq<string>) returns (problems: seq<Problem>)
    requires IsTree(t)
    ensures problems == [] <==> Fits(t, line)
    ensures forall p :: p in problems && p.UnknownOption? ==> IsOption(p.option) && !Allows(t, p.path, p.option)
    ensures line != [] && line[0] != "karox" && line[0] != "karox-vnext" ==>
              problems == [UnexpectedExecutable(line[0])]
    ensures line != [] && (line[0] == "karox" || line[0] == "karox-vnext") ==>
              exists n :: IsLongestPrefix(t, line[1..], n) && problems == Reported(t, line[1..], n)
  {
    hide IsTree, Complaints, Allows, OptionOf, TokensFit, IsCommandPrefix, Aliased;
    if line == [] { return []; }
    if line[0] != "karox" && line[0] != "karox-vnext" { return [UnexpectedExecutable(line[0])]; }
    var tokens := line[1..];
    var path, consumed := MatchingPath(t, tokens);
    FitsIsTokensFit(t, line, consumed);
    NothingReported(t, tokens, consumed);
    if tokens != [] && consumed == 0 && !IsOption(Alias(tokens[0])) { return [UnknownCommand(tokens[0])]; }
    problems := CheckOptions(t, path, tokens[consumed..]);
  }

  // ---------------------------------------------------------------- growing contracts

  lemma AllowsGrows(t: Tables, u: Tables, path: Path, longer: Path, option: string)
    requires Grows(t, u) && path <= longer && Allows(t, path, option)
    ensures Allows(u, longer, option)
  {
    var n :| 0 <= n <= |path| && path[..n] in t.options && option in t.options[path[..n]];
    assert longer[..n] == path[..n];
    assert path[..n] in u.options;
  }

  /** The longest prefix of a line never gets shorter when commands are added. */
  lemma {:induction false} LongestExists(t: Tables, tokens: seq<string>, n: nat) returns (m: nat)
    requires n <= |tokens| && IsCommandPrefix(t, tokens, n)
    ensures n <= m && IsLongestPrefix(t, tokens, m)
    decreases |tokens| - n
  {
    if k: nat :| n < k <= |tokens| && IsCommandPrefix(t, tokens, k) {
      m := LongestExists(t, tokens, k);
    } else {
      m := n;
    }
  }

  /** Main result: building more commands or options never invalidates a documented line,
      although it may move the point where its command path ends. */
  lemma GrowthKeepsLines(t: Tables, u: Tables, line: seq<string>)
    requires Grows(t, u) && Fits(t, line)
    ensures Fits(u, line)
  {
    if line == [] { return; }
    var tokens := line[1..];
    var n: nat :| IsLongestPrefix(t, tokens, n) && TokensFit(t, tokens, n);
    assert IsCommandPrefix(u, tokens, n);
    var m := LongestExists(u, tokens, n);
    var path, longer := Aliased(tokens)[..n], Aliased(tokens)[..m];
    assert path <= longer;
    forall i | m <= i < |tokens|
      ensures TokenFits(u, longer, tokens[i])
    {
      assert TokenFits(t, path, tokens[i]);
      if IsOption(OptionOf(tokens[i])) { AllowsGrows(t, u, path, longer, OptionOf(tokens[i])); }
    }
    assert TokensFit(u, tokens, m);
  }
}
