/** The abstract interpreter that rebuilds a command tree from the syntax of the code that
    constructs it: the subset of Python it looks at, the tables it fills, and the walk. */
module BuilderInterpreter {
  import opened Text

  type Path = seq<string>

  // ---------------------------------------------------------------- syntax

  /** A call is `owner.attr(args)`; `owner` is None when the receiver is no plain name.
      Calls of another shape are OtherExpr. */
  datatype Expr =
    | Name(id: string)
    | Str(value: string)
    | Call(owner: Option<string>, attr: string, args: seq<Expr>)
    | OtherExpr

  /** `Sequence` is a tuple or list display. */
  datatype Iterable = Sequence(elements: seq<Expr>) | OtherIterable

  datatype Suite = Suite(stmts: seq<Stmt>)

  datatype Stmt =
    | Assign(targets: seq<Expr>, value: Expr)
    | AnnAssign(target: Expr, annotated: Option<Expr>)
    | ExprStmt(expr: Expr)
    | For(variable: Expr, iter: Iterable, body: seq<Stmt>, orelse: seq<Stmt>)
    | If(body: seq<Stmt>, orelse: seq<Stmt>)
    | While(body: seq<Stmt>, orelse: seq<Stmt>)
    | Try(body: seq<Stmt>, orelse: seq<Stmt>, finalbody: seq<Stmt>, handlers: seq<Suite>)
    | With(body: seq<Stmt>)
    | OtherStmt

  // ---------------------------------------------------------------- tables

  /** The contract (paths, options) and the variables bound to parsers and subparsers. */
  datatype Tables = Tables(
    paths: set<Path>,
    options: map<Path, set<string>>,
    parsers: map<string, Path>,
    subparsers: map<string, Path>)

  type Constants = map<string, string>

  const HELP: set<string> := {"-h", "--help"}
  const BLANK := Tables({[]}, map[[] := HELP], map[], map[])

  /** What one simple statement does to the tables. */
  datatype Op =
    | Nothing
    | BindRoot(target: string)
    | BindSubparsers(target: string, owner: string)
    | BindParser(target: string, owner: string, name: string)
    | AddOptions(owner: string, options: set<string>)

  function SetDefault(options: map<Path, set<string>>, path: Path): map<Path, set<string>>
  {
    if path in options then options else options[path := HELP]
  }

  function Step(t: Tables, op: Op): Tables
  {
    match op
    case Nothing => t
    case BindRoot(x) => t.(parsers := t.parsers[x := []], paths := t.paths + {[]})
    case BindSubparsers(x, owner) =>
      if owner in t.parsers then t.(subparsers := t.subparsers[x := t.parsers[owner]]) else t
    case BindParser(x, owner, name) =>
      if owner in t.subparsers then
        var path := t.subparsers[owner] + [name];
        t.(parsers := t.parsers[x := path], paths := t.paths + {path}, options := SetDefault(t.options, path))
      else t
    case AddOptions(owner, names) =>
      if owner in t.parsers then
        var path := t.parsers[owner];
        var buckets := SetDefault(t.options, path);
        t.(options := buckets[path := buckets[path] + names])
      else t
  }

  // ---------------------------------------------------------------- simple statements

  /** The string a call's first argument stands for. */
  function StringArgument(env: Constants, args: seq<Expr>): Option<string>
  {
    if args == [] then None
    else match args[0]
      case Str(s) => Some(s)
      case Name(x) => if x in env then Some(env[x]) else None
      case _ => None
  }

  function AssignOp(env: Constants, target: string, value: Expr): Op
  {
    if !value.Call? then Nothing
    else if value.attr == "ArgumentParser" then BindRoot(target)
    else if value.owner.None? then Nothing
    else if value.attr == "add_subparsers" then BindSubparsers(target, value.owner.value)
    else if value.attr == "add_parser" then
      var name := StringArgument(env, value.args);
      if name.Some? && name.value != [] then BindParser(target, value.owner.value, name.value) else Nothing
    else Nothing
  }

  predicate IsOption(s: string)
  {
    "-" <= s
  }

  function OptionNames(args: seq<Expr>): set<string>
  {
    set i | 0 <= i < |args| && args[i].Str? && IsOption(args[i].value) :: args[i].value
  }

  function ArgumentOp(e: Expr): Op
  {
    if e.Call? && e.attr == "add_argument" && e.owner.Some? then AddOptions(e.owner.value, OptionNames(e.args))
    else Nothing
  }

  /** The part of a statement that acts on the tables before its blocks are walked. */
  function OwnOp(env: Constants, s: Stmt): Op
  {
    match s
    case Assign(targets, value) =>
      if |targets| == 1 && targets[0].Name? then AssignOp(env, targets[0].id, value) else Nothing
    case AnnAssign(target, value) =>
      if target.Name? && value.Some? then AssignOp(env, target.id, value.value) else Nothing
    case ExprStmt(e) => ArgumentOp(e)
    case _ => Nothing
  }

  /** The strings among the elements of a literal loop's sequence. */
  function Strings(elements: seq<Expr>): seq<string>
  {
    if elements == [] then []
    else (if elements[0].Str? then [elements[0].value] else []) + Strings(elements[1..])
  }

  /** The values a loop is unrolled over; none if its target or sequence is not literal. */
  function LoopValues(variable: Expr, iter: Iterable): seq<string>
  {
    if variable.Name? && iter.Sequence? then Strings(iter.elements) else []
  }

  // ---------------------------------------------------------------- the walk

  /** Constants are a scope here: what a loop binds is seen by its body only. */
  function VisitAll(t: Tables, env: Constants, stmts: seq<Stmt>): Tables
    decreases stmts, 0
  {
    if stmts == [] then t else VisitAll(Visit(t, env, stmts[0]), env, stmts[1..])
  }

  function Visit(t: Tables, env: Constants, s: Stmt): Tables
    decreases s, 1, 0
  {
    match s
    case For(variable, iter, body, orelse) =>
      var values := LoopValues(variable, iter);
      var after := if values == [] then VisitAll(t, env, body) else VisitLoop(t, env, variable.id, values, body);
      VisitAll(after, env, orelse)
    case If(body, orelse) => VisitAll(VisitAll(t, env, body), env, orelse)
    case While(body, orelse) => VisitAll(VisitAll(t, env, body), env, orelse)
    case Try(body, orelse, finalbody, handlers) =>
      VisitSuites(VisitAll(VisitAll(VisitAll(t, env, body), env, orelse), env, finalbody), env, handlers)
    case With(body) => VisitAll(t, env, body)
    case _ => Step(t, OwnOp(env, s))
  }

  function VisitLoop(t: Tables, env: Constants, x: string, values: seq<string>, body: seq<Stmt>): Tables
    decreases body, 1, |values|
  {
    if values == [] then t else VisitLoop(VisitAll(t, env[x := values[0]], body), env, x, values[1..], body)
  }

  function VisitSuites(t: Tables, env: Constants, suites: seq<Suite>): Tables
    decreases suites, 0
  {
    if suites == [] then t else VisitSuites(VisitAll(t, env, suites[0].stmts), env, suites[1..])
  }

  lemma {:induction false} VisitAppend(t: Tables, env: Constants, a: seq<Stmt>, b: seq<Stmt>)
    ensures VisitAll(t, env, a + b) == VisitAll(VisitAll(t, env, a), env, b)
    decreases |a|
  {
    if a == [] {
      assert a + b == b;
    } else {
      assert (a + b)[1..] == a[1..] + b;
      VisitAppend(Visit(t, env, a[0]), env, a[1..], b);
    }
  }

  // ---------------------------------------------------------------- unrolling loops

  /** `value` where a name is read: the first argument of add_parser. */
  function SubstExpr(x: string, value: string, e: Expr): Expr
  {
    if e.Call? && e.attr == "add_parser" && e.args != [] && e.args[0] == Name(x)
    then e.(args := [Str(value)] + e.args[1..])
    else e
  }

  function SubstAll(x: string, value: string, stmts: seq<Stmt>): seq<Stmt>
    decreases stmts, 0
  {
    if stmts == [] then [] else [Subst(x, value, stmts[0])] + SubstAll(x, value, stmts[1..])
  }

  /** A literal loop over the same variable hides it from its body, not from its else. */
  function Subst(x: string, value: string, s: Stmt): Stmt
    decreases s, 1
  {
    match s
    case Assign(targets, e) => Assign(targets, SubstExpr(x, value, e))
    case AnnAssign(target, e) => AnnAssign(target, if e.Some? then Some(SubstExpr(x, value, e.value)) else None)
    case For(variable, iter, body, orelse) =>
      var hidden := variable == Name(x) && LoopValues(variable, iter) != [];
      For(variable, iter, if hidden then body else SubstAll(x, value, body), SubstAll(x, value, orelse))
    case If(body, orelse) => If(SubstAll(x, value, body), SubstAll(x, value, orelse))
    case While(body, orelse) => While(SubstAll(x, value, body), SubstAll(x, value, orelse))
    case Try(body, orelse, finalbody, handlers) =>
      Try(SubstAll(x, value, body), SubstAll(x, value, orelse), SubstAll(x, value, finalbody),
          SubstSuites(x, value, handlers))
    case With(body) => With(SubstAll(x, value, body))
    case _ => s
  }

  function SubstSuites(x: string, value: string, suites: seq<Suite>): seq<Suite>
    decreases suites, 0
  {
    if suites == [] then [] else [Suite(SubstAll(x, value, suites[0].stmts))] + SubstSuites(x, value, suites[1..])
  }

  lemma SubstOwnOp(env: Constants, x: string, value: string, s: Stmt)
    requires s.Assign? || s.AnnAssign? || s.ExprStmt? || s.OtherStmt?
    ensures OwnOp(env[x := value], s) == OwnOp(env, Subst(x, value, s))
  {
  }

  /** Walking a block with a constant bound is walking the block with it substituted. */
  lemma {:induction false} SubstAllSound(t: Tables, env: Constants, x: string, value: string, stmts: seq<Stmt>)
    ensures VisitAll(t, env[x := value], stmts) == VisitAll(t, env, SubstAll(x, value, stmts))
    decreases stmts, 0
  {
    if stmts != [] {
      SubstSound(t, env, x, value, stmts[0]);
      SubstAllSound(Visit(t, env[x := value], stmts[0]), env, x, value, stmts[1..]);
      assert SubstAll(x, value, stmts)[1..] == SubstAll(x, value, stmts[1..]);
    }
  }

  lemma {:induction false} SubstForSound(t: Tables, env: Constants, x: string, value: string, s: Stmt)
    requires s.For?
    ensures Visit(t, env[x := value], s) == Visit(t, env, Subst(x, value, s))
    decreases s, 0, 0
  {
    var bound := env[x := value];
    var values := LoopValues(s.variable, s.iter);
    if values == [] {
      SubstAllSound(t, env, x, value, s.body);
      SubstAllSound(VisitAll(t, bound, s.body), env, x, value, s.orelse);
    } else {
      var after := VisitLoop(t, bound, s.variable.id, values, s.body);
      if s.variable == Name(x) {
        HiddenLoop(t, env, x, value, values, s.body);
      } else {
        SubstLoopSound(t, env, x, value, s.variable.id, values, s.body);
      }
      SubstAllSound(after, env, x, value, s.orelse);
    }
  }

  lemma {:induction false} SubstTrySound(t: Tables, env: Constants, x: string, value: string, s: Stmt)
    requires s.Try?
    ensures Visit(t, env[x := value], s) == Visit(t, env, Subst(x, value, s))
    decreases s, 0, 0
  {
    var bound := env[x := value];
    SubstAllSound(t, env, x, value, s.body);
    var t1 := VisitAll(t, bound, s.body);
    SubstAllSound(t1, env, x, value, s.orelse);
    var t2 := VisitAll(t1, bound, s.orelse);
    SubstAllSound(t2, env, x, value, s.finalbody);
    SubstSuitesSound(VisitAll(t2, bound, s.finalbody), env, x, value, s.handlers);
  }

  lemma {:induction false} SubstBranchSound(t: Tables, env: Constants, x: string, value: string, s: Stmt)
    requires s.If? || s.While?
    ensures Visit(t, env[x := value], s) == Visit(t, env, Subst(x, value, s))
    decreases s, 0, 0
  {
    SubstAllSound(t, env, x, value, s.body);
    SubstAllSound(VisitAll(t, env[x := value], s.body), env, x, value, s.orelse);
  }

  lemma {:induction false} SubstSound(t: Tables, env: Constants, x: string, value: string, s: Stmt)
    ensures Visit(t, env[x := value], s) == Visit(t, env, Subst(x, value, s))
    decreases s, 1, 0
  {
    match s
    case For(_, _, _, _) => SubstForSound(t, env, x, value, s);
    case If(_, _) => SubstBranchSound(t, env, x, value, s);
    case While(_, _) => SubstBranchSound(t, env, x, value, s);
    case Try(_, _, _, _) => SubstTrySound(t, env, x, value, s);
    case With(body) => SubstAllSound(t, env, x, value, body);
    case _ => SubstOwnOp(env, x, value, s);
  }

  lemma {:induction false} SubstLoopSound(t: Tables, env: Constants, x: string, value: string,
                                          y: string, values: seq<string>, body: seq<Stmt>)
    requires x != y
    ensures VisitLoop(t, env[x := value], y, values, body) == VisitLoop(t, env, y, values, SubstAll(x, value, body))
    decreases body, 1, |values|
  {
    if values != [] {
      var v := values[0];
      assert env[x := value][y := v] == env[y := v][x := value];
      SubstAllSound(t, env[y := v], x, value, body);
      SubstLoopSound(VisitAll(t, env[y := v][x := value], body), env, x, value, y, values[1..], body);
    }
  }

  /** A loop over the same variable never sees the outer constant. */
  lemma {:induction false} HiddenLoop(t: Tables, env: Constants, x: string, value: string,
                                      values: seq<string>, body: seq<Stmt>)
    ensures VisitLoop(t, env[x := value], x, values, body) == VisitLoop(t, env, x, values, body)
    decreases |values|
  {
    if values != [] {
      assert env[x := value][x := values[0]] == env[x := values[0]];
      HiddenLoop(VisitAll(t, env[x := values[0]], body), env, x, value, values[1..], body);
    }
  }

  lemma {:induction false} SubstSuitesSound(t: Tables, env: Constants, x: string, value: string, suites: seq<Suite>)
    ensures VisitSuites(t, env[x := value], suites) == VisitSuites(t, env, SubstSuites(x, value, suites))
    decreases suites, 0
  {
    if suites != [] {
      SubstAllSound(t, env, x, value, suites[0].stmts);
      SubstSuitesSound(VisitAll(t, env[x := value], suites[0].stmts), env, x, value, suites[1..]);
      assert SubstSuites(x, value, suites)[1..] == SubstSuites(x, value, suites[1..]);
    }
  }

  function Copies(x: string, values: seq<string>, body: seq<Stmt>): seq<Stmt>
  {
    if values == [] then [] else SubstAll(x, values[0], body) + Copies(x, values[1..], body)
  }

  lemma {:induction false} LoopIsCopies(t: Tables, env: Constants, x: string, values: seq<string>, body: seq<Stmt>)
    ensures VisitLoop(t, env, x, values, body) == VisitAll(t, env, Copies(x, values, body))
    decreases |values|
  {
    if values != [] {
      SubstAllSound(t, env, x, values[0], body);
      LoopIsCopies(VisitAll(t, env[x := values[0]], body), env, x, values[1..], body);
      VisitAppend(t, env, SubstAll(x, values[0], body), Copies(x, values[1..], body));
    }
  }

  /** Main result: a literal loop is walked like the statements it stands for - one copy of
      its body per string, the string put in for the variable, then the else block. */
  lemma UnrolledLoop(t: Tables, env: Constants, x: string, elements: seq<Expr>, body: seq<Stmt>, orelse: seq<Stmt>)
    requires Strings(elements) != []
    ensures Visit(t, env, For(Name(x), Sequence(elements), body, orelse))
         == VisitAll(t, env, Copies(x, Strings(elements), body) + orelse)
  {
    var values := Strings(elements);
    LoopIsCopies(t, env, x, values, body);
    VisitAppend(t, env, Copies(x, values, body), orelse);
  }

  // ---------------------------------------------------------------- straight-line form

  function StepAll(t: Tables, ops: seq<Op>): Tables
    decreases |ops|
  {
    if ops == [] then t else StepAll(Step(t, ops[0]), ops[1..])
  }

  /** The operations a block comes down to, in order. */
  function Flat(env: Constants, stmts: seq<Stmt>): seq<Op>
    decreases stmts, 0
  {
    if stmts == [] then [] else FlatOne(env, stmts[0]) + Flat(env, stmts[1..])
  }

  function FlatOne(env: Constants, s: Stmt): seq<Op>
    decreases s, 1, 0
  {
    match s
    case For(variable, iter, body, orelse) =>
      var values := LoopValues(variable, iter);
      (if values == [] then Flat(env, body) else FlatLoop(env, variable.id, values, body)) + Flat(env, orelse)
    case If(body, orelse) => Flat(env, body) + Flat(env, orelse)
    case While(body, orelse) => Flat(env, body) + Flat(env, orelse)
    case Try(body, orelse, finalbody, handlers) =>
      Flat(env, body) + Flat(env, orelse) + Flat(env, finalbody) + FlatSuites(env, handlers)
    case With(body) => Flat(env, body)
    case _ => [OwnOp(env, s)]
  }

  function FlatLoop(env: Constants, x: string, values: seq<string>, body: seq<Stmt>): seq<Op>
    decreases body, 1, |values|
  {
    if values == [] then [] else Flat(env[x := values[0]], body) + FlatLoop(env, x, values[1..], body)
  }

  function FlatSuites(env: Constants, suites: seq<Suite>): seq<Op>
    decreases suites, 0
  {
    if suites == [] then [] else Flat(env, suites[0].stmts) + FlatSuites(env, suites[1..])
  }

  lemma {:induction false} StepAppend(t: Tables, a: seq<Op>, b: seq<Op>)
    ensures StepAll(t, a + b) == StepAll(StepAll(t, a), b)
    decreases |a|
  {
    if a == [] {
      assert a + b == b;
    } else {
      assert (a + b)[1..] == a[1..] + b;
      StepAppend(Step(t, a[0]), a[1..], b);
    }
  }

  lemma TwoBlocks(t: Tables, u: Tables, v: Tables, a: seq<Op>, b: seq<Op>)
    requires u == StepAll(t, a) && v == StepAll(u, b)
    ensures v == StepAll(t, a + b)
  {
    StepAppend(t, a, b);
  }

  /** The whole walk is a straight-line program: loops, branches and scopes all gone. */
  lemma {:induction false} VisitIsFlat(t: Tables, env: Constants, stmts: seq<Stmt>)
    ensures VisitAll(t, env, stmts) == StepAll(t, Flat(env, stmts))
    decreases stmts, 0
  {
    if stmts != [] {
      VisitOneIsFlat(t, env, stmts[0]);
      StepAppend(t, FlatOne(env, stmts[0]), Flat(env, stmts[1..]));
      VisitIsFlat(Visit(t, env, stmts[0]), env, stmts[1..]);
    }
  }

  lemma {:induction false} ForIsFlat(t: Tables, env: Constants, s: Stmt)
    requires s.For?
    ensures Visit(t, env, s) == StepAll(t, FlatOne(env, s))
    decreases s, 0, 0
  {
    var body, orelse := s.body, s.orelse;
    var values := LoopValues(s.variable, s.iter);
    if values == [] {
      var first := VisitAll(t, env, body);
      VisitIsFlat(t, env, body);
      VisitIsFlat(first, env, orelse);
      TwoBlocks(t, first, VisitAll(first, env, orelse), Flat(env, body), Flat(env, orelse));
    } else {
      var first := VisitLoop(t, env, s.variable.id, values, body);
      var ops := FlatLoop(env, s.variable.id, values, body);
      LoopIsFlat(t, env, s.variable.id, values, body);
      VisitIsFlat(first, env, orelse);
      TwoBlocks(t, first, VisitAll(first, env, orelse), ops, Flat(env, orelse));
    }
  }

  lemma {:induction false} BranchIsFlat(t: Tables, env: Constants, s: Stmt)
    requires s.If? || s.While?
    ensures Visit(t, env, s) == StepAll(t, FlatOne(env, s))
    decreases s, 0, 0
  {
    var first := VisitAll(t, env, s.body);
    VisitIsFlat(t, env, s.body);
    VisitIsFlat(first, env, s.orelse);
    TwoBlocks(t, first, VisitAll(first, env, s.orelse), Flat(env, s.body), Flat(env, s.orelse));
  }

  lemma {:induction false} TryIsFlat(t: Tables, env: Constants, s: Stmt)
    requires s.Try?
    ensures Visit(t, env, s) == StepAll(t, FlatOne(env, s))
    decreases s, 0, 0
  {
    var t1 := VisitAll(t, env, s.body);
    var t2 := VisitAll(t1, env, s.orelse);
    var t3 := VisitAll(t2, env, s.finalbody);
    VisitIsFlat(t, env, s.body);
    VisitIsFlat(t1, env, s.orelse);
    VisitIsFlat(t2, env, s.finalbody);
    SuitesAreFlat(t3, env, s.handlers);
    var body, orelse, last := Flat(env, s.body), Flat(env, s.orelse), Flat(env, s.finalbody);
    var handlers := FlatSuites(env, s.handlers);
    assert FlatOne(env, s) == body + orelse + last + handlers;
    assert Visit(t, env, s) == VisitSuites(t3, env, s.handlers);
    hide Visit, FlatOne, Flat, FlatSuites, VisitAll, VisitSuites, StepAll;
    TwoBlocks(t, t1, t2, body, orelse);
    TwoBlocks(t, t2, t3, body + orelse, last);
    TwoBlocks(t, t3, VisitSuites(t3, env, s.handlers), body + orelse + last, handlers);
  }

  lemma {:induction false} VisitOneIsFlat(t: Tables, env: Constants, s: Stmt)
    ensures Visit(t, env, s) == StepAll(t, FlatOne(env, s))
    decreases s, 1, 0
  {
    match s
    case For(_, _, _, _) => ForIsFlat(t, env, s);
    case If(_, _) => BranchIsFlat(t, env, s);
    case While(_, _) => BranchIsFlat(t, env, s);
    case Try(_, _, _, _) => TryIsFlat(t, env, s);
    case With(body) => VisitIsFlat(t, env, body);
    case _ =>
      var op := OwnOp(env, s);
      assert [op][1..] == [];
  }

  lemma {:induction false} LoopIsFlat(t: Tables, env: Constants, x: string, values: seq<string>, body: seq<Stmt>)
    ensures VisitLoop(t, env, x, values, body) == StepAll(t, FlatLoop(env, x, values, body))
    decreases body, 1, |values|
  {
    if values != [] {
      var inner := env[x := values[0]];
      VisitIsFlat(t, inner, body);
      LoopIsFlat(VisitAll(t, inner, body), env, x, values[1..], body);
      StepAppend(t, Flat(inner, body), FlatLoop(env, x, values[1..], body));
    }
  }

  lemma {:induction false} SuitesAreFlat(t: Tables, env: Constants, suites: seq<Suite>)
    ensures VisitSuites(t, env, suites) == StepAll(t, FlatSuites(env, suites))
    decreases suites, 0
  {
    if suites != [] {
      VisitIsFlat(t, env, suites[0].stmts);
      SuitesAreFlat(VisitAll(t, env, suites[0].stmts), env, suites[1..]);
      StepAppend(t, Flat(env, suites[0].stmts), FlatSuites(env, suites[1..]));
    }
  }

  // ---------------------------------------------------------------- the tree

  /** A tree: with every command path all its prefixes are there, every path has exactly one
      bucket of options, which knows the help flags, and every variable names a path. */
  ghost predicate IsTree(t: Tables)
  {
    && [] in t.paths
    && (forall p :: p in t.paths && p != [] ==> p[..|p| - 1] in t.paths)
    && t.options.Keys == t.paths
    && (forall p :: p in t.options ==> HELP <= t.options[p])
    && t.parsers.Values <= t.paths && t.subparsers.Values <= t.paths
  }

  /** Paths and options only grow. */
  ghost predicate Grows(t: Tables, u: Tables)
  {
    && t.paths <= u.paths
    && t.options.Keys <= u.options.Keys
    && forall p :: p in t.options ==> t.options[p] <= u.options[p]
  }

  /** Giving a name a known path keeps the tree. */
  lemma BindKeepsTree(t: Tables, x: string, p: Path)
    requires IsTree(t) && p in t.paths
    ensures IsTree(t.(parsers := t.parsers[x := p])) && IsTree(t.(subparsers := t.subparsers[x := p]))
  {
    assert forall y :: y in t.parsers ==> t.parsers[y] in t.parsers.Values;
    assert forall y :: y in t.subparsers ==> t.subparsers[y] in t.subparsers.Values;
  }

  /** So does a new command below a known path, with its bucket. */
  lemma PathKeepsTree(t: Tables, prefix: Path, name: string)
    requires IsTree(t) && prefix in t.paths
    ensures var path := prefix + [name];
            var u := t.(paths := t.paths + {path}, options := SetDefault(t.options, path));
            IsTree(u) && Grows(t, u)
  {
    var path := prefix + [name];
    assert path[..|path| - 1] == prefix;
  }

  lemma OptionsKeepTree(t: Tables, path: Path, names: set<string>)
    requires IsTree(t) && path in t.paths
    ensures var buckets := SetDefault(t.options, path);
            var u := t.(options := buckets[path := buckets[path] + names]);
            IsTree(u) && Grows(t, u)
  {
  }

  lemma StepKeepsTree(t: Tables, op: Op)
    requires IsTree(t)
    ensures IsTree(Step(t, op)) && Grows(t, Step(t, op))
  {
    assert forall x :: x in t.parsers ==> t.parsers[x] in t.parsers.Values;
    assert forall x :: x in t.subparsers ==> t.subparsers[x] in t.subparsers.Values;
    match op
    case Nothing =>
    case BindRoot(x) =>
      assert t.paths + {[]} == t.paths;
      BindKeepsTree(t, x, []);
    case BindSubparsers(x, owner) =>
      if owner in t.parsers { BindKeepsTree(t, x, t.parsers[owner]); }
    case BindParser(x, owner, name) =>
      if owner in t.subparsers {
        var path := t.subparsers[owner] + [name];
        PathKeepsTree(t, t.subparsers[owner], name);
        BindKeepsTree(t.(paths := t.paths + {path}, options := SetDefault(t.options, path)), x, path);
      }
    case AddOptions(owner, names) =>
      if owner in t.parsers { OptionsKeepTree(t, t.parsers[owner], names); }
  }

  lemma {:induction false} StepAllKeepsTree(t: Tables, ops: seq<Op>)
    requires IsTree(t)
    ensures IsTree(StepAll(t, ops)) && Grows(t, StepAll(t, ops))
    decreases |ops|
  {
    if ops != [] {
      StepKeepsTree(t, ops[0]);
      StepAllKeepsTree(Step(t, ops[0]), ops[1..]);
    }
  }

  /** Main result: whatever code is walked, the tables stay a tree and only grow. */
  lemma WalkKeepsTree(t: Tables, env: Constants, stmts: seq<Stmt>)
    requires IsTree(t)
    ensures IsTree(VisitAll(t, env, stmts)) && Grows(t, VisitAll(t, env, stmts))
  {
    VisitIsFlat(t, env, stmts);
    StepAllKeepsTree(t, Flat(env, stmts));
  }

  // ---------------------------------------------------------------- what a statement records

  lemma VisitOne(t: Tables, env: Constants, s: Stmt)
    ensures VisitAll(t, env, [s]) == Visit(t, env, s)
  {
    assert [s][1..] == [];
  }

  /** The help flags, spelled as on a command line. */
  function BucketAt(t: Tables, p: Path): set<string>
  {
    if p in t.options then t.options[p] else {"-h", "--help"}
  }

  /** All buckets but the one at `p` are as they were, and there is one at `p`. */
  ghost predicate OnlyBucket(t: Tables, after: Tables, p: Path)
  {
    && after.options.Keys == t.options.Keys + {p}
    && forall q :: q in t.options && q != p ==> after.options[q] == t.options[q]
  }

  /** Main result: `owner.add_argument(args)` on a known parser leaves at its path the old
      options, or the help flags if there were none, with just the string arguments that
      begin with a dash; no other bucket, path or variable changes, and no other expression
      changes anything. */
  lemma ArgumentCallMeaning(t: Tables, env: Constants, e: Expr)
    ensures var after := VisitAll(t, env, [ExprStmt(e)]);
            if e.Call? && e.attr == "add_argument" && e.owner.Some? && e.owner.value in t.parsers then
              var p := t.parsers[e.owner.value];
              && after.paths == t.paths && after.parsers == t.parsers && after.subparsers == t.subparsers
              && OnlyBucket(t, after, p)
              && forall option :: option in after.options[p] <==>
                   || option in BucketAt(t, p)
                   || exists i :: 0 <= i < |e.args| && e.args[i] == Str(option) && option != "" && option[0] == '-'
            else after == t
  {
    VisitOne(t, env, ExprStmt(e));
    if e.Call? {
      forall option: string
        ensures option in OptionNames(e.args) <==>
                exists i :: 0 <= i < |e.args| && e.args[i] == Str(option) && option != "" && option[0] == '-'
      {
        OptionNamesMeaning(e.args, option);
      }
      hide OptionNames;
    }
  }

  lemma OptionNamesMeaning(args: seq<Expr>, option: string)
    ensures option in OptionNames(args) <==>
            exists i :: 0 <= i < |args| && args[i] == Str(option) && option != "" && option[0] == '-'
  {
  }

  /** The first argument is that string, or a name bound to it. */
  predicate Names(env: Constants, args: seq<Expr>, name: string)
  {
    |args| > 0 && (args[0] == Str(name) || (args[0].Name? && args[0].id in env.Keys && env[args[0].id] == name))
  }

  /** Main result: `x = owner.add_parser(name)`, plain or annotated, below known subparsers
      adds one path, that of the subparsers and the name, to which `x` is then bound and
      which has the help flags if it had no options. */
  lemma AddParserMeaning(t: Tables, env: Constants, s: Stmt, x: string, owner: string, args: seq<Expr>, name: string)
    requires var call := Call(Some(owner), "add_parser", args);
             s == Assign([Name(x)], call) || s == AnnAssign(Name(x), Some(call))
    requires Names(env, args, name)
    ensures var after := VisitAll(t, env, [s]);
            if owner in t.subparsers && name != "" then
              var path := t.subparsers[owner] + [name];
              && after.paths == t.paths + {path}
              && after.parsers == t.parsers[x := path] && after.subparsers == t.subparsers
              && OnlyBucket(t, after, path) && after.options[path] == BucketAt(t, path)
            else after == t
  {
    VisitOne(t, env, s);
  }

  /** A parser of its own is bound to the root; subparsers are bound to the path of their
      parser; every other assignment to a name changes nothing. */
  lemma AssignmentMeaning(t: Tables, env: Constants, s: Stmt, x: string, value: Expr)
    requires s == Assign([Name(x)], value) || s == AnnAssign(Name(x), Some(value))
    ensures var after := VisitAll(t, env, [s]);
            if value.Call? && value.attr == "ArgumentParser" then
              after == Tables(t.paths + {[]}, t.options, t.parsers[x := []], t.subparsers)
            else if value.Call? && value.attr == "add_subparsers" && value.owner.Some?
                    && value.owner.value in t.parsers then
              after == Tables(t.paths, t.options, t.parsers, t.subparsers[x := t.parsers[value.owner.value]])
            else
              after == t || (value.Call? && value.attr == "add_parser" && value.owner.Some?
                             && exists name: string :: Names(env, value.args, name))
  {
    VisitOne(t, env, s);
    if value.Call? && value.attr == "add_parser" && StringArgument(env, value.args).Some? {
      assert Names(env, value.args, StringArgument(env, value.args).value);
    }
  }

  /** Statements of no use to the tables: assignments to anything but one name, and what has
      neither blocks nor an expression to look at. */
  lemma OthersRecordNothing(t: Tables, env: Constants, s: Stmt)
    requires || s == OtherStmt
             || (s.Assign? && !(|s.targets| == 1 && s.targets[0].Name?))
             || (s.AnnAssign? && !(s.target.Name? && s.annotated.Some?))
    ensures VisitAll(t, env, [s]) == t
  {
    VisitOne(t, env, s);
  }

  function Bodies(suites: seq<Suite>): seq<Stmt>
  {
    if suites == [] then [] else suites[0].stmts + Bodies(suites[1..])
  }

  lemma {:induction false} SuitesAreBodies(t: Tables, env: Constants, suites: seq<Suite>)
    ensures VisitSuites(t, env, suites) == VisitAll(t, env, Bodies(suites))
    decreases |suites|
  {
    if suites != [] {
      SuitesAreBodies(VisitAll(t, env, suites[0].stmts), env, suites[1..]);
      VisitAppend(t, env, suites[0].stmts, Bodies(suites[1..]));
    }
  }

  /** All blocks of a compound statement are walked, in the order of the source text but for
      the handlers, which come last; so are those of a loop over nothing literal, once. */
  lemma BlocksMeaning(t: Tables, env: Constants, body: seq<Stmt>, orelse: seq<Stmt>)
    ensures VisitAll(t, env, [If(body, orelse)]) == VisitAll(t, env, body + orelse)
    ensures VisitAll(t, env, [While(body, orelse)]) == VisitAll(t, env, body + orelse)
    ensures VisitAll(t, env, [With(body)]) == VisitAll(t, env, body)
  {
    VisitAppend(t, env, body, orelse);
    VisitOne(t, env, If(body, orelse));
    VisitOne(t, env, While(body, orelse));
    VisitOne(t, env, With(body));
  }

  lemma PlainLoopMeaning(t: Tables, env: Constants, s: Stmt)
    requires s.For?
    requires || !s.variable.Name? || !s.iter.Sequence?
             || forall i :: 0 <= i < |s.iter.elements| ==> !s.iter.elements[i].Str?
    ensures VisitAll(t, env, [s]) == VisitAll(t, env, s.body + s.orelse)
  {
    VisitOne(t, env, s);
    VisitAppend(t, env, s.body, s.orelse);
    if s.variable.Name? && s.iter.Sequence? { NoStrings(s.iter.elements); }
  }

  lemma TryMeaning(t: Tables, env: Constants, s: Stmt)
    requires s.Try?
    ensures VisitAll(t, env, [s]) == VisitAll(t, env, s.body + s.orelse + s.finalbody + Bodies(s.handlers))
  {
    var t2 := VisitAll(VisitAll(t, env, s.body), env, s.orelse);
    VisitOne(t, env, s);
    VisitAppend(t, env, s.body, s.orelse);
    VisitAppend(t, env, s.body + s.orelse, s.finalbody);
    VisitAppend(t, env, s.body + s.orelse + s.finalbody, Bodies(s.handlers));
    SuitesAreBodies(VisitAll(t2, env, s.finalbody), env, s.handlers);
    hide VisitAll, VisitSuites, Bodies;
  }

  lemma {:induction false} NoStrings(elements: seq<Expr>)
    requires forall i :: 0 <= i < |elements| ==> !elements[i].Str?
    ensures Strings(elements) == []
    decreases |elements|
  {
    if elements != [] { NoStrings(elements[1..]); }
  }

  /** The strings of a display, in order, and nothing else of it. */
  lemma {:induction false} StringsMeaning(a: seq<Expr>, b: seq<Expr>, e: Expr)
    ensures Strings(a + b) == Strings(a) + Strings(b) && Strings([e]) == if e.Str? then [e.value] else []
    decreases |a|
  {
    assert [e][1..] == [];
    if a == [] {
      assert a + b == b;
    } else {
      assert (a + b)[0] == a[0] && (a + b)[1..] == a[1..] + b;
      StringsMeaning(a[1..], b, e);
    }
  }

  // ---------------------------------------------------------------- the interpreter object

  class Interpreter {
    var tables: Tables
    var constants: Constants

    constructor ()
      ensures tables == BLANK && constants == map[]
    {
      tables, constants := BLANK, map[];
    }

    method RecordParserAssignment(target: string, value: Expr)
      modifies this`tables
      ensures tables == Step(old(tables), AssignOp(constants, target, value))
    {
      if !value.Call? { return; }
      if value.attr == "ArgumentParser" {
        tables := tables.(parsers := tables.parsers[target := []], paths := tables.paths + {[]});
        return;
      }
      if value.owner.None? { return; }
      var owner := value.owner.value;
      if value.attr == "add_subparsers" && owner in tables.parsers {
        tables := tables.(subparsers := tables.subparsers[target := tables.parsers[owner]]);
      } else if value.attr == "add_parser" {
        var name := StringArgument(constants, value.args);
        if owner in tables.subparsers && name.Some? && name.value != [] {
          var path := tables.subparsers[owner] + [name.value];
          tables := tables.(parsers := tables.parsers[target := path], paths := tables.paths + {path},
                            options := SetDefault(tables.options, path));
        }
      }
    }

    method RecordArgumentCall(e: Expr)
      modifies this`tables
      ensures tables == Step(old(tables), ArgumentOp(e))
    {
      if !e.Call? || e.attr != "add_argument" || e.owner.None? { return; }
      if e.owner.value !in tables.parsers { return; }
      var path := tables.parsers[e.owner.value];
      var buckets := SetDefault(tables.options, path);
      var bucket, i := buckets[path], 0;
      while i < |e.args|
        invariant 0 <= i <= |e.args| && tables == old(tables)
        invariant bucket == buckets[path] + OptionNames(e.args[..i])
      {
        OptionNamesStep(e.args, i);
        if e.args[i].Str? && IsOption(e.args[i].value) { bucket := bucket + {e.args[i].value}; }
        i := i + 1;
      }
      assert e.args[..i] == e.args;
      tables := tables.(options := buckets[path := bucket]);
    }

    /** The constants a loop sets are put back, so the walk is the scoped one. */
    method VisitStatements(stmts: seq<Stmt>)
      modifies this
      ensures tables == VisitAll(old(tables), constants, stmts) && constants == old(constants)
      decreases stmts, 0
    {
      var i := 0;
      while i < |stmts|
        invariant 0 <= i <= |stmts| && constants == old(constants)
        invariant VisitAll(tables, constants, stmts[i..]) == VisitAll(old(tables), constants, stmts)
      {
        assert stmts[i..][0] == stmts[i] && stmts[i..][1..] == stmts[i + 1..];
        VisitStatement(stmts[i]);
        i := i + 1;
      }
      assert stmts[i..] == [];
    }

    method VisitStatement(s: Stmt)
      modifies this
      ensures tables == Visit(old(tables), constants, s) && constants == old(constants)
      decreases s, 1, 0
    {
      match s {
        case Assign(targets, value) =>
          if |targets| == 1 && targets[0].Name? { RecordParserAssignment(targets[0].id, value); }
        case AnnAssign(target, value) =>
          if target.Name? && value.Some? { RecordParserAssignment(target.id, value.value); }
        case ExprStmt(e) => RecordArgumentCall(e);
        case For(variable, iter, body, orelse) =>
          var values := LoopValues(variable, iter);
          if values != [] {
            VisitLoopBody(variable.id, values, body);
          } else {
            VisitStatements(body);
          }
          VisitStatements(orelse);
        case If(body, orelse) =>
          VisitStatements(body);
          VisitStatements(orelse);
        case While(body, orelse) =>
          VisitStatements(body);
          VisitStatements(orelse);
        case Try(body, orelse, finalbody, handlers) =>
          VisitStatements(body);
          VisitStatements(orelse);
          VisitStatements(finalbody);
          VisitHandlers(handlers);
        case With(body) => VisitStatements(body);
        case OtherStmt =>
      }
    }

    method VisitLoopBody(x: string, values: seq<string>, body: seq<Stmt>)
      modifies this
      ensures tables == VisitLoop(old(tables), constants, x, values, body) && constants == old(constants)
      decreases body, 1, 0
    {
      var previous := if x in constants then Some(constants[x]) else None;
      ghost var outer := constants;
      var i := 0;
      while i < |values|
        invariant 0 <= i <= |values|
        invariant constants - {x} == outer - {x}
        invariant VisitLoop(tables, outer, x, values[i..], body) == VisitLoop(old(tables), outer, x, values, body)
      {
        assert values[i..][0] == values[i] && values[i..][1..] == values[i + 1..];
        Rebinds(constants, outer, x, values[i]);
        constants := constants[x := values[i]];
        VisitStatements(body);
        i := i + 1;
      }
      assert values[i..] == [];
      Restores(constants, outer, x);
      if previous.None? {
        constants := constants - {x};
      } else {
        constants := constants[x := previous.value];
      }
    }

    method VisitHandlers(handlers: seq<Suite>)
      modifies this
      ensures tables == VisitSuites(old(tables), constants, handlers) && constants == old(constants)
      decreases handlers, 0
    {
      var i := 0;
      while i < |handlers|
        invariant 0 <= i <= |handlers| && constants == old(constants)
        invariant VisitSuites(tables, constants, handlers[i..]) == VisitSuites(old(tables), constants, handlers)
      {
        assert handlers[i..][0] == handlers[i] && handlers[i..][1..] == handlers[i + 1..];
        VisitStatements(handlers[i].stmts);
        i := i + 1;
      }
      assert handlers[i..] == [];
    }
  }

  lemma OptionNamesStep(args: seq<Expr>, i: nat)
    requires i < |args|
    ensures OptionNames(args[..i + 1])
         == OptionNames(args[..i]) + (if args[i].Str? && IsOption(args[i].value) then {args[i].value} else {})
  {
    var a, b := args[..i], args[..i + 1];
    assert forall j :: 0 <= j < i ==> a[j] == b[j];
    assert b[i] == args[i];
  }

  lemma Rebinds(m: Constants, outer: Constants, x: string, v: string)
    requires m - {x} == outer - {x}
    ensures m[x := v] == outer[x := v] && outer[x := v] - {x} == outer - {x}
  {
    assert forall k :: k in m && k != x ==> k in m - {x};
    assert forall k :: k in outer && k != x ==> k in outer - {x};
    assert forall k :: k != x && k in m ==> m[k] == (m - {x})[k] == outer[k];
  }

  lemma Restores(m: Constants, outer: Constants, x: string)
    requires m - {x} == outer - {x}
    ensures x !in outer ==> m - {x} == outer
    ensures x in outer ==> m[x := outer[x]] == outer
  {
    if x in outer {
      Rebinds(m, outer, x, outer[x]);
      assert outer[x := outer[x]] == outer;
    } else {
      assert outer - {x} == outer;
    }
  }
}
