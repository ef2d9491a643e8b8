/** The two guarded ways to commit, over an abstract git: three trees, and git's own
    answers as inputs. */
module GuardedCommit {
  import opened Text
  import opened GitListing

  type Tree = map<string, string>

  datatype Git = Git(head: Tree, index: Tree, work: Tree)

  function Get(t: Tree, path: string): Option<string>
  {
    if path in t then Some(t[path]) else None
  }

  /** Paths in which two trees differ. */
  function Diff(a: Tree, b: Tree): set<string>
  {
    set p | p in a.Keys + b.Keys && Get(a, p) != Get(b, p)
  }

  /** `to` with the given paths as they are in `from_`. */
  function Take(to: Tree, from_: Tree, paths: set<string>): Tree
  {
    map p | p in to.Keys + from_.Keys && (if p in paths then p in from_ else p in to) ::
      if p in paths then from_[p] else to[p]
  }

  lemma TakeGet(to: Tree, from_: Tree, paths: set<string>, p: string)
    ensures Get(Take(to, from_, paths), p) == if p in paths then Get(from_, p) else Get(to, p)
  {
  }

  /** The patterns of the program: paths and contents that must not be committed. */
  datatype Rules = Rules(
    unsafe: string -> bool,
    sensitive: string -> bool,
    holdsSecret: string -> bool,
    generated: string -> bool)

  /** The tests a requested path passes, on the content it has in the working tree. */
  predicate Vetted(r: Rules, work: Tree, path: string)
  {
    && !r.unsafe(path) && !r.sensitive(path) && !r.generated(path)
    && (path in work ==> !r.holdsSecret(work[path]))
  }

  // ---------------------------------------------------------------- cleaning generated files

  /** How the cleaning of a listed path goes: a `git restore` that fails is only recorded, and
      a file that cannot be removed, or may not be touched, ends the request. */
  datatype Cleaning = Works | Fails | Raises

  datatype Change = Change(path: string, cleaning: Cleaning)

  /** One changed path: deleted when untracked, else restored from the index. */
  function CleanOne(g: Git, path: string): Git
  {
    if path in g.index then g.(work := g.work[path := g.index[path]]) else g.(work := g.work - {path})
  }

  /** The loop over what `git status` lists, and whether it comes to its end. */
  function CleanAll(r: Rules, g: Git, changed: seq<Change>): (Git, bool)
    decreases |changed|
  {
    if changed == [] then (g, true)
    else
      var c := changed[0];
      if !r.generated(c.path) || c.cleaning.Fails? then CleanAll(r, g, changed[1..])
      else if c.cleaning.Raises? then (g, false)
      else CleanAll(r, CleanOne(g, c.path), changed[1..])
  }

  /** No cleaning in front of item `i` ends the request. */
  predicate Reached(r: Rules, changed: seq<Change>, i: nat)
    requires i <= |changed|
  {
    forall j :: 0 <= j < i ==> !(r.generated(changed[j].path) && changed[j].cleaning.Raises?)
  }

  /** The path is generated, listed, come to, and its cleaning works. */
  predicate Cleaned(r: Rules, changed: seq<Change>, p: string)
  {
    exists i :: 0 <= i < |changed| && changed[i] == Change(p, Works) && Reached(r, changed, i) && r.generated(p)
  }

  lemma ReachedFirst(r: Rules, changed: seq<Change>)
    requires changed != []
    ensures var stops := r.generated(changed[0].path) && changed[0].cleaning.Raises?;
            && (forall i :: 0 < i <= |changed| ==>
                  (Reached(r, changed, i) <==> !stops && Reached(r, changed[1..], i - 1)))
  {
    forall i | 0 < i <= |changed|
      ensures Reached(r, changed, i) <==>
              !(r.generated(changed[0].path) && changed[0].cleaning.Raises?) && Reached(r, changed[1..], i - 1)
    {
      assert forall j :: 1 <= j < i ==> changed[j] == changed[1..][j - 1];
      if Reached(r, changed[1..], i - 1) { assert forall j :: 1 <= j < i ==> changed[1..][j - 1] == changed[j]; }
    }
  }

  lemma CleanedFirst(r: Rules, changed: seq<Change>, p: string)
    requires changed != []
    ensures var c := changed[0];
            Cleaned(r, changed, p) <==>
              || (c == Change(p, Works) && r.generated(p))
              || (!(r.generated(c.path) && c.cleaning.Raises?) && Cleaned(r, changed[1..], p))
  {
    ReachedFirst(r, changed);
    var rest := changed[1..];
    if i :| 0 <= i < |changed| && changed[i] == Change(p, Works) && Reached(r, changed, i) && r.generated(p) {
      if i > 0 { assert rest[i - 1] == changed[i] && Reached(r, rest, i - 1); }
    }
    if i :| 0 <= i < |rest| && rest[i] == Change(p, Works) && Reached(r, rest, i) && r.generated(p) {
      assert changed[i + 1] == rest[i];
    }
    assert Reached(r, changed, 0);
  }

  /** Cleaned paths end up as in the index; nothing else is touched. */
  lemma {:induction false} CleanAllMeaning(r: Rules, g: Git, changed: seq<Change>, p: string)
    ensures var (c, ended) := CleanAll(r, g, changed);
            && c.head == g.head && c.index == g.index
            && (ended <==> Reached(r, changed, |changed|))
            && Get(c.work, p) == if Cleaned(r, changed, p) then Get(g.index, p) else Get(g.work, p)
    decreases |changed|
  {
    if changed != [] {
      ReachedFirst(r, changed);
      CleanedFirst(r, changed, p);
      var c, rest := changed[0], changed[1..];
      hide Cleaned, Reached;
      CleanAllMeaning(r, if r.generated(c.path) && c.cleaning.Works? then CleanOne(g, c.path) else g, rest, p);
    }
  }

  /** Main result of the cleanup, whatever git lists: a file ends as in the index exactly when
      it was so before, or was generated, listed, come to and successfully cleaned; any
      other - one that git ignores, say - stays as it was. */
  lemma CleanupMeaning(r: Rules, g: Git, changed: seq<Change>, p: string)
    ensures var c := CleanAll(r, g, changed).0;
            && (Get(c.work, p) == Get(g.index, p) <==> Get(g.work, p) == Get(g.index, p) || Cleaned(r, changed, p))
            && (!Cleaned(r, changed, p) ==> Get(c.work, p) == Get(g.work, p))
            && (r.generated(p) && Reached(r, changed, |changed|) ==>
                  (Cleaned(r, changed, p) <==> exists i :: 0 <= i < |changed| && changed[i] == Change(p, Works)))
  {
    CleanAllMeaning(r, g, changed, p);
    if i :| 0 <= i < |changed| && changed[i] == Change(p, Works) {
      if Reached(r, changed, |changed|) { assert Reached(r, changed, i); }
    }
  }

  // ---------------------------------------------------------------- what git shows

  /** Git has printed the paths in which the index differs from HEAD, plainly and in full. */
  ghost predicate Shown(head: Tree, index: Tree, printed: string)
  {
    exists paths: seq<string> ::
      && (forall p :: p in paths ==> Plain(p)) && (forall i, j :: 0 <= i < j < |paths| ==> paths[i] != paths[j])
      && Names(paths) == Diff(head, index) && printed == Print(paths) && |printed| <= INLINE_LIMIT
  }

  lemma ShownIsListed(head: Tree, index: Tree, printed: string)
    requires Shown(head, index, printed)
    ensures Names(Listed(printed)) == Diff(head, index)
  {
    var paths: seq<string> :|
      && (forall p :: p in paths ==> Plain(p)) && (forall i, j :: 0 <= i < j < |paths| ==> paths[i] != paths[j])
      && Names(paths) == Diff(head, index) && printed == Print(paths) && |printed| <= INLINE_LIMIT;
    ListingIsComplete(paths);
  }

  // ---------------------------------------------------------------- committing whole files

  datatype Request = Request(message: string, requested: seq<string>, cleanup: bool, checks: bool)

  /** What git and the checks answer: the status listing with how cleaning goes, whether the first `reset` works,
      whether `add` succeeds and which paths it has staged by then, what `diff` prints of
      the staged paths, whether a later `reset` works, the results of the two checks, the
      working tree the prechecks leave, and whether `commit` succeeds. The program tests no
      exit code of `reset` and of the listing. */
  datatype Answers = Answers(
    changed: seq<Change>,
    cleared: bool,
    addOk: bool,
    added: set<string>,
    printed: string,
    undone: bool,
    diffOk: bool,
    precheckOk: bool,
    workAfter: Tree,
    commitOk: bool)

  datatype Outcome =
    | BadRequest
    | Vetoed(path: string)
    | CleanupRaised
    | AddFailed
    | Unexpected(extra: set<string>)
    | NothingStaged
    | DiffCheckFailed
    | PrecheckFailed
    | CommitFailed
    | Committed(staged: set<string>)

  function Reset(g: Git, ok: bool): Git
  {
    if ok then g.(index := g.head) else g
  }

  function Prepared(r: Rules, g: Git, q: Request, a: Answers): Git
  {
    if q.cleanup then CleanAll(r, g, a.changed).0 else g
  }

  /** Git as `reset` and `add` leave it. */
  function Staged(r: Rules, g: Git, q: Request, a: Answers): Git
  {
    var ready := Reset(Prepared(r, g, q, a), a.cleared);
    ready.(index := Take(ready.index, ready.work, a.added))
  }

  /** From the staged index on. */
  function Finish(s: Git, q: Request, a: Answers): (Git, Outcome)
  {
    var staged := Names(Listed(a.printed));
    var extra := staged - Names(q.requested);
    if extra != {} then (Reset(s, a.undone), Unexpected(extra))
    else if staged == {} then (s, NothingStaged)
    else if !a.diffOk then (Reset(s, a.undone), DiffCheckFailed)
    else
      var checked := if q.checks then s.(work := a.workAfter) else s;
      if q.checks && !a.precheckOk then (Reset(checked, a.undone), PrecheckFailed)
      else if !a.commitOk then (checked, CommitFailed)
      else (checked.(head := checked.index), Committed(staged))
  }

  function Commit(r: Rules, g: Git, q: Request, a: Answers): (Git, Outcome)
  {
    if q.message == [] || q.requested == [] then (g, BadRequest)
    else if FirstVetoed(r, g.work, q.requested).Some? then (g, Vetoed(FirstVetoed(r, g.work, q.requested).value))
    else if q.cleanup && !CleanAll(r, g, a.changed).1 then (Prepared(r, g, q, a), CleanupRaised)
    else
      var s := Staged(r, g, q, a);
      if !a.addOk then (s, AddFailed) else Finish(s, q, a)
  }

  function FirstVetoed(r: Rules, work: Tree, paths: seq<string>): (first: Option<string>)
    ensures first.None? <==> forall p :: p in paths ==> Vetted(r, work, p)
    ensures first.Some? ==> first.value in paths && !Vetted(r, work, first.value)
  {
    if paths == [] then None
    else if !Vetted(r, work, paths[0]) then Some(paths[0])
    else FirstVetoed(r, work, paths[1..])
  }

  lemma StagedMeaning(r: Rules, g: Git, q: Request, a: Answers, p: string)
    ensures var s := Staged(r, g, q, a);
            && s.head == g.head
            && Get(s.index, p) ==
               if p in a.added then Get(Prepared(r, g, q, a).work, p)
               else if a.cleared then Get(g.head, p) else Get(g.index, p)
    ensures Vetted(r, g.work, p) ==> Get(Prepared(r, g, q, a).work, p) == Get(g.work, p)
  {
    if q.cleanup {
      CleanAllMeaning(r, g, a.changed, p);
      hide CleanAll;
    }
    var ready := Reset(Prepared(r, g, q, a), a.cleared);
    TakeGet(ready.index, ready.work, a.added, p);
  }

  /** Main result: what a commit lists is requested and vetted; what it changes has the
      content that was vetted, the cleanup in between and whatever the prechecks do to the
      working tree notwithstanding; and it changes requested and vetted paths only exactly
      when no path the listing hides was left unrequested. */
  lemma CommitIsVetted(r: Rules, g: Git, q: Request, a: Answers)
    requires Commit(r, g, q, a).1.Committed?
    ensures var (after, outcome) := Commit(r, g, q, a);
            var changed := Diff(g.head, after.head);
            && after.index == after.head
            && outcome.staged != {}
            && (forall p :: p in outcome.staged ==> p in q.requested && Vetted(r, g.work, p))
            && (forall p :: p in changed && p in q.requested && (a.cleared || p in a.added) ==>
                  Get(after.head, p) == Get(g.work, p))
            && (a.cleared ==> changed <= a.added)
            && ((forall p :: p in changed ==> p in q.requested && Vetted(r, g.work, p)) <==>
                  changed - outcome.staged <= Names(q.requested))
  {
    hide CleanAll, Take, Listed, Vetted, Prepared;
    var (after, outcome) := Commit(r, g, q, a);
    var changed := Diff(g.head, after.head);
    var s := Staged(r, g, q, a);
    StagedMeaning(r, g, q, a, "");
    assert after.head == s.index;
    CommitListsRequested(r, g, q, a);
    forall p | p in changed
      ensures p in q.requested && (a.cleared || p in a.added) ==> Get(after.head, p) == Get(g.work, p)
      ensures a.cleared ==> p in a.added
    {
      StagedMeaning(r, g, q, a, p);
    }
    if changed - outcome.staged <= Names(q.requested) {
      forall p | p in changed
        ensures p in q.requested
      {
        if p !in outcome.staged { assert p in changed - outcome.staged; }
      }
    }
  }

  lemma CommitListsRequested(r: Rules, g: Git, q: Request, a: Answers)
    requires Commit(r, g, q, a).1.Committed?
    ensures forall p :: p in Commit(r, g, q, a).1.staged ==> p in q.requested
    ensures forall p :: p in q.requested ==> Vetted(r, g.work, p)
    ensures Commit(r, g, q, a).1.staged == Names(Listed(a.printed)) != {}
  {
    hide CleanAll, Take, Listed, Vetted, Prepared;
    var staged := Names(Listed(a.printed));
    forall p | p in staged
      ensures p in q.requested
    {
      assert p !in staged - Names(q.requested);
    }
  }

  /** With a listing that shows what is staged, a commit changes HEAD in just the listed
      paths, all of them requested and vetted, to the content vetted; a path that `add` did
      not stage may come from before, if the `reset` failed. */
  lemma ShownCommitIsVetted(r: Rules, g: Git, q: Request, a: Answers)
    requires Commit(r, g, q, a).1.Committed?
    requires Shown(g.head, Staged(r, g, q, a).index, a.printed)
    ensures var (after, outcome) := Commit(r, g, q, a);
            && outcome.staged == Diff(g.head, after.head) && outcome.staged != {}
            && (forall p :: p in outcome.staged ==> p in q.requested && Vetted(r, g.work, p))
            && (forall p :: p in outcome.staged && (a.cleared || p in a.added) ==> Get(after.head, p) == Get(g.work, p))
  {
    hide CleanAll, Take, Listed, Vetted, Prepared, Shown;
    StagedMeaning(r, g, q, a, "");
    ShownIsListed(g.head, Staged(r, g, q, a).index, a.printed);
    CommitIsVetted(r, g, q, a);
  }

  const OPEN_RULES := Rules(_ => false, _ => false, _ => false, _ => false)

  /** The exact condition on the listing: if git has printed what is staged, a commit stays
      within the request exactly when every path whose line is not whole in the last 300,000
      characters was requested. */
  lemma HiddenPathsDecide(r: Rules, g: Git, q: Request, a: Answers, paths: seq<string>)
    requires Commit(r, g, q, a).1.Committed?
    requires a.printed == Print(paths) && forall p :: p in paths ==> Plain(p)
    requires Names(paths) == Diff(g.head, Staged(r, g, q, a).index)
    ensures var after := Commit(r, g, q, a).0;
            && Diff(g.head, after.head) == Names(paths)
            && (Diff(g.head, after.head) <= Names(q.requested) <==>
                  forall i :: 0 <= i < HiddenCount(paths) ==> paths[i] in q.requested)
  {
    hide Commit, Staged, Vetted, Diff, HiddenCount, Print, Plain, Listed;
    CommitTakesIndex(r, g, q, a);
    CommitListsRequested(r, g, q, a);
    HiddenPathsMatter(paths, q.requested);
  }

  lemma CommitTakesIndex(r: Rules, g: Git, q: Request, a: Answers)
    requires Commit(r, g, q, a).1.Committed?
    ensures var after := Commit(r, g, q, a).0; after.head == after.index == Staged(r, g, q, a).index
  {
    hide CleanAll, Staged, Vetted, Listed, Names;
  }

  lemma HiddenPathsMatter(paths: seq<string>, requested: seq<string>)
    requires forall p :: p in paths ==> Plain(p)
    requires Names(Listed(Print(paths))) <= Names(requested)
    ensures Names(paths) <= Names(requested) <==> forall i :: 0 <= i < HiddenCount(paths) ==> paths[i] in requested
  {
    hide HiddenCount, Print, Plain, Listed;
    ListedEnds(paths);
    var k := HiddenCount(paths);
    var first: seq<string> :| |first| <= 1 && Listed(Print(paths)) == first + paths[k..];
    forall i | k <= i < |paths|
      ensures paths[i] in requested
    {
      assert paths[i] == (first + paths[k..])[|first| + i - k];
      assert paths[i] in Names(Listed(Print(paths)));
    }
    forall i | 0 <= i < |paths|
      ensures paths[i] in Names(paths)
    {
    }
  }

  /** When it fails: of any paths that `add` stages, all are committed and only those listed
      behind the cut are seen, requested or not the ones in front of it. */
  lemma HiddenPathsAreCommitted(r: Rules, g: Git, q: Request, a: Answers, hidden: seq<string>, shown: seq<string>)
    requires (forall p :: p in shown ==> Plain(p)) && |Print(shown)| == INLINE_LIMIT
    requires q.message != [] && Names(shown) <= Names(q.requested)
    requires forall p :: p in q.requested ==> Vetted(r, g.work, p)
    requires !q.cleanup && !q.checks && a.cleared && a.addOk && a.diffOk && a.commitOk
    requires a.added == Names(hidden + shown) <= Diff(g.head, g.work) && a.printed == Print(hidden + shown)
    ensures var (after, outcome) := Commit(r, g, q, a);
            outcome == Committed(Names(shown)) && Diff(g.head, after.head) == Names(hidden + shown)
  {
    hide CleanAll, Take, Vetted, Plain, Print, Listed, Diff, Finish, Names, Staged;
    CutBetweenLines(hidden, shown);
    var s := Staged(r, g, q, a);
    CommitsAll(s, q, a, shown);
    assert FirstVetoed(r, g.work, q.requested).None?;
    assert Commit(r, g, q, a) == Finish(s, q, a);
    StagedMeaning(r, g, q, a, "");
    hide Commit;
    forall p: string
      ensures p in Diff(g.head, s.index) <==> p in a.added
    {
      StagedMeaning(r, g, q, a, p);
      InDiff(g.head, s.index, p);
      InDiff(g.head, g.work, p);
    }
  }

  lemma CommitsAll(s: Git, q: Request, a: Answers, shown: seq<string>)
    requires Listed(a.printed) == shown && |Print(shown)| == INLINE_LIMIT && Names(shown) <= Names(q.requested)
    requires !q.checks && a.diffOk && a.commitOk
    ensures q.requested != [] && Finish(s, q, a) == (s.(head := s.index), Committed(Names(shown)))
  {
    hide Listed;
    assert shown != [];
    assert shown[0] in Names(shown);
    assert Names(shown) - Names(q.requested) == {};
  }

  /** 1,200 distinct paths of 249 characters below the directory "d". */
  function Numbered(i: nat): (path: string)
    requires i < 1200
    ensures |path| == 249 && path[0] == 'd' && path[1] == '/'
    ensures forall k :: 2 <= k < 249 ==> 'a' <= path[k] <= 'z'
    ensures path[246] == Letter(i / 676) && path[247] == Letter(i / 26 % 26) && path[248] == Letter(i % 26)
  {
    "d/" + seq(244, _ => 'z') + [Letter(i / 676), Letter(i / 26 % 26), Letter(i % 26)]
  }

  function Letter(n: nat): (c: char)
    requires n < 26
    ensures 'a' <= c <= 'z' && c as int == 'a' as int + n
  {
    ('a' as int + n) as char
  }

  lemma NumberedIsPlain(i: nat)
    requires i < 1200
    ensures Plain(Numbered(i))
  {
    hide Numbered;
    var path := Numbered(i);
    assert !IsSpace(path[0]);
    assert 'a' <= path[248] <= 'z';
  }

  function ManyPaths(n: nat): (paths: seq<string>)
    requires n <= 1200
    ensures |paths| == n && forall i :: 0 <= i < n ==> paths[i] == Numbered(i)
  {
    seq(n, i requires 0 <= i < n => Numbered(i))
  }

  lemma NumberedApart(i: nat, j: nat)
    requires i < j < 1200
    ensures Numbered(i) != Numbered(j)
  {
    Digits(i);
    Digits(j);
    if i / 676 != j / 676 {
      assert Numbered(i)[246] != Numbered(j)[246];
    } else if i / 26 % 26 != j / 26 % 26 {
      assert Numbered(i)[247] != Numbered(j)[247];
    } else {
      assert Numbered(i)[248] != Numbered(j)[248];
    }
  }

  lemma Digits(i: nat)
    ensures i == 676 * (i / 676) + 26 * (i / 26 % 26) + i % 26
  {
  }

  lemma PrintOne(path: string)
    ensures |Print([path])| == |path| + 1 && Print([]) == []
  {
  }

  lemma {:induction false} ManyPrint(n: nat)
    requires n <= 1200
    ensures |Print(ManyPaths(n))| == 250 * n
    decreases n
  {
    if n > 0 {
      ManyPrint(n - 1);
      var last := Numbered(n - 1);
      assert ManyPaths(n) == ManyPaths(n - 1) + [last];
      PrintAppend(ManyPaths(n - 1), [last]);
      PrintOne(last);
      hide Print, ManyPaths, Numbered;
    }
  }

  /** A run: the directory "d" and 1,200 files in it are requested; git prints the sensitive
      "d/e" in front of them. */
  const E_IS_SENSITIVE := OPEN_RULES.(sensitive := p => p == "d/e")

  function DirPaths(): (paths: seq<string>)
    ensures |paths| == 1201 && paths[0] == "d/e" && paths[1..] == ManyPaths(1200)
  {
    ["d/e"] + ManyPaths(1200)
  }

  function DirTree(): Tree
  {
    map p | p in Names(DirPaths()) :: "text"
  }

  function DirRequest(): Request
  {
    Request("m", ["d"] + ManyPaths(1200), false, false)
  }

  function DirAnswers(): Answers
  {
    Answers([], true, true, Names(DirPaths()), Print(DirPaths()), true, true, true, map[], true)
  }

  lemma DirPathsApart(i: nat, j: nat)
    requires i < j < 1201
    ensures DirPaths()[i] != DirPaths()[j]
  {
    hide ManyPaths, Numbered, Plain, DirPaths;
    var many := DirPaths()[1..];
    assert DirPaths()[j] == many[j - 1] == Numbered(j - 1);
    if i > 0 {
      assert DirPaths()[i] == many[i - 1] == Numbered(i - 1);
      NumberedApart(i - 1, j - 1);
    }
  }

  lemma DirIsVetted()
    ensures forall p :: p in DirRequest().requested ==> Vetted(E_IS_SENSITIVE, DirTree(), p)
    ensures "d/e" !in DirRequest().requested
  {
    hide ManyPaths, Numbered, Plain, DirPaths;
    forall p | p in DirRequest().requested
      ensures |p| == 1 || |p| == 249
    {
    }
  }

  /** The sensitive file is committed, unasked and unseen. */
  lemma HiddenPathIsCommitted()
    ensures forall i, j :: 0 <= i < j < |DirPaths()| ==> DirPaths()[i] != DirPaths()[j]
    ensures var g := Git(map[], map[], DirTree());
            var (after, outcome) := Commit(E_IS_SENSITIVE, g, DirRequest(), DirAnswers());
            && outcome == Committed(Names(ManyPaths(1200)))
            && "d/e" in Diff(g.head, after.head) && "d/e" !in DirRequest().requested
            && !Vetted(E_IS_SENSITIVE, g.work, "d/e")
  {
    forall i, j | 0 <= i < j < |DirPaths()|
      ensures DirPaths()[i] != DirPaths()[j]
    {
      DirPathsApart(i, j);
    }
    hide *;
    var g, shown := Git(map[], map[], DirTree()), ManyPaths(1200);
    DirIsVetted();
    DirIsAsked();
    DirIsAdded();
    ManyArePlain();
    ManyPrint(1200);
    HiddenPathsAreCommitted(E_IS_SENSITIVE, g, DirRequest(), DirAnswers(), ["d/e"], shown);
    SensitiveIsNotVetted();
  }

  lemma DirIsAsked()
    ensures Names(ManyPaths(1200)) <= Names(DirRequest().requested) && "d/e" in Names(DirPaths())
    ensures DirRequest().message != [] && !DirRequest().cleanup && !DirRequest().checks
  {
    hide ManyPaths, Numbered;
    assert DirPaths()[0] in Names(DirPaths());
  }

  lemma DirIsAdded()
    ensures ["d/e"] + ManyPaths(1200) == DirPaths()
    ensures var a := DirAnswers();
            && a.added == Names(DirPaths()) <= Diff(map[], DirTree()) && a.printed == Print(DirPaths())
            && a.cleared && a.addOk && a.diffOk && a.commitOk
  {
    hide ManyPaths, Numbered, DirPaths, Print;
    assert ["d/e"] + ManyPaths(1200) == DirPaths();
    assert Names(DirPaths()) == DirTree().Keys;
  }

  lemma ManyArePlain()
    ensures forall p :: p in ManyPaths(1200) ==> Plain(p)
  {
    hide Plain, Numbered, ManyPaths;
    forall i | 0 <= i < 1200
      ensures Plain(ManyPaths(1200)[i])
    {
      NumberedIsPlain(i);
    }
  }

  lemma SensitiveIsNotVetted()
    ensures !Vetted(E_IS_SENSITIVE, DirTree(), "d/e")
  {
  }

  /** If `add` stages just what was requested, the commit is the old tree - or the old index,
      if the `reset` failed - with the vetted content of every requested path, and of no
      other, put in, whatever the listing says. */
  lemma CommitIsExact(r: Rules, g: Git, q: Request, a: Answers)
    requires Commit(r, g, q, a).1.Committed? && a.added == set p | p in q.requested
    ensures Commit(r, g, q, a).0.head == Take(if a.cleared then g.head else g.index, g.work, a.added)
  {
    hide CleanAll, Take, Listed, Vetted, Prepared;
    var after := Commit(r, g, q, a).0;
    var base := if a.cleared then g.head else g.index;
    var want := Take(base, g.work, a.added);
    CommitListsRequested(r, g, q, a);
    forall p: string
      ensures Get(after.head, p) == Get(want, p)
    {
      StagedMeaning(r, g, q, a, p);
      TakeGet(base, g.work, a.added, p);
    }
    SameGets(after.head, want);
  }

  lemma SameGets(a: Tree, b: Tree)
    requires forall p: string :: Get(a, p) == Get(b, p)
    ensures a == b
  {
    assert forall p :: p in a ==> Get(a, p) == Some(a[p]) == Get(b, p);
    assert forall p :: p in b ==> Get(b, p) == Some(b[p]) == Get(a, p);
  }

  /** A refusal leaves HEAD as it was, and one before the cleanup leaves git alone; a cleanup
      that raises - exactly when a listed generated file does - leaves the index. One by the
      path, diff or precheck test leaves nothing staged exactly when its `reset` works or
      nothing was staged; one for an empty listing exactly when nothing was staged. */
  lemma RefusalIsClean(r: Rules, g: Git, q: Request, a: Answers)
    ensures var (after, outcome) := Commit(r, g, q, a);
            var staged := Diff(g.head, Staged(r, g, q, a).index);
            && (!outcome.Committed? ==> after.head == g.head)
            && (outcome.BadRequest? || outcome.Vetoed? ==> after == g)
            && (outcome.CleanupRaised? ==> after.index == g.index)
            && (outcome.CleanupRaised? <==>
                  && q.cleanup && q.message != [] && q.requested != []
                  && FirstVetoed(r, g.work, q.requested).None? && !Reached(r, a.changed, |a.changed|))
            && (outcome.Unexpected? || outcome.DiffCheckFailed? || outcome.PrecheckFailed? ==>
                  (after.index == after.head <==> a.undone || staged == {}))
            && (outcome.NothingStaged? ==> (after.index == after.head <==> staged == {}))
  {
    hide CleanAll, Take, Diff, FirstVetoed, Listed, Prepared, Staged, Names, Finish;
    StagedMeaning(r, g, q, a, "");
    PreparedKeeps(r, g, q, a);
    CleanAllMeaning(r, g, a.changed, "");
    hide Reached;
    NoDiff(g.head, Staged(r, g, q, a).index);
    FinishRefuses(Staged(r, g, q, a), q, a);
  }

  lemma FinishRefuses(s: Git, q: Request, a: Answers)
    ensures var (after, outcome) := Finish(s, q, a);
            && !outcome.BadRequest? && !outcome.Vetoed? && !outcome.CleanupRaised? && !outcome.AddFailed?
            && (!outcome.Committed? ==> after.head == s.head)
            && (outcome.Unexpected? || outcome.DiffCheckFailed? || outcome.PrecheckFailed? ==>
                  after.index == if a.undone then s.head else s.index)
            && (outcome.NothingStaged? || outcome.CommitFailed? ==> after.index == s.index)
  {
    hide Names, Listed;
  }

  lemma NoDiff(a: Tree, b: Tree)
    ensures Diff(a, b) == {} <==> a == b
  {
    if Diff(a, b) == {} {
      forall p: string
        ensures Get(a, p) == Get(b, p)
      {
        assert p !in Diff(a, b);
      }
      SameGets(a, b);
    }
  }

  /** The listing that fails is taken for an empty one: "nothing staged" is answered, and
      the requested path stays staged. */
  lemma FailedListingLeavesStaged()
    ensures var g := Git(map[], map[], map["f" := "text"]);
            var q := Request("m", ["f"], false, false);
            var a := Answers([], true, true, {"f"}, "", true, true, true, map[], true);
            var (after, outcome) := Commit(OPEN_RULES, g, q, a);
            outcome == NothingStaged && Diff(after.head, after.index) == {"f"}
  {
    var g := Git(map[], map[], map["f" := "text"]);
    var q := Request("m", ["f"], false, false);
    var a := Answers([], true, true, {"f"}, "", true, true, true, map[], true);
    assert Listed("") == [];
    assert FirstVetoed(OPEN_RULES, g.work, q.requested).None?;
    assert Staged(OPEN_RULES, g, q, a).index == map["f" := "text"];
  }

  /** No `reset` follows a failing `add` or `commit`. After the first the index holds what
      `add` has staged by then, nothing exactly when that is as in HEAD; after the second
      it holds listed paths, all of them requested, and an unrequested one exactly when
      the listing hid it. */
  lemma FailureLeavesStaged(r: Rules, g: Git, q: Request, a: Answers)
    ensures var (after, outcome) := Commit(r, g, q, a);
            var left := Diff(after.head, after.index);
            && (outcome.AddFailed? || outcome.CommitFailed? ==>
                  && after.head == g.head
                  && after.index == Take(if a.cleared then g.head else g.index, Prepared(r, g, q, a).work, a.added))
            && (outcome.AddFailed? && a.cleared ==> left == Diff(g.head, Prepared(r, g, q, a).work) * a.added)
            && (outcome.AddFailed? ==> (after.index == after.head <==> left == {}))
            && (outcome.CommitFailed? ==>
                  (left <= Names(q.requested) <==> left - Names(Listed(a.printed)) <= Names(q.requested)))
            && (outcome.CommitFailed? && Shown(g.head, after.index, a.printed) ==>
                  left != {} && left <= Names(q.requested))
  {
    hide CleanAll, Take, FirstVetoed, Listed, Prepared, Shown, Finish, Names, Diff;
    var (after, outcome) := Commit(r, g, q, a);
    var ready := Prepared(r, g, q, a);
    var left := Diff(after.head, after.index);
    StagedMeaning(r, g, q, a, "");
    PreparedKeeps(r, g, q, a);
    FinishRefuses(Staged(r, g, q, a), q, a);
    if outcome.AddFailed? && a.cleared {
      forall p: string
        ensures p in left <==> p in Diff(g.head, ready.work) * a.added
      {
        StagedMeaning(r, g, q, a, p);
        InDiff(after.head, after.index, p);
        InDiff(g.head, ready.work, p);
      }
      assert left == Diff(g.head, ready.work) * a.added;
    }
    NoDiff(after.head, after.index);
    if outcome.CommitFailed? { StagedStaysListed(r, g, q, a); }
  }

  lemma PreparedKeeps(r: Rules, g: Git, q: Request, a: Answers)
    ensures Prepared(r, g, q, a).head == g.head && Prepared(r, g, q, a).index == g.index
  {
    if q.cleanup { CleanAllMeaning(r, g, a.changed, ""); }
  }

  lemma InDiff(a: Tree, b: Tree, p: string)
    ensures p in Diff(a, b) <==> Get(a, p) != Get(b, p)
  {
  }

  lemma StagedStaysListed(r: Rules, g: Git, q: Request, a: Answers)
    requires Commit(r, g, q, a).1.CommitFailed?
    ensures var after := Commit(r, g, q, a).0;
            var left := Diff(after.head, after.index);
            && (left <= Names(q.requested) <==> left - Names(Listed(a.printed)) <= Names(q.requested))
            && (Shown(g.head, after.index, a.printed) ==> left != {} && left <= Names(q.requested))
  {
    hide CleanAll, Take, FirstVetoed, Listed, Prepared, Shown, Diff;
    var after := Commit(r, g, q, a).0;
    var left, staged := Diff(after.head, after.index), Names(Listed(a.printed));
    StagedMeaning(r, g, q, a, "");
    assert staged - Names(q.requested) == {} && staged != {};
    assert staged <= Names(q.requested) by {
      forall p | p in staged
        ensures p in Names(q.requested)
      {
        assert p !in staged - Names(q.requested);
      }
    }
    if Shown(g.head, after.index, a.printed) { ShownIsListed(g.head, after.index, a.printed); }
  }

  // ---------------------------------------------------------------- when a commit is refused

  /** The tests of one requested path, and below of a whole request, put down apart from the
      functions that make them: none of the three patterns, and no secret in the file. */
  predicate Clean(r: Rules, work: Tree, p: string)
  {
    !(r.unsafe(p) || r.sensitive(p) || r.generated(p) || (p in work.Keys && r.holdsSecret(work[p])))
  }

  /** The request has a message and paths, all of them clean. */
  predicate WellAsked(r: Rules, work: Tree, q: Request)
  {
    |q.message| > 0 && |q.requested| > 0 && forall i :: 0 <= i < |q.requested| ==> Clean(r, work, q.requested[i])
  }

  /** No listed generated path raises while it is cleaned, if that is asked for. */
  predicate CleansUp(r: Rules, q: Request, a: Answers)
  {
    q.cleanup ==> forall i :: 0 <= i < |a.changed| ==>
      !(r.generated(a.changed[i].path) && a.changed[i].cleaning == Raises)
  }

  /** The program sees something staged, and nothing that was not requested. */
  predicate ListsJustRequested(q: Request, a: Answers)
  {
    Listed(a.printed) != [] && forall i :: 0 <= i < |Listed(a.printed)| ==> Listed(a.printed)[i] in q.requested
  }

  lemma {:induction false} FirstVetoedMeaning(r: Rules, work: Tree, paths: seq<string>)
    ensures var first := FirstVetoed(r, work, paths);
            && (first.None? <==> forall i :: 0 <= i < |paths| ==> Clean(r, work, paths[i]))
            && (first.Some? ==> exists i ::
                  && 0 <= i < |paths| && paths[i] == first.value && !Clean(r, work, paths[i])
                  && forall j :: 0 <= j < i ==> Clean(r, work, paths[j]))
    decreases |paths|
  {
    if paths != [] && Clean(r, work, paths[0]) {
      FirstVetoedMeaning(r, work, paths[1..]);
      var first := FirstVetoed(r, work, paths[1..]);
      if first.Some? {
        var i :| 0 <= i < |paths[1..]| && paths[1..][i] == first.value
          && !Clean(r, work, paths[1..][i]) && forall j :: 0 <= j < i ==> Clean(r, work, paths[1..][j]);
        assert paths[i + 1] == paths[1..][i];
        forall j | 0 <= j < i + 1
          ensures Clean(r, work, paths[j])
        {
          if j > 0 { assert paths[j] == paths[1..][j - 1]; }
        }
      } else {
        forall j | 0 <= j < |paths|
          ensures Clean(r, work, paths[j])
        {
          if j > 0 { assert paths[j] == paths[1..][j - 1]; }
        }
      }
    }
  }

  /** Main result: when the request ends with which answer in front of the listing. */
  lemma RequestDecides(r: Rules, g: Git, q: Request, a: Answers)
    ensures var outcome := Commit(r, g, q, a).1;
            && (outcome.BadRequest? <==> |q.message| == 0 || |q.requested| == 0)
            && (outcome.Vetoed? <==>
                  && |q.message| > 0 && |q.requested| > 0
                  && exists i :: 0 <= i < |q.requested| && !Clean(r, g.work, q.requested[i]))
            && (outcome.Vetoed? ==> exists i ::
                  && 0 <= i < |q.requested| && q.requested[i] == outcome.path && !Clean(r, g.work, outcome.path)
                  && forall j :: 0 <= j < i ==> Clean(r, g.work, q.requested[j]))
            && (outcome.CleanupRaised? <==> WellAsked(r, g.work, q) && !CleansUp(r, q, a))
            && (outcome.AddFailed? <==> WellAsked(r, g.work, q) && CleansUp(r, q, a) && !a.addOk)
  {
    hide Finish, Staged, Listed, CleanAll, FirstVetoed, Clean, Prepared;
    FirstVetoedMeaning(r, g.work, q.requested);
    CleanAllMeaning(r, g, a.changed, "");
    FinishRefuses(Staged(r, g, q, a), q, a);
  }

  /** Main result: when it ends with which answer from the listing on. A commit is made
      exactly when every test passes, and lists what the program has seen. */
  lemma CommitDecides(r: Rules, g: Git, q: Request, a: Answers)
    ensures var outcome := Commit(r, g, q, a).1;
            var adds := WellAsked(r, g.work, q) && CleansUp(r, q, a) && a.addOk;
            var listed := Listed(a.printed);
            && (outcome.Unexpected? <==> adds && exists i :: 0 <= i < |listed| && listed[i] !in q.requested)
            && (outcome.Unexpected? ==> forall p :: p in outcome.extra <==> p in listed && p !in q.requested)
            && (outcome.NothingStaged? <==> adds && listed == [])
            && (outcome.DiffCheckFailed? <==> adds && ListsJustRequested(q, a) && !a.diffOk)
            && (outcome.PrecheckFailed? <==>
                  adds && ListsJustRequested(q, a) && a.diffOk && q.checks && !a.precheckOk)
            && (outcome.CommitFailed? <==>
                  adds && ListsJustRequested(q, a) && a.diffOk && (q.checks ==> a.precheckOk) && !a.commitOk)
            && (outcome.Committed? <==>
                  adds && ListsJustRequested(q, a) && a.diffOk && (q.checks ==> a.precheckOk) && a.commitOk)
            && (outcome.Committed? ==> forall p :: p in outcome.staged <==> p in listed)
  {
    hide Finish, Staged, Listed, CleanAll, FirstVetoed, Clean, Prepared, ListsJustRequested;
    FirstVetoedMeaning(r, g.work, q.requested);
    CleanAllMeaning(r, g, a.changed, "");
    FinishDecides(Staged(r, g, q, a), q, a);
  }

  lemma FinishDecides(s: Git, q: Request, a: Answers)
    ensures var outcome := Finish(s, q, a).1;
            var listed := Listed(a.printed);
            && !outcome.BadRequest? && !outcome.Vetoed? && !outcome.CleanupRaised? && !outcome.AddFailed?
            && (outcome.Unexpected? <==> exists i :: 0 <= i < |listed| && listed[i] !in q.requested)
            && (outcome.Unexpected? ==> forall p :: p in outcome.extra <==> p in listed && p !in q.requested)
            && (outcome.NothingStaged? <==> listed == [])
            && (outcome.DiffCheckFailed? <==> ListsJustRequested(q, a) && !a.diffOk)
            && (outcome.PrecheckFailed? <==> ListsJustRequested(q, a) && a.diffOk && q.checks && !a.precheckOk)
            && (outcome.CommitFailed? <==>
                  ListsJustRequested(q, a) && a.diffOk && (q.checks ==> a.precheckOk) && !a.commitOk)
            && (outcome.Committed? <==>
                  ListsJustRequested(q, a) && a.diffOk && (q.checks ==> a.precheckOk) && a.commitOk)
            && (outcome.Committed? ==> forall p :: p in outcome.staged <==> p in listed)
  {
    hide Listed;
    var listed := Listed(a.printed);
    var staged := Names(listed);
    var extra := staged - Names(q.requested);
    if listed != [] { assert listed[0] in staged; }
    if extra != {} {
      var p :| p in extra;
      var i :| 0 <= i < |listed| && listed[i] == p;
      assert listed[i] !in q.requested;
    } else {
      forall i | 0 <= i < |listed|
        ensures listed[i] in q.requested
      {
        assert listed[i] !in extra;
      }
    }
  }

  /** What the request leaves of the working tree: the prechecks' one once they have run,
      else the old one up to what the cleanup restored. */
  lemma WorkDecides(r: Rules, g: Git, q: Request, a: Answers, p: string)
    ensures var (after, outcome) := Commit(r, g, q, a);
            var checked := q.checks && (outcome.PrecheckFailed? || outcome.CommitFailed? || outcome.Committed?);
            && (checked ==> after.work == a.workAfter)
            && (!checked && !outcome.BadRequest? && !outcome.Vetoed? && q.cleanup ==>
                  Get(after.work, p) == if Cleaned(r, a.changed, p) then Get(g.index, p) else Get(g.work, p))
            && (!checked && (!q.cleanup || outcome.BadRequest? || outcome.Vetoed?) ==> after.work == g.work)
  {
    hide Listed, CleanAll, FirstVetoed, Take, Names, Finish, Cleaned, Reached;
    CleanAllMeaning(r, g, a.changed, p);
    FinishWork(Staged(r, g, q, a), q, a);
  }

  lemma FinishWork(s: Git, q: Request, a: Answers)
    ensures var (after, outcome) := Finish(s, q, a);
            && !outcome.BadRequest? && !outcome.Vetoed?
            && after.work ==
               if q.checks && (outcome.PrecheckFailed? || outcome.CommitFailed? || outcome.Committed?) then a.workAfter
               else s.work
  {
    hide Listed, Names;
  }

  // ---------------------------------------------------------------- hunks

  function Glue(parts: seq<string>): string
  {
    if parts == [] then [] else parts[0] + Glue(parts[1..])
  }

  lemma {:induction false} GlueLines(s: string)
    ensures Glue(SplitLines(s)) == s
    decreases |s|
  {
    if s != [] {
      var rest := s[LineLength(s)..];
      GlueLines(rest);
      assert SplitLines(s)[1..] == SplitLines(rest);
    }
  }

  lemma {:induction false} GlueAppend(a: seq<string>, b: seq<string>)
    ensures Glue(a + b) == Glue(a) + Glue(b)
    decreases |a|
  {
    if a == [] {
      assert a + b == b;
    } else {
      assert (a + b)[1..] == a[1..] + b;
      GlueAppend(a[1..], b);
    }
  }

  predicate OpensHunk(line: string)
  {
    "@@" <= line
  }

  /** Lines of a hunk: the first opens it, no other line would open one. */
  ghost predicate IsHunk(lines: seq<string>)
  {
    lines != [] && OpensHunk(lines[0]) && forall i :: 1 <= i < |lines| ==> !OpensHunk(lines[i])
  }

  ghost predicate NoHunk(lines: seq<string>)
  {
    forall i :: 0 <= i < |lines| ==> !OpensHunk(lines[i])
  }

  function Flatten(groups: seq<seq<string>>): seq<string>
  {
    if groups == [] then [] else groups[0] + Flatten(groups[1..])
  }

  lemma {:induction false} FlattenLast(groups: seq<seq<string>>, last: seq<string>)
    ensures Flatten(groups + [last]) == Flatten(groups) + last
    decreases |groups|
  {
    if groups == [] {
      assert groups + [last] == [last] && [last][1..] == [];
    } else {
      assert (groups + [last])[1..] == groups[1..] + [last];
      FlattenLast(groups[1..], last);
    }
  }

  /** The lines in front of the first that opens a hunk. */
  function HeadOf(lines: seq<string>): (head: seq<string>)
    ensures NoHunk(head) && head <= lines
  {
    if lines == [] || OpensHunk(lines[0]) then [] else [lines[0]] + HeadOf(lines[1..])
  }

  function GroupsOf(lines: seq<string>): seq<seq<string>>
  {
    if lines == [] then []
    else (if OpensHunk(lines[0]) then [[lines[0]] + HeadOf(lines[1..])] else []) + GroupsOf(lines[1..])
  }

  lemma {:induction false} CutAtHunks(lines: seq<string>)
    ensures HeadOf(lines) + Flatten(GroupsOf(lines)) == lines
    ensures forall h :: h in GroupsOf(lines) ==> IsHunk(h)
    decreases |lines|
  {
    hide HeadOf, GroupsOf, IsHunk, Flatten, OpensHunk;
    if lines == [] {
      CutNothing();
    } else {
      var line, rest := lines[0], lines[1..];
      CutFirst(line, rest);
      assert lines == [line] + rest;
      CutAtHunks(rest);
      if OpensHunk(line) { FlattenFirst([line] + HeadOf(rest), GroupsOf(rest)); }
    }
  }

  lemma CutNothing()
    ensures HeadOf([]) == [] && GroupsOf([]) == [] && Flatten([]) == []
  {
  }

  lemma CutFirst(line: string, rest: seq<string>)
    ensures var lines := [line] + rest;
            if OpensHunk(line) then
              && HeadOf(lines) == [] && GroupsOf(lines) == [[line] + HeadOf(rest)] + GroupsOf(rest)
              && IsHunk([line] + HeadOf(rest))
            else HeadOf(lines) == [line] + HeadOf(rest) && GroupsOf(lines) == GroupsOf(rest)
  {
    var lines := [line] + rest;
    assert lines[1..] == rest;
    assert forall i :: 1 <= i <= |HeadOf(rest)| ==> ([line] + HeadOf(rest))[i] == HeadOf(rest)[i - 1];
  }

  lemma FlattenFirst(group: seq<string>, groups: seq<seq<string>>)
    ensures Flatten([group] + groups) == group + Flatten(groups)
  {
    assert ([group] + groups)[1..] == groups;
  }

  lemma StartHunk(hunks: seq<seq<string>>, line: string)
    requires OpensHunk(line) && forall h :: h in hunks ==> IsHunk(h)
    ensures var more := hunks + [[line]];
            Flatten(more) == Flatten(hunks) + [line] && forall h :: h in more ==> IsHunk(h)
  {
    FlattenLast(hunks, [line]);
    hide Flatten;
  }

  lemma ExtendHunk(hunks: seq<seq<string>>, line: string)
    requires hunks != [] && !OpensHunk(line) && forall h :: h in hunks ==> IsHunk(h)
    ensures var n := |hunks| - 1;
            var more := hunks[..n] + [hunks[n] + [line]];
            Flatten(more) == Flatten(hunks) + [line] && forall h :: h in more ==> IsHunk(h)
  {
    hide Flatten, OpensHunk;
    var n := |hunks| - 1;
    var last := hunks[n];
    FlattenLast(hunks[..n], last);
    FlattenLast(hunks[..n], last + [line]);
    assert hunks == hunks[..n] + [last];
    assert IsHunk(last + [line]) by { assert last in hunks; }
  }

  /** The loop of `split_hunks`, on lines: they come out again in the same order, in a head
      without hunk and groups that are one hunk each. */
  method GroupLines(lines: seq<string>) returns (head: seq<string>, hunks: seq<seq<string>>)
    ensures head + Flatten(hunks) == lines
    ensures NoHunk(head) && forall h :: h in hunks ==> IsHunk(h)
  {
    head, hunks := [], [];
    assert Flatten(hunks) == [];
    hide Flatten, OpensHunk, IsHunk;
    var i := 0;
    while i < |lines|
      invariant 0 <= i <= |lines|
      invariant head + Flatten(hunks) == lines[..i]
      invariant NoHunk(head) && forall h :: h in hunks ==> IsHunk(h)
    {
      var line := lines[i];
      assert lines[..i + 1] == lines[..i] + [line];
      if OpensHunk(line) {
        StartHunk(hunks, line);
        hunks := hunks + [[line]];
      } else if hunks == [] {
        head := head + [line];
      } else {
        var n := |hunks| - 1;
        ExtendHunk(hunks, line);
        hunks := hunks[..n] + [hunks[n] + [line]];
      }
      i := i + 1;
    }
    assert lines[..i] == lines;
  }

  /** A grouping is determined by the lines alone. */
  lemma {:induction false} GroupingIsUnique(head: seq<string>, hunks: seq<seq<string>>,
                                            head': seq<string>, hunks': seq<seq<string>>)
    requires NoHunk(head) && forall h :: h in hunks ==> IsHunk(h)
    requires NoHunk(head') && forall h :: h in hunks' ==> IsHunk(h)
    requires head + Flatten(hunks) == head' + Flatten(hunks')
    ensures head == head' && hunks == hunks'
    decreases |hunks| + |hunks'|
  {
    SameHead(head, Flatten(hunks), head', Flatten(hunks'), hunks, hunks');
    if hunks != [] && hunks' != [] {
      var h, h' := hunks[0], hunks'[0];
      assert h in hunks && h' in hunks';
      assert Flatten(hunks) == h + Flatten(hunks[1..]) && Flatten(hunks') == h' + Flatten(hunks'[1..]);
      assert h[0] == Flatten(hunks)[0] == h'[0];
      assert Flatten(hunks)[1..] == h[1..] + Flatten(hunks[1..]);
      assert Flatten(hunks')[1..] == h'[1..] + Flatten(hunks'[1..]);
      GroupingIsUnique(h[1..], hunks[1..], h'[1..], hunks'[1..]);
      assert h == [h[0]] + h[1..] && h' == [h'[0]] + h'[1..];
      assert hunks == [h] + hunks[1..] && hunks' == [h'] + hunks'[1..];
    }
  }

  lemma SameHead(a: seq<string>, b: seq<string>, a': seq<string>, b': seq<string>,
                 hunks: seq<seq<string>>, hunks': seq<seq<string>>)
    requires NoHunk(a) && NoHunk(a') && a + b == a' + b'
    requires b == Flatten(hunks) && b' == Flatten(hunks')
    requires (forall h :: h in hunks ==> IsHunk(h)) && (forall h :: h in hunks' ==> IsHunk(h))
    ensures a == a' && b == b' && (hunks == [] <==> hunks' == [])
  {
    FirstOpens(hunks);
    FirstOpens(hunks');
    var all := a + b;
    assert b != [] ==> all[|a|] == b[0];
    assert b' != [] ==> all[|a'|] == b'[0];
    assert |a| == |a'|;
    assert a == all[..|a|] == a' && b == all[|a|..] == b';
  }

  lemma FirstOpens(hunks: seq<seq<string>>)
    requires forall h :: h in hunks ==> IsHunk(h)
    ensures Flatten(hunks) == [] <==> hunks == []
    ensures hunks != [] ==> OpensHunk(Flatten(hunks)[0])
  {
    if hunks != [] { assert hunks[0] in hunks; }
  }

  function GlueAll(groups: seq<seq<string>>): seq<string>
  {
    if groups == [] then [] else [Glue(groups[0])] + GlueAll(groups[1..])
  }

  lemma {:induction false} GlueAllFlat(groups: seq<seq<string>>)
    ensures Glue(GlueAll(groups)) == Glue(Flatten(groups)) && |GlueAll(groups)| == |groups|
    decreases |groups|
  {
    if groups != [] {
      GlueAllFlat(groups[1..]);
      GlueAppend(groups[0], Flatten(groups[1..]));
      assert GlueAll(groups)[1..] == GlueAll(groups[1..]);
    }
  }

  /** `header` and `hunks` are the text cut in front of every line that opens a hunk. */
  ghost predicate IsHunkSplit(diff: string, header: string, hunks: seq<string>)
  {
    exists head: seq<string>, groups: seq<seq<string>> ::
      && head + Flatten(groups) == SplitLines(diff)
      && NoHunk(head) && (forall h :: h in groups ==> IsHunk(h))
      && header == Glue(head) && hunks == GlueAll(groups)
  }

  /** Header and hunks give back the diff. */
  lemma SplitGivesBack(diff: string, header: string, hunks: seq<string>)
    requires IsHunkSplit(diff, header, hunks)
    ensures header + Glue(hunks) == diff
  {
    var head, groups :| head + Flatten(groups) == SplitLines(diff)
      && NoHunk(head) && (forall h :: h in groups ==> IsHunk(h))
      && header == Glue(head) && hunks == GlueAll(groups);
    GlueAllFlat(groups);
    GlueAppend(head, Flatten(groups));
    GlueLines(diff);
  }

  lemma SplitIsUnique(diff: string, header: string, hunks: seq<string>, header': string, hunks': seq<string>)
    requires IsHunkSplit(diff, header, hunks) && IsHunkSplit(diff, header', hunks')
    ensures header == header' && hunks == hunks'
  {
    var head, groups :| head + Flatten(groups) == SplitLines(diff)
      && NoHunk(head) && (forall h :: h in groups ==> IsHunk(h))
      && header == Glue(head) && hunks == GlueAll(groups);
    var head', groups' :| head' + Flatten(groups') == SplitLines(diff)
      && NoHunk(head') && (forall h :: h in groups' ==> IsHunk(h))
      && header' == Glue(head') && hunks' == GlueAll(groups');
    GroupingIsUnique(head, groups, head', groups');
  }

  function Header(diff: string): string
  {
    Glue(HeadOf(SplitLines(diff)))
  }

  function Hunks(diff: string): seq<string>
  {
    GlueAll(GroupsOf(SplitLines(diff)))
  }

  lemma HunksAreSplit(diff: string)
    ensures IsHunkSplit(diff, Header(diff), Hunks(diff))
  {
    CutAtHunks(SplitLines(diff));
  }

  method SplitHunks(diff: string) returns (header: string, hunks: seq<string>)
    ensures IsHunkSplit(diff, header, hunks)
    ensures header + Glue(hunks) == diff
    ensures header == Header(diff) && hunks == Hunks(diff)
  {
    hide Glue, GlueAll, Flatten, SplitLines, HeadOf, GroupsOf;
    var head, groups := GroupLines(SplitLines(diff));
    header, hunks := Glue(head), GlueAll(groups);
    SplitGivesBack(diff, header, hunks);
    HunksAreSplit(diff);
    SplitIsUnique(diff, header, hunks, Header(diff), Hunks(diff));
  }

  // ---------------------------------------------------------------- committing hunks

  datatype HunkOutcome =
    | HunkVetoed
    | EmptyMessage
    | NoHunks
    | NoSuchHunk(index: int)
    | PatchHoldsSecret
    | ApplyFailed
    | UnexpectedStaged(staged: seq<string>)
    | HunkCommitFailed
    | HunksCommitted(patch: string)

  datatype HunkRequest = HunkRequest(path: string, indexes: seq<int>, message: string)

  /** The diff of the path as the program gets it (its last 300,000 characters), the scan of
      added lines, whether the first `reset` works, the index that `apply` makes of an index
      and a patch (None if it does not apply), what `diff` prints of the staged paths,
      whether a later `reset` works, and whether `commit` succeeds. */
  datatype HunkAnswers = HunkAnswers(
    diff: string,
    holdsSecret: string -> bool,
    cleared: bool,
    patched: (Tree, string) -> Option<Tree>,
    printed: string,
    undone: bool,
    commitOk: bool)

  predicate InRange(indexes: seq<int>, count: nat)
  {
    forall i :: 0 <= i < |indexes| ==> 0 <= indexes[i] < count
  }

  function Chosen(hunks: seq<string>, indexes: seq<int>): seq<string>
    requires InRange(indexes, |hunks|)
  {
    if indexes == [] then [] else [hunks[indexes[0]]] + Chosen(hunks, indexes[1..])
  }

  /** All hunks chosen in order make the whole diff. */
  lemma {:induction false} ChooseAll(hunks: seq<string>, n: nat)
    requires n <= |hunks|
    ensures var indexes := seq(|hunks| - n, i requires 0 <= i < |hunks| - n => n + i);
            Chosen(hunks, indexes) == hunks[n..]
    decreases |hunks| - n
  {
    if n < |hunks| {
      ChooseAll(hunks, n + 1);
      var indexes := seq(|hunks| - n, i requires 0 <= i < |hunks| - n => n + i);
      var rest := seq(|hunks| - (n + 1), i requires 0 <= i < |hunks| - (n + 1) => n + 1 + i);
      assert indexes[1..] == rest;
      assert hunks[n..] == [hunks[n]] + hunks[n + 1..];
    }
  }

  function FirstBad(indexes: seq<int>, count: nat): (bad: Option<int>)
    ensures bad.None? <==> InRange(indexes, count)
    ensures bad.Some? ==> bad.value in indexes && !(0 <= bad.value < count)
  {
    if indexes == [] then None
    else if !(0 <= indexes[0] < count) then Some(indexes[0])
    else
      var bad := FirstBad(indexes[1..], count);
      assert bad.None? ==> forall i :: 1 <= i < |indexes| ==> indexes[i] == indexes[1..][i - 1];
      assert bad.Some? ==> exists i :: 0 <= i < |indexes[1..]| && indexes[i + 1] == indexes[1..][i] == bad.value;
      bad
  }

  lemma {:induction false} ChosenLast(hunks: seq<string>, indexes: seq<int>, last: int)
    requires InRange(indexes, |hunks|) && 0 <= last < |hunks|
    ensures Chosen(hunks, indexes + [last]) == Chosen(hunks, indexes) + [hunks[last]]
    decreases |indexes|
  {
    if indexes == [] {
      assert indexes + [last] == [last] && [last][1..] == [];
    } else {
      assert (indexes + [last])[1..] == indexes[1..] + [last];
      ChosenLast(hunks, indexes[1..], last);
    }
  }

  lemma {:induction false} BadAfter(good: seq<int>, rest: seq<int>, count: nat)
    requires InRange(good, count)
    ensures FirstBad(good + rest, count) == FirstBad(rest, count)
    decreases |good|
  {
    if good == [] {
      assert good + rest == rest;
    } else {
      assert (good + rest)[1..] == good[1..] + rest;
      BadAfter(good[1..], rest, count);
    }
  }

  /** The loop over the requested indexes: the chosen hunks in the requested order, or the
      first index without hunk. */
  method SelectHunks(hunks: seq<string>, indexes: seq<int>) returns (selected: seq<string>, bad: Option<int>)
    ensures bad == FirstBad(indexes, |hunks|)
    ensures bad.None? ==> selected == Chosen(hunks, indexes)
  {
    selected, bad := [], None;
    var i := 0;
    while i < |indexes|
      invariant 0 <= i <= |indexes| && bad.None?
      invariant InRange(indexes[..i], |hunks|)
      invariant selected == Chosen(hunks, indexes[..i])
    {
      var index := indexes[i];
      assert indexes == indexes[..i] + indexes[i..];
      if index < 0 || index >= |hunks| {
        BadAfter(indexes[..i], indexes[i..], |hunks|);
        return selected, Some(index);
      }
      ChosenLast(hunks, indexes[..i], index);
      assert indexes[..i + 1] == indexes[..i] + [index];
      selected := selected + [hunks[index]];
      i := i + 1;
    }
    assert indexes[..i] == indexes;
  }

  function WithNewline(patch: string): string
  {
    if patch != [] && patch[|patch| - 1] == '\n' then patch else patch + "\n"
  }

  function Patch(q: HunkRequest, diff: string): string
    requires InRange(q.indexes, |Hunks(diff)|)
  {
    Header(diff) + Glue(Chosen(Hunks(diff), q.indexes))
  }

  function CommitPatch(g: Git, q: HunkRequest, a: HunkAnswers, patch: string): (Git, HunkOutcome)
  {
    var ready := Reset(g, a.cleared);
    match a.patched(ready.index, WithNewline(patch))
    case None => (ready, ApplyFailed)
    case Some(index) =>
      var s := ready.(index := index);
      var staged := Listed(a.printed);
      if staged != [q.path] then (Reset(s, a.undone), UnexpectedStaged(staged))
      else if !a.commitOk then (s, HunkCommitFailed)
      else (s.(head := index), HunksCommitted(patch))
  }

  function CommitChosen(r: Rules, g: Git, q: HunkRequest, a: HunkAnswers): (Git, HunkOutcome)
  {
    if r.unsafe(q.path) || r.sensitive(q.path) || r.generated(q.path) then (g, HunkVetoed)
    else if q.message == [] then (g, EmptyMessage)
    else if Hunks(a.diff) == [] then (g, NoHunks)
    else
      match FirstBad(q.indexes, |Hunks(a.diff)|)
      case Some(i) => (g, NoSuchHunk(i))
      case None =>
        var patch := Patch(q, a.diff);
        if a.holdsSecret(patch) then (g, PatchHoldsSecret) else CommitPatch(g, q, a, patch)
  }

  /** Main result: a commit takes the index that the header and the chosen hunks, in the
      requested order, make of HEAD, for a path that passes the tests; it changes that path
      and no other exactly when the one listed path is all that differs. */
  lemma HunkCommitIsExact(r: Rules, g: Git, q: HunkRequest, a: HunkAnswers)
    requires CommitChosen(r, g, q, a).1.HunksCommitted?
    ensures var (after, outcome) := CommitChosen(r, g, q, a);
            && !r.unsafe(q.path) && !r.sensitive(q.path) && !r.generated(q.path) && q.message != []
            && InRange(q.indexes, |Hunks(a.diff)|) && Hunks(a.diff) != []
            && outcome.patch == Header(a.diff) + Glue(Chosen(Hunks(a.diff), q.indexes)) && !a.holdsSecret(outcome.patch)
            && a.patched(if a.cleared then g.head else g.index, WithNewline(outcome.patch)) == Some(after.head)
            && after.index == after.head && after.work == g.work
            && (Diff(g.head, after.head) == {q.path} <==> Diff(g.head, after.head) == Names(Listed(a.printed)))
            && (Shown(g.head, after.head, a.printed) ==> Diff(g.head, after.head) == {q.path})
  {
    hide Listed, Shown, Diff, Hunks, Header, Glue, WithNewline;
    var (after, outcome) := CommitChosen(r, g, q, a);
    assert Listed(a.printed) == [q.path];
    assert Names([q.path]) == {q.path};
    if Shown(g.head, after.head, a.printed) { ShownIsListed(g.head, after.head, a.printed); }
  }

  /** The other outcomes leave the working tree and HEAD; what is decided before staging
      leaves the index too, and a patch that does not apply leaves nothing staged exactly
      when the `reset` works or nothing was. */
  lemma HunkRefusals(r: Rules, g: Git, q: HunkRequest, a: HunkAnswers)
    ensures var (after, outcome) := CommitChosen(r, g, q, a);
            && after.work == g.work
            && (!outcome.HunksCommitted? ==> after.head == g.head)
            && (outcome.HunkVetoed? || outcome.EmptyMessage? || outcome.NoHunks? ==> after == g)
            && (outcome.NoSuchHunk? || outcome.PatchHoldsSecret? ==> after == g)
            && (outcome.NoSuchHunk? <==>
                  && !r.unsafe(q.path) && !r.sensitive(q.path) && !r.generated(q.path)
                  && q.message != [] && Hunks(a.diff) != [] && !InRange(q.indexes, |Hunks(a.diff)|))
            && (outcome.ApplyFailed? ==> (after.index == after.head <==> a.cleared || g.index == g.head))
  {
    hide Listed, Hunks, Header, Glue, Patch;
  }

  /** Past the patch: unexpected paths leave it staged exactly when the later `reset` fails,
      and a failing commit, which no `reset` follows, leaves the one path staged if that is
      what the listing shows. */
  lemma HunkFailureLeavesStaged(r: Rules, g: Git, q: HunkRequest, a: HunkAnswers)
    requires var outcome := CommitChosen(r, g, q, a).1; outcome.UnexpectedStaged? || outcome.HunkCommitFailed?
    ensures var (after, outcome) := CommitChosen(r, g, q, a);
            && InRange(q.indexes, |Hunks(a.diff)|)
            && var applied := a.patched(if a.cleared then g.head else g.index, WithNewline(Patch(q, a.diff)));
            && applied.Some?
            && after.index == (if outcome.UnexpectedStaged? && a.undone then g.head else applied.value)
            && (outcome.HunkCommitFailed? && Shown(g.head, after.index, a.printed) ==>
                  Diff(after.head, after.index) == {q.path})
  {
    hide Listed, Shown, Diff, Hunks, Header, Glue, Patch;
    var (after, outcome) := CommitChosen(r, g, q, a);
    if outcome.HunkCommitFailed? && Shown(g.head, after.index, a.printed) {
      ShownIsListed(g.head, after.index, a.printed);
      assert Names([q.path]) == {q.path};
    }
  }

  /** Main result: when a request for hunks ends in front of the patch, and that the first
      index without hunk is named. */
  lemma HunkRequestDecides(r: Rules, g: Git, q: HunkRequest, a: HunkAnswers)
    ensures var outcome := CommitChosen(r, g, q, a).1;
            var count := |Hunks(a.diff)|;
            var allowed := !(r.unsafe(q.path) || r.sensitive(q.path) || r.generated(q.path));
            && (outcome.HunkVetoed? <==> !allowed)
            && (outcome.EmptyMessage? <==> allowed && |q.message| == 0)
            && (outcome.NoHunks? <==> allowed && |q.message| > 0 && count == 0)
            && (outcome.NoSuchHunk? <==>
                  && allowed && |q.message| > 0 && count > 0
                  && exists i :: 0 <= i < |q.indexes| && (q.indexes[i] < 0 || count <= q.indexes[i]))
            && (outcome.NoSuchHunk? ==> exists i ::
                  && 0 <= i < |q.indexes| && q.indexes[i] == outcome.index
                  && (outcome.index < 0 || count <= outcome.index)
                  && forall j :: 0 <= j < i ==> 0 <= q.indexes[j] < count)
  {
    hide Listed, Hunks, Patch, FirstBad;
    FirstBadMeaning(q.indexes, |Hunks(a.diff)|);
  }

  lemma {:induction false} FirstBadMeaning(indexes: seq<int>, count: nat)
    ensures var bad := FirstBad(indexes, count);
            && (bad.None? <==> forall i :: 0 <= i < |indexes| ==> 0 <= indexes[i] < count)
            && (bad.Some? ==> exists i ::
                  && 0 <= i < |indexes| && indexes[i] == bad.value && (bad.value < 0 || count <= bad.value)
                  && forall j :: 0 <= j < i ==> 0 <= indexes[j] < count)
    decreases |indexes|
  {
    if indexes != [] && 0 <= indexes[0] < count {
      var rest := indexes[1..];
      FirstBadMeaning(rest, count);
      var bad := FirstBad(rest, count);
      if bad.Some? {
        var i :| 0 <= i < |rest| && rest[i] == bad.value && forall j :: 0 <= j < i ==> 0 <= rest[j] < count;
        assert indexes[i + 1] == rest[i];
        assert forall j :: 1 <= j < i + 1 ==> indexes[j] == rest[j - 1];
      } else {
        assert forall j :: 1 <= j < |indexes| ==> indexes[j] == rest[j - 1];
      }
    }
  }

  lemma {:induction false} ChosenMeaning(hunks: seq<string>, indexes: seq<int>)
    requires InRange(indexes, |hunks|)
    ensures |Chosen(hunks, indexes)| == |indexes|
    ensures forall i :: 0 <= i < |indexes| ==> Chosen(hunks, indexes)[i] == hunks[indexes[i]]
    decreases |indexes|
  {
    if indexes != [] { ChosenMeaning(hunks, indexes[1..]); }
  }

  /** Main result: with `chosen` the hunks asked for, in the order asked for, the patch is the
      header and these, ended by a line break, and every answer has its exact condition. */
  lemma PatchDecides(r: Rules, g: Git, q: HunkRequest, a: HunkAnswers, chosen: seq<string>)
    requires !(r.unsafe(q.path) || r.sensitive(q.path) || r.generated(q.path)) && |q.message| > 0
    requires Hunks(a.diff) != [] && |chosen| == |q.indexes|
    requires forall i :: 0 <= i < |chosen| ==> 0 <= q.indexes[i] < |Hunks(a.diff)|
    requires forall i :: 0 <= i < |chosen| ==> chosen[i] == Hunks(a.diff)[q.indexes[i]]
    ensures var (after, outcome) := CommitChosen(r, g, q, a);
            var patch := Header(a.diff) + Glue(chosen);
            var base := if a.cleared then g.head else g.index;
            var text := if patch != "" && patch[|patch| - 1] == '\n' then patch else patch + "\n";
            var applied, listed := a.patched(base, text), Listed(a.printed);
            && (a.holdsSecret(patch) ==> outcome == PatchHoldsSecret && after == g)
            && (!a.holdsSecret(patch) && applied.None? ==>
                  outcome == ApplyFailed && after == Git(g.head, base, g.work))
            && (!a.holdsSecret(patch) && applied.Some? && listed != [q.path] ==>
                  && outcome == UnexpectedStaged(listed)
                  && after == Git(g.head, if a.undone then g.head else applied.value, g.work))
            && (!a.holdsSecret(patch) && applied.Some? && listed == [q.path] && !a.commitOk ==>
                  outcome == HunkCommitFailed && after == Git(g.head, applied.value, g.work))
            && (!a.holdsSecret(patch) && applied.Some? && listed == [q.path] && a.commitOk ==>
                  outcome == HunksCommitted(patch) && after == Git(applied.value, applied.value, g.work))
  {
    hide Listed, Hunks, Header, Glue, Chosen, FirstBad;
    assert InRange(q.indexes, |Hunks(a.diff)|);
    ChosenMeaning(Hunks(a.diff), q.indexes);
    assert chosen == Chosen(Hunks(a.diff), q.indexes);
  }

  class Repository {
    const rules: Rules
    var head: Tree
    var index: Tree
    var work: Tree

    constructor (rules: Rules, g: Git)
      ensures this.rules == rules && View() == g
    {
      this.rules := rules;
      head, index, work := g.head, g.index, g.work;
    }

    ghost function View(): Git
      reads this
    {
      Git(head, index, work)
    }

    method ResetIndex(ok: bool)
      modifies this`index
      ensures View() == Reset(old(View()), ok)
    {
      if ok { index := head; }
    }

    method CleanupGenerated(changed: seq<Change>) returns (ended: bool)
      modifies this
      ensures (View(), ended) == CleanAll(rules, old(View()), changed)
    {
      var i := 0;
      while i < |changed|
        invariant 0 <= i <= |changed|
        invariant CleanAll(rules, View(), changed[i..]) == CleanAll(rules, old(View()), changed)
      {
        assert changed[i..][0] == changed[i] && changed[i..][1..] == changed[i + 1..];
        var path := changed[i].path;
        if rules.generated(path) {
          match changed[i].cleaning
          case Raises => return false;
          case Fails =>
          case Works =>
            if path in index {
              work := work[path := index[path]];
            } else {
              work := work - {path};
            }
        }
        i := i + 1;
      }
      assert changed[i..] == [];
      return true;
    }

    method GitCommit(q: Request, a: Answers) returns (outcome: Outcome)
      modifies this
      ensures (View(), outcome) == Commit(rules, old(View()), q, a)
    {
      hide CleanAll, Take, Listed;
      if q.message == [] || q.requested == [] { return BadRequest; }
      var vetoed := FirstVetoed(rules, work, q.requested);
      if vetoed.Some? { return Vetoed(vetoed.value); }
      if q.cleanup {
        var ended := CleanupGenerated(a.changed);
        if !ended { return CleanupRaised; }
      }
      ResetIndex(a.cleared);
      index := Take(index, work, a.added);
      if !a.addOk { return AddFailed; }
      var staged := Names(Listed(a.printed));
      var extra := staged - Names(q.requested);
      if extra != {} {
        ResetIndex(a.undone);
        return Unexpected(extra);
      }
      if staged == {} { return NothingStaged; }
      if !a.diffOk {
        ResetIndex(a.undone);
        return DiffCheckFailed;
      }
      if q.checks {
        work := a.workAfter;
        if !a.precheckOk {
          ResetIndex(a.undone);
          return PrecheckFailed;
        }
      }
      if !a.commitOk { return CommitFailed; }
      head := index;
      return Committed(staged);
    }

    method CommitHunks(q: HunkRequest, a: HunkAnswers) returns (outcome: HunkOutcome)
      modifies this
      ensures (View(), outcome) == CommitChosen(rules, old(View()), q, a)
    {
      hide Listed, Hunks, Header, Glue, IsHunkSplit, Chosen;
      if rules.unsafe(q.path) || rules.sensitive(q.path) || rules.generated(q.path) { return HunkVetoed; }
      if q.message == [] { return EmptyMessage; }
      var header, hunks := SplitHunks(a.diff);
      if hunks == [] { return NoHunks; }
      var selected, bad := SelectHunks(hunks, q.indexes);
      if bad.Some? { return NoSuchHunk(bad.value); }
      var patch := header + Glue(selected);
      if a.holdsSecret(patch) { return PatchHoldsSecret; }
      ResetIndex(a.cleared);
      var applied := a.patched(index, WithNewline(patch));
      if applied.None? { return ApplyFailed; }
      index := applied.value;
      var staged := Listed(a.printed);
      if staged != [q.path] {
        ResetIndex(a.undone);
        return UnexpectedStaged(staged);
      }
      if !a.commitOk { return HunkCommitFailed; }
      head := index;
      return HunksCommitted(patch);
    }
  }
}
