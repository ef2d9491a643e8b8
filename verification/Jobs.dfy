/** Background jobs across server restarts: the job table in memory, the processes this
    server has started, and the copy of the table on disk. Requests run on threads without
    a lock, so a refresh is two steps and a signal three, with those of others between. */
module Jobs {
  import opened Text

  datatype State = Running | Finished | Failed | Signaled | Orphaned | FinishedOrphaned

  datatype Job = Job(state: State, exitCode: Option<int>)

  type Table = map<nat, Job>

  datatype Notice = Started(id: nat) | Exited(id: nat, exitCode: int) | WasSignaled(id: nat)

  /** What the file holds: nothing yet, a table, or something that is no table. */
  datatype File = Missing | Holds(table: Table) | Unreadable

  /** How an attempt to write the file ends; a failure is swallowed by the program. */
  datatype Writing = Succeeds | Fails | Tears

  /** What a refresh that has passed its test is about to do: record the exit of a job's
      process, or that the process of an orphan is gone. */
  datatype Verdict = Ends(id: nat, code: int) | Gone(id: nat)

  /** `pending` are the threads between test and conclusion of a refresh; `ids` are the job
      ids handed out so far, by this server and those before it; `codes` are the return codes
      polled so far, which a process object keeps. */
  datatype World = World(jobs: Table, procs: set<nat>, file: File, notices: seq<Notice>, ids: set<nat>,
                         pending: map<nat, Verdict>, codes: map<nat, int>)

  datatype Step =
    | Start(newId: nat, writing: Writing)
    // `exit` is what polling the process gives, `gone` that its pid is known to be dead
    | Test(thread: nat, id: nat, exit: Option<int>, gone: bool)
    | Conclude(thread: nat, writing: Writing)
    | Mark(id: nat, writing: Writing)
    | ServerRestart

  const BOOT := World(map[], {}, Missing, [], {}, map[], map[])

  function Persist(w: World, writing: Writing): World
  {
    match writing
    case Succeeds => w.(file := Holds(w.jobs))
    case Fails => w
    case Tears => w.(file := Unreadable)
  }

  function Adopt(j: Job): Job
  {
    if j.state == Running then j.(state := Orphaned) else j
  }

  function Load(file: File): Table
  {
    if file.Holds? then map id | id in file.table :: Adopt(file.table[id]) else map[]
  }

  function Note(w: World, n: Notice): World
  {
    w.(notices := w.notices + [n])
  }

  /** The test of a refresh: it sees an end that has not been recorded, or nothing to do. */
  function Verdicts(w: World, id: nat, exit: Option<int>, gone: bool): Option<Verdict>
  {
    if id !in w.jobs then None
    else if id in w.procs then
      if exit.Some? && w.jobs[id].state == Running then Some(Ends(id, exit.value)) else None
    else if w.jobs[id].state == Orphaned && gone then Some(Gone(id))
    else None
  }

  function Concluded(job: Job, v: Verdict): Job
  {
    match v
    case Ends(_, code) => Job(if code == 0 then Finished else Failed, Some(code))
    case Gone(_) => job.(state := FinishedOrphaned)
  }

  /** The conclusion of a refresh; it does not look at the state again. */
  function Carry(w: World, v: Verdict, writing: Writing): World
    requires v.id in w.jobs
  {
    var done := Persist(w.(jobs := w.jobs[v.id := Concluded(w.jobs[v.id], v)]), writing);
    if v.Ends? then Note(done, Exited(v.id, v.code)) else done
  }

  function MarkJob(w: World, id: nat, writing: Writing): World
    requires id in w.jobs
  {
    Note(Persist(w.(jobs := w.jobs[id := w.jobs[id].(state := Signaled)]), writing), WasSignaled(id))
  }

  function Begun(w: World, id: nat): World
  {
    w.(jobs := w.jobs[id := Job(Running, None)], procs := w.procs + {id}, ids := w.ids + {id})
  }

  /** Job ids are random; a new one has never been used. A thread is at one refresh at a time,
      and every poll of a process gives the same code. */
  predicate Enabled(w: World, step: Step)
  {
    && (step.Start? ==> step.newId !in w.ids)
    && (step.Test? ==> step.thread !in w.pending)
    && (step.Test? && step.exit.Some? && step.id in w.procs && step.id in w.codes ==>
          step.exit.value == w.codes[step.id])
  }

  function Polled(w: World, id: nat, exit: Option<int>): World
  {
    if id in w.jobs && id in w.procs && exit.Some? then w.(codes := w.codes[id := exit.value]) else w
  }

  /** A request for an unknown job is answered 404 and changes nothing; a restart ends all
      threads. */
  function Next(w: World, step: Step): World
  {
    match step
    case Start(id, writing) =>
      Note(Persist(Begun(w, id), writing), Started(id))
    case Test(thread, id, exit, gone) =>
      var v := Verdicts(w, id, exit, gone);
      var polled := Polled(w, id, exit);
      if v.Some? then polled.(pending := w.pending[thread := v.value]) else polled
    case Conclude(thread, writing) =>
      if thread in w.pending && w.pending[thread].id in w.jobs then
        Carry(w, w.pending[thread], writing).(pending := w.pending - {thread})
      else w
    case Mark(id, writing) => if id in w.jobs then MarkJob(w, id, writing) else w
    case ServerRestart => w.(jobs := Load(w.file), procs := {}, pending := map[])
  }

  /** The world before each step of a run, and after the last. */
  ghost predicate IsRun(worlds: seq<World>, steps: seq<Step>)
  {
    && |worlds| == |steps| + 1 && worlds[0] == BOOT
    && forall i {:trigger steps[i]} :: 0 <= i < |steps| ==>
        Enabled(worlds[i], steps[i]) && worlds[i + 1] == Next(worlds[i], steps[i])
  }

  lemma RunStep(worlds: seq<World>, steps: seq<Step>, i: nat)
    requires IsRun(worlds, steps) && i < |steps|
    ensures |worlds| == |steps| + 1
    ensures Enabled(worlds[i], steps[i]) && worlds[i + 1] == Next(worlds[i], steps[i])
  {
  }

  // ---------------------------------------------------------------- invariant

  function Exits(notices: seq<Notice>, id: nat): nat
  {
    if notices == [] then 0
    else
      var last := notices[|notices| - 1];
      Exits(notices[..|notices| - 1], id) + (if last.Exited? && last.id == id then 1 else 0)
  }

  /** Exit codes fit the states. */
  predicate JobFits(j: Job)
  {
    && (j.state == Running || j.state == Orphaned ==> j.exitCode.None?)
    && (j.state == Finished ==> j.exitCode == Some(0))
    && (j.state == Failed ==> j.exitCode.Some? && j.exitCode.value != 0)
  }

  /** The program saw the job's process end. */
  predicate Ended(j: Job)
  {
    j.state == Finished || j.state == Failed
  }

  ghost predicate TableFits(t: Table)
  {
    forall id :: id in t ==> JobFits(t[id])
  }

  ghost predicate NoticesFit(w: World)
  {
    && (forall id :: id in w.jobs && w.jobs[id].state == Running ==> Exits(w.notices, id) == 0)
    && (forall id :: id in w.jobs && Ended(w.jobs[id]) ==> Exits(w.notices, id) >= 1)
    && (w.file.Holds? ==> forall id :: id in w.file.table && Ended(w.file.table[id]) ==> Exits(w.notices, id) >= 1)
    && (forall id :: id !in w.ids ==> Exits(w.notices, id) == 0)
  }

  /** The end is that of a process of this server, with the code that polling gives. */
  predicate Determined(w: World, v: Verdict)
  {
    v.Ends? && v.id in w.procs && v.id in w.codes && w.codes[v.id] == v.code
  }

  /** Jobs with a process of this server are not orphans, and running ones have one; what is
      pending fits the jobs. */
  ghost predicate ThreadsFit(w: World)
  {
    && (forall id :: id in w.procs ==>
          id in w.jobs && w.jobs[id].state != Orphaned && w.jobs[id].state != FinishedOrphaned)
    && (forall id :: id in w.jobs && w.jobs[id].state == Running ==> id in w.procs)
    && (forall th :: th in w.pending ==> w.pending[th].id in w.jobs)
    && (forall th :: th in w.pending && w.pending[th].Ends? ==> Determined(w, w.pending[th]))
    && (forall id :: id in w.procs && w.jobs[id].exitCode.Some? ==>
          id in w.codes && w.codes[id] == w.jobs[id].exitCode.value)
    && (forall th :: th in w.pending && w.pending[th].Gone? ==>
          w.pending[th].id !in w.procs && !Ended(w.jobs[w.pending[th].id]))
  }

  ghost predicate Sound(w: World)
  {
    && TableFits(w.jobs) && (w.file.Holds? ==> TableFits(w.file.table))
    && w.jobs.Keys <= w.ids && (w.file.Holds? ==> w.file.table.Keys <= w.ids)
    && ThreadsFit(w) && NoticesFit(w)
  }

  lemma ExitsSnoc(notices: seq<Notice>, n: Notice, id: nat)
    ensures Exits(notices + [n], id) == Exits(notices, id) + (if n.Exited? && n.id == id then 1 else 0)
  {
    assert (notices + [n])[..|notices|] == notices;
  }

  lemma ExitsAfter(notices: seq<Notice>, n: Notice)
    ensures forall k: nat :: Exits(notices + [n], k) == Exits(notices, k) + (if n.Exited? && n.id == k then 1 else 0)
  {
    forall k: nat
      ensures Exits(notices + [n], k) == Exits(notices, k) + (if n.Exited? && n.id == k then 1 else 0)
    {
      ExitsSnoc(notices, n, k);
    }
  }

  lemma NoteIsSound(w: World, n: Notice)
    requires Sound(w) && !n.Exited?
    ensures Sound(Note(w, n))
  {
    hide Exits, TableFits;
    ExitsAfter(w.notices, n);
  }

  lemma PersistIsSound(w: World, writing: Writing)
    requires Sound(w)
    ensures Sound(Persist(w, writing))
  {
    hide Exits, TableFits;
  }

  lemma StartIsSound(w: World, id: nat)
    requires Sound(w) && id !in w.ids
    ensures Sound(Begun(w, id))
  {
    assert id !in w.jobs;
    hide Exits, NoticesFit, TableFits, ThreadsFit;
    StartThreads(w, id);
    StartNotices(w, id);
    UpdateTable(w.jobs, id, Job(Running, None));
  }

  lemma StartThreads(w: World, id: nat)
    requires ThreadsFit(w) && id !in w.jobs
    ensures ThreadsFit(Begun(w, id))
  {
  }

  lemma StartNotices(w: World, id: nat)
    requires NoticesFit(w) && id !in w.ids
    ensures NoticesFit(Begun(w, id))
  {
    hide Exits;
  }

  lemma PollIsSound(w: World, id: nat, exit: Option<int>)
    requires Sound(w) && (exit.Some? && id in w.procs && id in w.codes ==> exit.value == w.codes[id])
    ensures Sound(Polled(w, id, exit))
  {
    hide Exits, TableFits;
  }

  lemma TestIsSound(w: World, thread: nat, v: Verdict)
    requires Sound(w) && v.id in w.jobs
    requires v.Ends? ==> Determined(w, v)
    requires v.Gone? ==> v.id !in w.procs && !Ended(w.jobs[v.id])
    ensures Sound(w.(pending := w.pending[thread := v]))
  {
    hide Exits, TableFits;
  }

  lemma DropIsSound(w: World, thread: nat)
    requires Sound(w)
    ensures Sound(w.(pending := w.pending - {thread}))
  {
    hide Exits, TableFits;
  }

  lemma UpdateThreads(w: World, id: nat, j: Job)
    requires ThreadsFit(w) && id in w.jobs && j.state != Running
    requires if id in w.procs then j.state != Orphaned && j.state != FinishedOrphaned else !Ended(j)
    requires id in w.procs && j.exitCode.Some? ==>
               j.exitCode == w.jobs[id].exitCode || (id in w.codes && w.codes[id] == j.exitCode.value)
    ensures ThreadsFit(w.(jobs := w.jobs[id := j]))
  {
  }

  lemma UpdateTable(t: Table, id: nat, j: Job)
    requires TableFits(t) && JobFits(j)
    ensures TableFits(t[id := j])
  {
  }

  lemma UpdateNotices(w: World, id: nat, j: Job)
    requires NoticesFit(w) && id in w.jobs && j.state != Running && !Ended(j)
    ensures NoticesFit(w.(jobs := w.jobs[id := j]))
  {
    hide Exits;
  }

  lemma EndNotices(w: World, id: nat, code: int, j: Job)
    requires NoticesFit(w) && id in w.jobs && id in w.ids && Ended(j)
    ensures NoticesFit(Note(w.(jobs := w.jobs[id := j]), Exited(id, code)))
  {
    hide Exits;
    ExitsAfter(w.notices, Exited(id, code));
  }

  /** An end may be recorded, together with the notice of it. */
  lemma EndIsSound(w: World, v: Verdict)
    requires Sound(w) && Determined(w, v)
    ensures Sound(Note(w.(jobs := w.jobs[v.id := Concluded(w.jobs[v.id], v)]), Exited(v.id, v.code)))
  {
    assert v.id in w.jobs;
    hide Exits, NoticesFit, TableFits;
    var job := Concluded(w.jobs[v.id], v);
    UpdateThreads(w, v.id, job);
    UpdateTable(w.jobs, v.id, job);
    EndNotices(w, v.id, v.code, job);
    NoteThreads(w.(jobs := w.jobs[v.id := job]), Exited(v.id, v.code));
    hide ThreadsFit;
  }

  lemma NoteThreads(w: World, n: Notice)
    requires ThreadsFit(w)
    ensures ThreadsFit(Note(w, n))
  {
  }

  /** A job may be marked, and an orphan buried. */
  lemma UpdateIsSound(w: World, id: nat, j: Job)
    requires Sound(w) && id in w.jobs && j.exitCode == w.jobs[id].exitCode
    requires j.state == Signaled || (j.state == FinishedOrphaned && id !in w.procs)
    ensures Sound(w.(jobs := w.jobs[id := j]))
  {
    hide Exits, NoticesFit, TableFits, ThreadsFit;
    UpdateThreads(w, id, j);
    UpdateTable(w.jobs, id, j);
    UpdateNotices(w, id, j);
  }

  lemma CarryIsSound(w: World, v: Verdict, writing: Writing)
    requires Sound(w) && v.id in w.jobs
    requires if v.Ends? then Determined(w, v) else v.id !in w.procs
    ensures Sound(Carry(w, v, writing))
  {
    hide Exits, Sound;
    var job := Concluded(w.jobs[v.id], v);
    if v.Ends? {
      EndIsSound(w, v);
      PersistIsSound(Note(w.(jobs := w.jobs[v.id := job]), Exited(v.id, v.code)), writing);
    } else {
      UpdateIsSound(w, v.id, job);
      PersistIsSound(w.(jobs := w.jobs[v.id := job]), writing);
    }
  }

  lemma ConcludeIsSound(w: World, thread: nat, writing: Writing)
    requires Sound(w) && thread in w.pending
    ensures w.pending[thread].id in w.jobs
    ensures Sound(Carry(w, w.pending[thread], writing).(pending := w.pending - {thread}))
  {
    hide Exits, NoticesFit, TableFits;
    var v := w.pending[thread];
    assert v.id in w.jobs && if v.Ends? then Determined(w, v) else v.id !in w.procs;
    hide Sound, ThreadsFit;
    CarryIsSound(w, v, writing);
    DropIsSound(Carry(w, v, writing), thread);
  }

  lemma RestartIsSound(w: World)
    requires Sound(w)
    ensures Sound(Next(w, ServerRestart))
  {
    hide Exits;
  }

  lemma NextIsSound(w: World, step: Step)
    requires Sound(w) && Enabled(w, step)
    ensures Sound(Next(w, step)) && w.ids <= Next(w, step).ids
  {
    hide Exits, Sound;
    match step
    case Start(id, writing) =>
      StartIsSound(w, id);
      PersistIsSound(Begun(w, id), writing);
      NoteIsSound(Persist(Begun(w, id), writing), Started(id));
    case Test(thread, id, exit, gone) => SeeIsSound(w, thread, id, exit, gone);
    case Conclude(thread, writing) =>
      if thread in w.pending { ConcludeIsSound(w, thread, writing); }
    case Mark(id, writing) =>
      if id in w.jobs { MarkIsSound(w, id, writing); }
    case ServerRestart => RestartIsSound(w);
  }

  lemma SeeIsSound(w: World, thread: nat, id: nat, exit: Option<int>, gone: bool)
    requires Sound(w) && Enabled(w, Test(thread, id, exit, gone))
    ensures Sound(Next(w, Test(thread, id, exit, gone)))
  {
    hide Exits, NoticesFit, TableFits;
    var v := Verdicts(w, id, exit, gone);
    PollIsSound(w, id, exit);
    if v.Some? { TestIsSound(Polled(w, id, exit), thread, v.value); }
  }

  lemma MarkIsSound(w: World, id: nat, writing: Writing)
    requires Sound(w) && id in w.jobs
    ensures Sound(MarkJob(w, id, writing))
  {
    hide Exits, Sound;
    var next := w.(jobs := w.jobs[id := w.jobs[id].(state := Signaled)]);
    UpdateIsSound(w, id, w.jobs[id].(state := Signaled));
    PersistIsSound(next, writing);
    NoteIsSound(Persist(next, writing), WasSignaled(id));
  }

  // ---------------------------------------------------------------- what the steps do

  /** What is on disk once the program has tried to write a table. */
  predicate Wrote(before: File, t: Table, writing: Writing, after: File)
  {
    && (writing.Succeeds? ==> after == Holds(t))
    && (writing.Fails? ==> after == before)
    && (writing.Tears? ==> after == Unreadable)
  }

  /** Main result: what a refresh that no other step comes between does. A running job whose
      process has ended is finished or failed with that code, and this is announced; an
      orphan whose process is gone is buried in silence; nothing else happens to any job. */
  lemma RefreshMeaning(w: World, thread: nat, id: nat, exit: Option<int>, gone: bool, writing: Writing)
    requires Sound(w) && Enabled(w, Test(thread, id, exit, gone))
    ensures var after := Next(Next(w, Test(thread, id, exit, gone)), Conclude(thread, writing));
            var ends := id in w.jobs && w.jobs[id].state == Running && exit.Some?;
            var buries := id in w.jobs && w.jobs[id].state == Orphaned && gone;
            && (ends ==>
                  && after.jobs == w.jobs[id := Job(if exit.value == 0 then Finished else Failed, exit)]
                  && after.notices == w.notices + [Exited(id, exit.value)])
            && (buries ==> after.jobs == w.jobs[id := Job(FinishedOrphaned, None)] && after.notices == w.notices)
            && (ends || buries ==> Wrote(w.file, after.jobs, writing, after.file))
            && (!ends && !buries ==> after.jobs == w.jobs && after.notices == w.notices && after.file == w.file)
            && after.procs == w.procs && after.ids == w.ids && after.pending == w.pending
  {
    hide NoticesFit, Exits;
    var tested := Next(w, Test(thread, id, exit, gone));
    TestMeaning(w, thread, id, exit, gone);
    SeeIsSound(w, thread, id, exit, gone);
    ConcludeMeaning(tested, thread, writing);
    hide Next;
    assert tested.pending - {thread} == w.pending;
  }

  /** The test alone finds out, and leaves jobs, file and announcements alone. */
  lemma TestMeaning(w: World, thread: nat, id: nat, exit: Option<int>, gone: bool)
    requires Sound(w) && Enabled(w, Test(thread, id, exit, gone))
    ensures var after := Next(w, Test(thread, id, exit, gone));
            var ends := id in w.jobs && w.jobs[id].state == Running && exit.Some?;
            var buries := id in w.jobs && w.jobs[id].state == Orphaned && gone;
            && after.jobs == w.jobs && after.procs == w.procs && after.file == w.file
            && after.notices == w.notices && after.ids == w.ids
            && (ends ==> after.pending == w.pending[thread := Ends(id, exit.value)])
            && (buries ==> after.pending == w.pending[thread := Gone(id)])
            && (!ends && !buries ==> after.pending == w.pending)
            && (after.codes == if id in w.procs && exit.Some? then w.codes[id := exit.value] else w.codes)
  {
    hide NoticesFit, Exits, TableFits;
  }

  /** The conclusion, whatever has come between: what was found out is recorded. */
  lemma ConcludeMeaning(w: World, thread: nat, writing: Writing)
    requires Sound(w)
    ensures var after := Next(w, Conclude(thread, writing));
            && (thread !in w.pending ==> after == w)
            && (thread in w.pending ==>
                  var v := w.pending[thread];
                  && v.id in w.jobs
                  && (v.Ends? ==>
                        && after.jobs == w.jobs[v.id := Job(if v.code == 0 then Finished else Failed, Some(v.code))]
                        && after.notices == w.notices + [Exited(v.id, v.code)])
                  && (v.Gone? ==>
                        && after.jobs == w.jobs[v.id := Job(FinishedOrphaned, w.jobs[v.id].exitCode)]
                        && after.notices == w.notices)
                  && Wrote(w.file, after.jobs, writing, after.file)
                  && after.procs == w.procs && after.ids == w.ids && after.codes == w.codes
                  && after.pending == w.pending - {thread})
  {
    hide NoticesFit, Exits, TableFits;
  }

  /** A job starts running with a process of this server; a signalled one keeps its exit code;
      both are written and announced. A restart takes the table on disk, if there is one, with
      running jobs orphaned, and has no process. */
  lemma OthersMeaning(w: World, id: nat, writing: Writing)
    ensures var after := Next(w, Start(id, writing));
            && after.jobs == w.jobs[id := Job(Running, None)] && after.notices == w.notices + [Started(id)]
            && after.procs == w.procs + {id} && after.ids == w.ids + {id}
            && after.pending == w.pending && after.codes == w.codes && Wrote(w.file, after.jobs, writing, after.file)
    ensures id in w.jobs ==>
              var after := Next(w, Mark(id, writing));
              && after.jobs == w.jobs[id := Job(Signaled, w.jobs[id].exitCode)]
              && after.notices == w.notices + [WasSignaled(id)]
              && Wrote(w.file, after.jobs, writing, after.file)
              && after == w.(jobs := after.jobs, notices := after.notices, file := after.file)
    ensures id !in w.jobs ==> Next(w, Mark(id, writing)) == w
    ensures var after := Next(w, ServerRestart);
            && after.jobs.Keys == (if w.file.Holds? then w.file.table.Keys else {})
            && (forall k :: k in after.jobs ==>
                  after.jobs[k] == Job(if w.file.table[k].state == Running then Orphaned else w.file.table[k].state,
                                       w.file.table[k].exitCode))
            && after.procs == {} && after.pending == map[]
            && after == w.(jobs := after.jobs, procs := {}, pending := map[])
  {
  }

  lemma {:induction false} RunIsSound(worlds: seq<World>, steps: seq<Step>, i: nat)
    requires IsRun(worlds, steps) && i <= |steps|
    ensures Sound(worlds[i])
    decreases i
  {
    hide Sound, Next, Enabled;
    if i > 0 {
      RunStep(worlds, steps, i - 1);
      RunIsSound(worlds, steps, i - 1);
      NextIsSound(worlds[i - 1], steps[i - 1]);
    } else {
      BootIsSound();
    }
  }

  lemma BootIsSound()
    ensures Sound(BOOT)
  {
  }

  // ---------------------------------------------------------------- no way back to running

  predicate IsRunning(w: World, id: nat)
  {
    id in w.jobs && w.jobs[id].state == Running
  }

  lemma StaysStopped(w: World, step: Step, id: nat)
    requires Sound(w) && Enabled(w, step) && id in w.ids && !IsRunning(w, id)
    ensures !IsRunning(Next(w, step), id)
  {
    hide Exits, NoticesFit, TableFits, ThreadsFit, Verdicts, Sound;
    match step
    case Start(newId, _) => assert newId != id;
    case Test(_, _, _, _) =>
    case Conclude(_, _) =>
    case Mark(_, _) =>
    case ServerRestart =>
  }

  /** A job that has once stopped running - or was forgotten with the table - never runs
      again, whatever old table a later server finds on disk. */
  lemma {:induction false} NeverRunsAgain(worlds: seq<World>, steps: seq<Step>, i: nat, j: nat, id: nat)
    requires IsRun(worlds, steps) && i <= j <= |steps|
    requires id in worlds[i].ids && !IsRunning(worlds[i], id)
    ensures !IsRunning(worlds[j], id) && id in worlds[j].ids
    decreases j
  {
    hide IsRun, Next, Sound, Enabled;
    if i < j {
      RunStep(worlds, steps, j - 1);
      NeverRunsAgain(worlds, steps, i, j - 1, id);
      RunIsSound(worlds, steps, j - 1);
      NextIsSound(worlds[j - 1], steps[j - 1]);
      StaysStopped(worlds[j - 1], steps[j - 1], id);
    }
  }

  // ---------------------------------------------------------------- announcing exits

  /** A thread has seen the end of job `id` and not yet recorded it. */
  predicate HasSeen(w: World, thread: nat, id: nat)
  {
    thread in w.pending && w.pending[thread].Ends? && w.pending[thread].id == id
  }

  predicate Announces(w: World, step: Step, id: nat)
  {
    step.Conclude? && HasSeen(w, step.thread, id)
  }

  lemma AnnouncesOne(w: World, step: Step, id: nat)
    requires Sound(w)
    ensures Exits(Next(w, step).notices, id) == Exits(w.notices, id) + (if Announces(w, step, id) then 1 else 0)
    ensures Announces(w, step, id) ==> id in w.ids && !IsRunning(Next(w, step), id)
  {
    hide Exits, NoticesFit, TableFits;
    match step
    case Start(newId, _) => ExitsSnoc(w.notices, Started(newId), id);
    case Test(_, _, _, _) =>
    case Conclude(thread, writing) =>
      if thread in w.pending && w.pending[thread].Ends? {
        ExitsSnoc(w.notices, Exited(w.pending[thread].id, w.pending[thread].code), id);
      }
    case Mark(other, _) => ExitsSnoc(w.notices, WasSignaled(other), id);
    case ServerRestart =>
  }

  /** Only while a job runs can a thread come to see its end. */
  lemma {:induction false} SeenBefore(worlds: seq<World>, steps: seq<Step>, i: nat, j: nat, thread: nat, id: nat)
    requires IsRun(worlds, steps) && i <= j <= |steps|
    requires id in worlds[i].ids && !IsRunning(worlds[i], id) && HasSeen(worlds[j], thread, id)
    ensures HasSeen(worlds[i], thread, id)
    decreases j
  {
    hide IsRun, Next, Sound, HasSeen, Enabled, IsRunning;
    if i < j {
      RunStep(worlds, steps, j - 1);
      NeverRunsAgain(worlds, steps, i, j - 1, id);
      SeenStep(worlds[j - 1], steps[j - 1], thread, id);
      SeenBefore(worlds, steps, i, j - 1, thread, id);
    }
  }

  lemma SeenStep(w: World, step: Step, thread: nat, id: nat)
    requires !IsRunning(w, id) && HasSeen(Next(w, step), thread, id)
    ensures HasSeen(w, thread, id)
  {
  }

  /** Two refreshes of the job whose spans from test to conclusion overlap, and that both
      announce its end: that of step `j` had seen the end before step `i` recorded it. */
  ghost predicate Overlap(worlds: seq<World>, steps: seq<Step>, i: nat, j: nat, id: nat)
    requires |worlds| == |steps| + 1 && i < j < |steps|
  {
    && Announces(worlds[i], steps[i], id) && Announces(worlds[j], steps[j], id)
    && HasSeen(worlds[i], steps[j].thread, id)
  }

  lemma TwoAnnouncementsOverlap(worlds: seq<World>, steps: seq<Step>, i: nat, j: nat, id: nat)
    requires IsRun(worlds, steps) && i < j < |steps|
    requires Announces(worlds[i], steps[i], id) && Announces(worlds[j], steps[j], id)
    ensures Overlap(worlds, steps, i, j, id)
  {
    hide Sound, Exits;
    RunIsSound(worlds, steps, i);
    AnnouncesOne(worlds[i], steps[i], id);
    NextIsSound(worlds[i], steps[i]);
    SeenBefore(worlds, steps, i + 1, j, steps[j].thread, id);
    EarlierSeen(worlds[i], steps[i], steps[j].thread, id);
  }

  lemma EarlierSeen(w: World, step: Step, thread: nat, id: nat)
    requires step.Conclude? && HasSeen(Next(w, step), thread, id)
    ensures HasSeen(w, thread, id)
  {
  }

  lemma {:induction false} SomeAnnouncement(worlds: seq<World>, steps: seq<Step>, n: nat, id: nat, most: nat)
    requires IsRun(worlds, steps) && n <= |steps| && Exits(worlds[n].notices, id) > most
    ensures exists j :: 0 <= j < n && Announces(worlds[j], steps[j], id) && Exits(worlds[j].notices, id) >= most
    decreases n
  {
    hide IsRun, Sound, Next, Announces;
    if n == 0 {
      BootIsSilent(worlds, steps, id);
    } else {
      hide Exits;
      RunStep(worlds, steps, n - 1);
      RunIsSound(worlds, steps, n - 1);
      AnnouncesOne(worlds[n - 1], steps[n - 1], id);
      if !Announces(worlds[n - 1], steps[n - 1], id) { SomeAnnouncement(worlds, steps, n - 1, id, most); }
    }
  }

  lemma BootIsSilent(worlds: seq<World>, steps: seq<Step>, id: nat)
    requires IsRun(worlds, steps)
    ensures Exits(worlds[0].notices, id) == 0
  {
  }

  lemma {:induction false} ExitsGrow(worlds: seq<World>, steps: seq<Step>, i: nat, j: nat, id: nat)
    requires IsRun(worlds, steps) && i <= j <= |steps|
    ensures Exits(worlds[i].notices, id) <= Exits(worlds[j].notices, id)
    decreases j
  {
    hide IsRun, Sound, Exits, Next, Enabled, Announces;
    if i < j {
      RunStep(worlds, steps, j - 1);
      ExitsGrow(worlds, steps, i, j - 1, id);
      RunIsSound(worlds, steps, j - 1);
      AnnouncesOne(worlds[j - 1], steps[j - 1], id);
    }
  }

  /** Main result: in every run, with any file writes failing or tearing, any number of
      server restarts and any interleaving of threads, a job's exit is announced more than
      once exactly when two refreshes of it overlap. */
  lemma AnnouncedTwiceIffOverlap(worlds: seq<World>, steps: seq<Step>, n: nat, id: nat)
    requires IsRun(worlds, steps) && n <= |steps|
    ensures Exits(worlds[n].notices, id) >= 2 <==> exists i, j :: 0 <= i < j < n && Overlap(worlds, steps, i, j, id)
  {
    hide Sound, Exits, Next, Enabled, Announces, HasSeen;
    if Exits(worlds[n].notices, id) >= 2 {
      SomeAnnouncement(worlds, steps, n, id, 1);
      var j :| 0 <= j < n && Announces(worlds[j], steps[j], id) && Exits(worlds[j].notices, id) >= 1;
      SomeAnnouncement(worlds, steps, j, id, 0);
      var i :| 0 <= i < j && Announces(worlds[i], steps[i], id) && Exits(worlds[i].notices, id) >= 0;
      TwoAnnouncementsOverlap(worlds, steps, i, j, id);
    }
    if i, j :| 0 <= i < j < n && Overlap(worlds, steps, i, j, id) {
      RunIsSound(worlds, steps, i);
      RunIsSound(worlds, steps, j);
      AnnouncesOne(worlds[i], steps[i], id);
      AnnouncesOne(worlds[j], steps[j], id);
      ExitsGrow(worlds, steps, i + 1, j, id);
      ExitsGrow(worlds, steps, j + 1, n, id);
    }
  }

  /** At least once it has been if the job is finished or failed, and never while it runs;
      running and orphaned jobs have no exit code, finished ones have 0 and failed ones
      another. */
  lemma EndsAreAnnounced(worlds: seq<World>, steps: seq<Step>, i: nat, id: nat)
    requires IsRun(worlds, steps) && i <= |steps| && id in worlds[i].jobs
    ensures JobFits(worlds[i].jobs[id])
    ensures Ended(worlds[i].jobs[id]) ==> Exits(worlds[i].notices, id) >= 1
    ensures IsRunning(worlds[i], id) ==> Exits(worlds[i].notices, id) == 0
  {
    hide Exits;
    RunIsSound(worlds, steps, i);
  }

  /** The step announces the end of job `id`, which its thread had seen in world `w`. */
  ghost predicate AnnouncesSeen(w: World, now: World, step: Step, id: nat)
  {
    Announces(now, step, id) && HasSeen(w, step.thread, id)
  }

  lemma AnnouncedWasSeen(worlds: seq<World>, steps: seq<Step>, i: nat, k: nat, id: nat)
    requires IsRun(worlds, steps) && i <= k < |steps|
    requires id in worlds[i].ids && !IsRunning(worlds[i], id)
    ensures AnnouncesSeen(worlds[i], worlds[k], steps[k], id) <==> Announces(worlds[k], steps[k], id)
  {
    hide IsRun, Next, Sound;
    RunStep(worlds, steps, k);
    if Announces(worlds[k], steps[k], id) { SeenBefore(worlds, steps, i, k, steps[k].thread, id); }
  }

  /** A job that no longer runs - signalled, orphaned or forgotten - has its exit announced
      exactly when a refresh concludes that had seen the end while the job still ran; without
      one it stays silent. */
  lemma {:induction false} StoppedIsSilent(worlds: seq<World>, steps: seq<Step>, i: nat, j: nat, id: nat)
    requires IsRun(worlds, steps) && i <= j <= |steps|
    requires id in worlds[i].ids && !IsRunning(worlds[i], id)
    ensures Exits(worlds[j].notices, id) > Exits(worlds[i].notices, id) <==>
            exists k :: i <= k < j && AnnouncesSeen(worlds[i], worlds[k], steps[k], id)
    decreases j
  {
    hide IsRun, Sound, Exits, Next, Enabled, Announces, AnnouncesSeen;
    if i < j {
      RunStep(worlds, steps, j - 1);
      StoppedIsSilent(worlds, steps, i, j - 1, id);
      ExitsGrow(worlds, steps, i, j - 1, id);
      RunIsSound(worlds, steps, j - 1);
      AnnouncesOne(worlds[j - 1], steps[j - 1], id);
      AnnouncedWasSeen(worlds, steps, i, j - 1, id);
    }
  }

  /** After one job has been started. */
  function JustStarted(): (w: World)
    ensures w == Next(BOOT, Start(1, Succeeds))
  {
    World(map[1 := Job(Running, None)], {1}, Holds(map[1 := Job(Running, None)]), [Started(1)], {1}, map[], map[])
  }

  /** One job, recorded as finished by a thread that then is through. */
  lemma FinishOne(w: World, thread: nat, after: World, writing: Writing)
    requires w.jobs.Keys == {1} && thread in w.pending && w.pending[thread] == Ends(1, 0)
    requires after == World(map[1 := Job(Finished, Some(0))], w.procs,
                            if writing == Succeeds then Holds(map[1 := Job(Finished, Some(0))]) else w.file,
                            w.notices + [Exited(1, 0)], w.ids, w.pending - {thread}, w.codes)
    requires writing != Tears
    ensures Next(w, Conclude(thread, writing)) == after
  {
    assert w.jobs[1 := Job(Finished, Some(0))] == map[1 := Job(Finished, Some(0))];
  }

  lemma SeeOne(w: World, thread: nat)
    requires w.jobs == map[1 := Job(Running, None)] && w.procs == {1}
    ensures Next(w, Test(thread, 1, Some(0), false)) ==
            w.(pending := w.pending[thread := Ends(1, 0)], codes := w.codes[1 := 0])
  {
  }

  /** Two polls at once announce an exit twice. */
  lemma TwoPollsAnnounceTwice()
    ensures var steps := [Start(1, Succeeds), Test(7, 1, Some(0), false), Test(8, 1, Some(0), false),
                          Conclude(7, Succeeds), Conclude(8, Succeeds)];
            exists worlds: seq<World> :: IsRun(worlds, steps)
              && worlds[5].notices == [Started(1), Exited(1, 0), Exited(1, 0)]
  {
    var steps := [Start(1, Succeeds), Test(7, 1, Some(0), false), Test(8, 1, Some(0), false),
                  Conclude(7, Succeeds), Conclude(8, Succeeds)];
    var w1 := JustStarted();
    hide Next;
    SeeOne(w1, 7);
    var w2 := Next(w1, steps[1]);
    SeeOne(w2, 8);
    var w3 := Next(w2, steps[2]);
    var done := map[1 := Job(Finished, Some(0))];
    var w4 := World(done, {1}, Holds(done), [Started(1), Exited(1, 0)], {1}, w3.pending - {7}, w3.codes);
    var w5 := World(done, {1}, Holds(done), [Started(1), Exited(1, 0), Exited(1, 0)], {1}, w4.pending - {8}, w3.codes);
    FinishOne(w3, 7, w4, Succeeds);
    FinishOne(w4, 8, w5, Succeeds);
    assert Enabled(BOOT, steps[0]) && Enabled(w1, steps[1]) && Enabled(w2, steps[2]);
    assert Enabled(w3, steps[3]) && Enabled(w4, steps[4]);
    hide Enabled;
    assert IsRun([BOOT, w1, w2, w3, w4, w5], steps);
  }

  /** A poll that runs into a signal announces an exit after it, and the job is finished
      instead of signalled. */
  lemma SignalledIsAnnounced()
    ensures var steps := [Start(1, Succeeds), Test(7, 1, Some(0), false), Mark(1, Succeeds), Conclude(7, Succeeds)];
            exists worlds: seq<World> :: IsRun(worlds, steps)
              && worlds[3].jobs == map[1 := Job(Signaled, None)] && worlds[4].jobs == map[1 := Job(Finished, Some(0))]
              && worlds[4].notices == [Started(1), WasSignaled(1), Exited(1, 0)]
  {
    var steps := [Start(1, Succeeds), Test(7, 1, Some(0), false), Mark(1, Succeeds), Conclude(7, Succeeds)];
    var w1 := JustStarted();
    var w2 := Next(w1, steps[1]);
    var w3 := Next(w2, steps[2]);
    assert w3.jobs == map[1 := Job(Signaled, None)];
    assert w3.notices == [Started(1), WasSignaled(1)] && w3.pending == map[7 := Ends(1, 0)];
    var done := map[1 := Job(Finished, Some(0))];
    var notices := [Started(1), WasSignaled(1), Exited(1, 0)];
    var w4 := World(done, {1}, Holds(done), notices, {1}, w3.pending - {7}, w3.codes);
    hide Next;
    FinishOne(w3, 7, w4, Succeeds);
    assert IsRun([BOOT, w1, w2, w3, w4], steps);
  }

  // ---------------------------------------------------------------- reliable files

  predicate Reliable(step: Step)
  {
    match step
    case Start(_, writing) => writing == Succeeds
    case Test(_, _, _, _) => true
    case Conclude(_, writing) => writing == Succeeds
    case Mark(_, writing) => writing == Succeeds
    case ServerRestart => true
  }

  /** The stages of a job's life. */
  function Rank(s: State): nat
  {
    match s
    case Running => 0
    case Orphaned => 1
    case Finished => 2
    case Failed => 2
    case FinishedOrphaned => 2
    case Signaled => 3
  }

  /** The file is the table, but for jobs a restart has orphaned since it was written. */
  ghost predicate Saved(w: World)
  {
    if w.file.Holds? then Load(w.file) == Load(Holds(w.jobs)) else w.file.Missing? && w.jobs == map[]
  }

  /** What may become of a job: nothing, or a later stage; a code once there stays. */
  predicate Advances(a: Job, b: Job)
  {
    (a == b || Rank(a.state) < Rank(b.state)) && (a.exitCode.Some? ==> b.exitCode == a.exitCode)
  }

  ghost predicate AllAdvance(a: Table, b: Table)
  {
    forall k :: k in a ==> k in b && Advances(a[k], b[k])
  }

  /** The step concludes a refresh whose job has been signalled since its test. */
  predicate Overtaken(w: World, step: Step)
  {
    && step.Conclude? && step.thread in w.pending && w.pending[step.thread].id in w.jobs
    && w.jobs[w.pending[step.thread].id].state == Signaled
  }

  lemma CarryAdvances(w: World, v: Verdict)
    requires Sound(w) && v.id in w.jobs
    requires v.Ends? ==> Determined(w, v)
    requires v.Gone? ==> v.id !in w.procs && !Ended(w.jobs[v.id])
    ensures Advances(w.jobs[v.id], Concluded(w.jobs[v.id], v)) <==> w.jobs[v.id].state != Signaled
  {
    hide Exits, NoticesFit;
  }

  lemma UpdateAdvances(w: World, id: nat, j: Job)
    requires id in w.jobs
    ensures AllAdvance(w.jobs, w.jobs[id := j]) <==> Advances(w.jobs[id], j)
  {
    if AllAdvance(w.jobs, w.jobs[id := j]) { assert w.jobs[id := j][id] == j; }
  }

  /** As long as the file can be written a step moves every job on, or leaves it, exactly
      when it is not the conclusion of an overtaken refresh. */
  lemma StepAdvances(w: World, step: Step)
    requires Sound(w) && Saved(w) && Enabled(w, step) && Reliable(step)
    ensures Saved(Next(w, step))
    ensures AllAdvance(w.jobs, Next(w, step).jobs) <==> !Overtaken(w, step)
  {
    hide Exits, NoticesFit, TableFits, Load, AllAdvance, Advances;
    SameAdvances(w);
    match step
    case Start(id, _) => StartAdvances(w, id);
    case Test(_, _, _, _) =>
    case Conclude(thread, _) =>
      if thread in w.pending {
        var v := w.pending[thread];
        CarryAdvances(w, v);
        UpdateAdvances(w, v.id, Concluded(w.jobs[v.id], v));
      }
    case Mark(id, _) =>
      if id in w.jobs {
        MarkAdvances(w.jobs[id]);
        UpdateAdvances(w, id, w.jobs[id].(state := Signaled));
      }
    case ServerRestart => RestartAdvances(w);
  }

  lemma MarkAdvances(job: Job)
    ensures Advances(job, job.(state := Signaled))
  {
  }

  lemma StartAdvances(w: World, id: nat)
    requires Sound(w) && id !in w.ids
    ensures AllAdvance(w.jobs, w.jobs[id := Job(Running, None)])
  {
    hide Exits, NoticesFit;
  }

  lemma RestartAdvances(w: World)
    requires Saved(w)
    ensures var after := Next(w, ServerRestart);
            Saved(after) && AllAdvance(w.jobs, after.jobs)
  {
    LoadTwice(w.jobs);
    var adopted := Load(Holds(w.jobs));
    assert w.file.Holds? ==> forall k :: k in w.jobs ==> k in adopted && adopted[k] == Adopt(w.jobs[k]);
  }

  lemma SameAdvances(w: World)
    ensures AllAdvance(w.jobs, w.jobs)
  {
  }

  lemma LoadTwice(t: Table)
    ensures Load(Holds(Load(Holds(t)))) == Load(Holds(t))
  {
  }

  /** As long as the file can be written and no refresh is overtaken, no job is ever
      forgotten, its life only moves on - running, orphaned, ended, signaled - and an exit
      code once recorded stays. */
  lemma {:induction false} LifeOnlyMovesOn(worlds: seq<World>, steps: seq<Step>, i: nat, j: nat, id: nat)
    requires IsRun(worlds, steps) && i <= j <= |steps|
    requires forall k :: 0 <= k < |steps| ==> Reliable(steps[k])
    requires forall k :: i <= k < j ==> !Overtaken(worlds[k], steps[k])
    requires id in worlds[i].jobs
    ensures id in worlds[j].jobs && Advances(worlds[i].jobs[id], worlds[j].jobs[id])
    decreases j
  {
    hide IsRun, Exits, Sound, Saved, Next, Enabled, Reliable, Overtaken;
    if i < j {
      RunStep(worlds, steps, j - 1);
      LifeOnlyMovesOn(worlds, steps, i, j - 1, id);
      RunIsSound(worlds, steps, j - 1);
      RunIsSaved(worlds, steps, j - 1);
      StepAdvances(worlds[j - 1], steps[j - 1]);
    }
  }

  lemma {:induction false} RunIsSaved(worlds: seq<World>, steps: seq<Step>, i: nat)
    requires IsRun(worlds, steps) && i <= |steps|
    requires forall k :: 0 <= k < |steps| ==> Reliable(steps[k])
    ensures Saved(worlds[i])
    decreases i
  {
    hide Exits, Sound, Next, Enabled, Reliable, Overtaken, AllAdvance;
    if i == 0 {
      assert Saved(BOOT);
    } else {
      RunStep(worlds, steps, i - 1);
      RunIsSaved(worlds, steps, i - 1);
      RunIsSound(worlds, steps, i - 1);
      StepAdvances(worlds[i - 1], steps[i - 1]);
    }
  }

  /** When writing fails it does not hold: a job that finished with code 0 comes back
      without its code as an orphan if the file still has it running. */
  lemma LostWriteForgetsTheExit()
    ensures var steps := [Start(1, Succeeds), Test(7, 1, Some(0), false), Conclude(7, Fails), ServerRestart];
            exists worlds: seq<World> :: IsRun(worlds, steps)
              && worlds[3].jobs == map[1 := Job(Finished, Some(0))] && worlds[4].jobs == map[1 := Job(Orphaned, None)]
  {
    var steps := [Start(1, Succeeds), Test(7, 1, Some(0), false), Conclude(7, Fails), ServerRestart];
    var w1 := JustStarted();
    var w2 := Next(w1, steps[1]);
    var w3 := World(map[1 := Job(Finished, Some(0))], {1}, w1.file, [Started(1), Exited(1, 0)], {1},
                    w2.pending - {7}, w2.codes);
    FinishOne(w2, 7, w3, Fails);
    var w4 := Next(w3, steps[3]);
    assert w4.jobs == map[1 := Job(Orphaned, None)];
    hide Next;
    assert IsRun([BOOT, w1, w2, w3, w4], steps);
  }

  // ---------------------------------------------------------------- the module's state

  class JobServer {
    var jobs: Table
    var procs: set<nat>
    var file: File
    var notices: seq<Notice>
    ghost var ids: set<nat>
    ghost var pending: map<nat, Verdict>
    ghost var codes: map<nat, int>

    constructor ()
      ensures View() == BOOT
    {
      jobs, procs, file, notices := map[], {}, Missing, [];
      ids, pending, codes := {}, map[], map[];
    }

    ghost function View(): World
      reads this
    {
      World(jobs, procs, file, notices, ids, pending, codes)
    }

    method PersistJobs(writing: Writing)
      modifies this`file
      ensures View() == Persist(old(View()), writing)
    {
      match writing {
        case Succeeds => file := Holds(jobs);
        case Fails =>
        case Tears => file := Unreadable;
      }
    }

    /** A refresh up to its conclusion, if it comes to one. */
    method TestJob(ghost thread: nat, id: nat, exit: Option<int>, gone: bool) returns (v: Option<Verdict>)
      requires id in jobs && thread !in pending
      modifies this`pending, this`codes
      ensures View() == Next(old(View()), Test(thread, id, exit, gone))
      ensures v.Some? ==> v.value.id == id && thread in pending && pending[thread] == v.value
      ensures v.None? ==> pending == old(pending)
    {
      var job := jobs[id];
      v := None;
      if id in procs {
        if exit.Some? { codes := codes[id := exit.value]; }
        if exit.Some? && job.state == Running { v := Some(Ends(id, exit.value)); }
      } else if job.state == Orphaned {
        if gone { v := Some(Gone(id)); }
      }
      if v.Some? { pending := pending[thread := v.value]; }
    }

    /** The conclusion, whatever has happened to the job since. */
    method ConcludeJob(ghost thread: nat, v: Verdict, writing: Writing)
      requires v.id in jobs && thread in pending && pending[thread] == v
      modifies this
      ensures View() == Next(old(View()), Conclude(thread, writing))
    {
      match v {
        case Ends(id, code) =>
          jobs := jobs[id := Job(if code == 0 then Finished else Failed, Some(code))];
          PersistJobs(writing);
          notices := notices + [Exited(id, code)];
        case Gone(id) =>
          jobs := jobs[id := jobs[id].(state := FinishedOrphaned)];
          PersistJobs(writing);
      }
      pending := pending - {thread};
    }

    /** Test and conclusion, if no other thread comes between. */
    method RefreshOne(ghost thread: nat, id: nat, exit: Option<int>, gone: bool, writing: Writing)
      requires id in jobs && thread !in pending
      modifies this
      ensures View() == Next(Next(old(View()), Test(thread, id, exit, gone)), Conclude(thread, writing))
      ensures id in jobs && pending == old(pending)
    {
      var v := TestJob(thread, id, exit, gone);
      if v.Some? {
        ConcludeJob(thread, v.value, writing);
        assert pending == old(pending);
      }
    }

    method JobStart(id: nat, writing: Writing)
      requires id !in ids
      modifies this
      ensures View() == Next(old(View()), Start(id, writing))
    {
      jobs, procs, ids := jobs[id := Job(Running, None)], procs + {id}, ids + {id};
      PersistJobs(writing);
      notices := notices + [Started(id)];
    }

    /** The end of a signal request, behind its own refresh and the sending of the signal. */
    method MarkSignalled(id: nat, writing: Writing)
      requires id in jobs
      modifies this
      ensures View() == Next(old(View()), Mark(id, writing))
    {
      jobs := jobs[id := jobs[id].(state := Signaled)];
      PersistJobs(writing);
      notices := notices + [WasSignaled(id)];
    }

    /** A signal request that no other thread interrupts. */
    method JobSignal(ghost thread: nat, id: nat, exit: Option<int>, gone: bool, writing: Writing,
                     writing': Writing) returns (found: bool)
      requires thread !in pending
      modifies this
      ensures found <==> id in old(jobs)
      ensures View() ==
              Next(Next(Next(old(View()), Test(thread, id, exit, gone)), Conclude(thread, writing)), Mark(id, writing'))
    {
      hide Next;
      ghost var before := View();
      found := id in jobs;
      if found {
        RefreshOne(thread, id, exit, gone, writing);
        MarkSignalled(id, writing');
      } else {
        UnknownJob(before, thread, id, exit, gone, writing, writing');
      }
    }

    method RestartServer()
      modifies this
      ensures View() == Next(old(View()), ServerRestart)
    {
      procs := {};
      pending := map[];
      jobs := map[];
      if file.Holds? { jobs := map id | id in file.table :: Adopt(file.table[id]); }
    }
  }

  lemma UnknownJob(w: World, thread: nat, id: nat, exit: Option<int>, gone: bool, writing: Writing, writing': Writing)
    requires id !in w.jobs && thread !in w.pending
    ensures Next(Next(Next(w, Test(thread, id, exit, gone)), Conclude(thread, writing)), Mark(id, writing')) == w
  {
  }
}
