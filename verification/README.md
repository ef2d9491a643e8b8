# KaroX verification model

A Dafny model of the stateful parts of KaroX: the local API server (`server/`), its watchdog and
support scripts (`scripts/`), and the repository lease of the runtime (`src/karox/`). Each module
models one component and proves what it promises over all inputs and over all runs.
`dafny verify dfyconfig.toml` checks the whole project.

Where the Python code updates objects or module state, the module has a class whose methods update
the same fields step by step; each method is proved equal to one step of a specification
function, and the theorems are about every sequence of such steps. Pure code is functions. Clocks,
process polls, pings, answers of git and of the operating system, regular expressions and JSON
decoding are inputs.

| module | what it models |
|---|---|
| `Text`, `Decimal` | leftmost, non-overlapping find/split/count/replace of Python; decimal printing and `int(...)` |
| `DapFraming`, `DapSession` | the debug bridge: Content-Length frames, the byte-at-a-time reader, events and responses |
| `RequestQueue` | the middleware that bounds running and waiting requests |
| `IdempotencyStore` | the bounded store that replays the first response of an idempotency key |
| `EventBus` | the polled ring of numbered events |
| `BuilderInterpreter`, `CommandContract` | the abstract interpreter that rebuilds a command tree from Python syntax, and the check of documented command lines |
| `TextEdits` | count-checked, all-or-nothing text edits |
| `AuthLimiter`, `AuditRotation` | the limit on failed authentications and the rotating audit log |
| `Watchdog` | the supervisor that restarts a dead or silent server |
| `Jobs` | background jobs across server restarts |
| `SupportBundle` | scrubbing diagnostics and validating the result |
| `GitListing`, `GuardedCommit` | what the program sees of git's listing of paths; the cleanup of generated files and the two guarded ways to commit |
| `RepositoryLease` | the lease that excludes concurrent mutation of a repository |

Results worth knowing to a maintainer:

- Because the debug reader takes one byte at a time, it equals a one-shot parser on *every* byte
  stream, also when a Content-Length is negative (it acts as 0). With larger reads this would hold
  exactly when no negative length -k has more than k bytes behind it.
- A debug session keeps the newest events between two polls: all of them up to 500, and beyond
  that 201 at a time are lost. (An event that arrives while a poll is under way is another matter,
  see "Left out".)
- An idempotency entry outlives exactly 499 stores of other keys, also within one clock tick, if
  store times do not go back, nothing loaded expires later and none of the other entries expires
  meanwhile.
- The `lastId` of an event page is no cursor: polling on from it skips events exactly when the page
  was cut short. A reader that brings its cursor into a restarted server hears nothing until the
  new ids have passed it; a `lastId` below its cursor tells it so.
- The failure limiter's list of at most 50 stamps answers like the full history for up to 21
  requests of a client in flight at once, however they overlap (`OverlapIsExact`); with 22 it can
  count one failure too few (`CrowdForgets`). It also needs times of tests that do not go back
  (`GoingBackForgets`).
- The audit log stays a suffix of everything written even when file operations fail half-way; the
  size bound needs them to succeed.
- Job requests run without a lock. An exit is announced twice exactly when two refreshes of one
  job overlap (`TwoPollsAnnounceTwice`); a job that has been signalled still announces an exit, and
  ends as finished or failed instead of signalled, exactly when a refresh had seen the end before
  (`SignalledIsAnnounced`). A lost write of the job file can bring a finished job back as an orphan
  without its exit code (`LostWriteForgetsTheExit`) - but never as a running one.
- The supervisor forgets a child whose kill fails: alive beside the tracked child are exactly the
  children with a failed kill.
- The guard of `git commit` tests git's listing of staged paths, of which the program keeps the
  last 300,000 characters and no exit code. Paths whose lines are not whole in them are committed
  unseen (`HiddenPathsDecide`; `HiddenPathIsCommitted` is a directory and 1,200 of its files), and
  a listing that fails is taken for "nothing staged" and leaves the
  index staged (`FailedListingLeavesStaged`). With plain paths and a listing that fits, neither
  happens.
- No `reset` follows a failing `git add` or `git commit`: after the first the index holds whatever
  `add` staged, possibly nothing, after the second the listed, requested paths. Other refusals
  leave nothing staged as long as `reset` works.
- An edit rewrites all line ends of the file to those of the platform, and a write that fails late
  leaves a torn file.
- A known secret can come back through a marker, its own or that of another secret, exactly when it
  fits over the marker (`LeaksAmongExactly`). Keys of dictionaries are copied to a support bundle as
  they are.
- The cleanup of generated files cleans what `git status` lists and can be cleaned: ignored files
  stay, a failing `git restore` is only recorded, and a file that cannot be removed ends the request
  half-way.
- A literal loop of the interpreted builder code is walked as its unrolled body; a loop over
  something else is walked once, with an outer constant of the same name still in force.

## Model

| member | source | states |
|---|---|---|
| Text.SplitIsLeftmost | server/notion_agent_tools.py:248-261 | the scan behind `count` and `replace` cuts the text at leftmost, non-overlapping matches: the pieces joined with the pattern are the text, hold no match and hide none that runs into the next one, and are one more than the matches |
| Text.LeftmostIsUnique | server/notion_agent_tools.py:248-261 | that description has only one solution |
| Text.ReplaceJoins | server/notion_agent_tools.py:261 | replacing all matches joins the same pieces with the new text |
| Text.ReplaceLength | server/notion_agent_tools.py:261 | every replaced match changes the length by the difference of the two texts |
| Decimal.ParsePrint | server/karox4_debug.py:271 | reading a printed length with `int` gives it back |
| Decimal.DigitsAreNumerals | server/karox4_debug.py:183 | just digits with single underscores between them are read as a number |
| Decimal.IntMeaning | server/karox4_debug.py:183 | one sign in front decides the sign of what is read and nothing else |
| Decimal.UnderscoreIsSkipped | server/karox4_debug.py:183 | an underscore between digits does not count |
| DapFraming.LastFieldDecides | server/karox4_debug.py:180-183 | among header lines the last Content-Length decides, without one the length is 0, and one that is no number raises wherever it stands |
| DapFraming.ReaderIsParser | server/karox4_debug.py:171-190 | for every byte stream, malformed ones included, reading byte by byte delivers the payloads and keeps the leftover of a one-shot parser |
| DapFraming.ByteStep | server/karox4_debug.py:174-186 | one more byte takes the reader from the parse of what it has read to the parse of one byte more |
| DapFraming.ParseResumes | server/karox4_debug.py:178-186 | parsing may stop anywhere and go on from the leftover bytes |
| DapFraming.DrainIsParse | server/karox4_debug.py:178-186 | the loop with Python's slices equals the parser exactly when no negative length finds enough bytes to count back over |
| DapFraming.ChunkingIsInvisible | server/karox4_debug.py:174-186 | the cut of a stream into reads of any size is invisible exactly under that condition |
| DapFraming.NegativeLengthSeesTheChunks | server/karox4_debug.py:185-186 | a stream with length -1 that one large read and single bytes parse differently |
| DapFraming.LineDeclares | server/karox4_debug.py:180-183 | a single Content-Length line announces the number it is written with |
| DapFraming.FieldMeaning | server/karox4_debug.py:181-183 | a header line announces a length exactly if it starts with the name in any case and a colon; the value is the rest without white space at its ends |
| DapFraming.HeaderDecides | server/karox4_debug.py:178-186 | behind any header: an unreadable length stops the reader, one still to come makes it wait, else just so many bytes are the next payload, none for a negative one |
| DapFraming.FramesRoundTrip | server/karox4_debug.py:265-271 | for all payloads, delimiters in them included: after any number of bytes of their frames exactly those with their last byte in have been delivered, in order, and the rest of the buffer is the unfinished frame |
| DapSession.DapReader.ScanHeader | server/karox4_debug.py:180-183 | the header loop computes the announced length |
| DapSession.DapReader.ReadByte | server/karox4_debug.py:174-196 | one turn of the reader: every frame completed by the byte is filed; a message or header that raises ends the thread |
| DapSession.DapReader.Read | server/karox4_debug.py:170-198 | the thread's whole life leaves events, responses and buffer as a one-shot parse of the stream worked off message by message does |
| DapSession.DapReader.Send | server/karox4_debug.py:265-273 | a request takes the next number, and its frame is one payload to any parser at a frame boundary |
| DapSession.DapReader.Take | server/karox4_debug.py:278-282 | a look takes the response of that number out, and only that |
| DapSession.PollFindsNewest | server/karox4_debug.py:192-194 | a poll finds the newest events since the last one in order; how many is given in closed form, all of them exactly up to 500 |
| DapSession.ReadMeaning | server/karox4_debug.py:170-198 | what a parsed stream leaves: the thread lives exactly if no payload was unusable and no header unreadable; up to there the events are kept, the newest in order, each reply stands under its number, and a payload that is not JSON leaves no trace |
| DapSession.PollIsExact | server/karox4_debug.py:191-194 | over every run of messages, requests and polls: a poll is answered with the newest of the event messages that have reached the live reader since the last poll, all of them up to 500, takes them out and changes nothing else |
| DapSession.ExchangeIsOrderly | server/karox4_debug.py:265-284 | in every run numbers are handed out in order, no request is answered twice, and an answer is the last reply with its number that reached the reader while it was alive |
| DapSession.WaitingIsExact | server/karox4_debug.py:265-284 | over every run the requests that wait are exactly those sent, not answered and not given up |
| DapSession.LookIsExact | server/karox4_debug.py:278-284 | a waiting request that looks is answered exactly when a reply with its number has reached the live reader, and with the last such reply |
| DapSession.LastReplyIsUnique | server/karox4_debug.py:189-196 | there is at most one such last reply |
| RequestQueue.NextIsSound | server/karox4_core.py:343-376 | arrive, grant, timeout, cancel and finish keep the counters true and the permits exact, and neither `max(0, ...)` ever acts |
| RequestQueue.EveryRunIsSound | server/karox4_core.py:319-376 | in every interleaving free permits and running requests make MAX_CONCURRENCY, the counters equal the true numbers, at most MAX_QUEUE ordinary requests wait, every arrival is accounted for, and the empty gate is the initial one |
| RequestQueue.EventMeaning | server/karox4_core.py:343-376 | what becomes of a request in each event: it waits, runs, leaves or is refused, the last only if it is not urgent and MAX_QUEUE requests wait; how it ended is counted |
| RequestQueue.WaitingHasAReason | server/karox4_core.py:357-358 | read off the invariant: whenever a request waits, it can be granted or all permits are held by running requests |
| RequestQueue.BusyCostsNoPermit | server/karox4_core.py:343-367 | read off the step: a 503, at admission or after the wait, leaves permits and running requests alone |
| RequestQueue.RefusalIsHonest | server/karox4_core.py:343-351 | read off the step and the invariant: an ordinary request is refused at once exactly when MAX_QUEUE requests wait |
| RequestQueue.EveryoneCanFinish | server/karox4_core.py:352-376 | from every sound state, grants and handlers that end let all requests inside finish: no slot is lost on the way |
| RequestQueue.Middleware.Enter | server/karox4_core.py:343-353 | up to the first await: busy exactly when the queue is full and priority is not high, with true numbers in the answer, else one more waiter |
| RequestQueue.Middleware.Granted | server/karox4_core.py:357-370 | from the grant to the handler: a waiter becomes a runner and takes a permit |
| RequestQueue.Middleware.LeftQueue | server/karox4_core.py:359-369 | timeout and cancellation take the waiter off and keep the permits; a timeout answers 503 with the position at arrival |
| RequestQueue.Middleware.Left | server/karox4_core.py:371-376 | however the handler ends, the runner leaves and gives its permit back |
| IdempotencyStore.EncodeInjective | server/karox4_core.py:260 | the combined key keeps scopes without newline and keys apart |
| IdempotencyStore.StoreIsBounded | server/karox4_core.py:274-281 | from any loaded size one store leaves at most 500 entries, the new one among them |
| IdempotencyStore.StoreKeeps | server/karox4_core.py:277-281 | a store of another key drops an entry only if at least 499 others come no earlier in the order of expiry, entries that expire together in the order of the dictionary |
| IdempotencyStore.RequestMeaning | server/karox4_core.py:257-303 | what one request comes to, in terms of its key and the stored entry: a replay has exactly the fields of the stored response and the flag, and runs no handler; else the handler runs, and a dictionary it returns is stored for a day, the entries that make room being the first to expire |
| IdempotencyStore.StoredPlace | server/karox4_core.py:277-281 | a new key stands behind all others, one that is set again where it stood |
| IdempotencyStore.RunsOnce | server/karox4_core.py:290-303 | in every sequential run with times that do not go back, a repeat within the lifetime and with at most 499 other responses stored in between replays the first response with the flag, runs no handler and leaves the store as it was |
| IdempotencyStore.ReplaysAreGenuine | server/karox4_core.py:257-282 | in every sequential run a replay is the unexpired response that was loaded, or that the last request under the key stored |
| IdempotencyStore.FiveHundredEvict | server/karox4_core.py:277-281 | once responses under 500 other keys have been stored, with any replays, failures and repetitions between them, the entry is gone and stays gone until its key is stored again - if none of the 500 is found expired meanwhile |
| IdempotencyStore.Idempotency.Find | server/karox4_core.py:257-271 | lookup: absent, expired (and dropped), replayed with the flag, or not replayable |
| IdempotencyStore.OldestAreUnique | server/karox4_core.py:278 | which entries a store evicts is determined: the first by expiry, and among those that expire together by their place in the dictionary |
| IdempotencyStore.Idempotency.Evict | server/karox4_core.py:277-280 | the entries taken out are as many as asked for and the first in that order |
| IdempotencyStore.Idempotency.Keep | server/karox4_core.py:274-282 | store: without key or dictionary nothing changes, else the surplus of the oldest goes and the entry is set, a new key behind all others |
| IdempotencyStore.Idempotency.Handle | server/karox4_core.py:290-303 | an endpoint under a key: lookup, handler only on a miss, store only of what it returned |
| EventBus.RingIsNewest | server/karox4_core.py:382-390 | the ring holds the newest events up to 1000, ids without gap ending at the sequence number |
| EventBus.PageIsStretch | server/karox4_core.py:400-402 | for every cursor, negative ones and ones beyond the last id included: a page is a stretch of the history, from behind the cursor or from the oldest event still held, of at most the clamped limit, and empty for a cursor at or beyond the end |
| EventBus.PageInNumbers | server/karox4_core.py:399-402 | the same in numbers: where a page begins, how long it is - limits from 1 to 500 - and the id and data of every event on it |
| EventBus.PollKeeps | server/karox4_core.py:393-402 | a poll from the last received id loses nothing exactly when the reader is at most 1000 behind, and advances by the backlog or a full page; not at all while its cursor is ahead |
| EventBus.ReaderMissesNothing | server/karox4_core.py:382-402 | over every run in which it keeps up, such a reader has received the events behind its first cursor up to some point: each once, in order; a cursor from before a restart hides as many new events |
| EventBus.LastIdSkips | server/karox4_core.py:402 | the returned last id is beyond the reader's cursor exactly when the page was cut, and below it exactly when the cursor is ahead of all events |
| EventBus.EventBus.EmitEvent | server/karox4_core.py:386-390 | emitting numbers the event with the next id and drops the oldest beyond 1000 |
| EventBus.EventBus.Poll | server/karox4_core.py:393-402 | polling changes nothing and returns the page and the sequence number |
| BuilderInterpreter.SubstAllSound | scripts/check_documented_commands.py:77-85 | walking statements with a constant bound equals walking them with it substituted in add_parser name position, also under nested loops that shadow it |
| BuilderInterpreter.HiddenLoop | scripts/check_documented_commands.py:151-158 | a literal loop over the same name never sees the outer constant |
| BuilderInterpreter.UnrolledLoop | scripts/check_documented_commands.py:144-160 | a literal `for` is walked as one substituted copy of its body per string, then its else block |
| BuilderInterpreter.VisitIsFlat | scripts/check_documented_commands.py:131-173 | the walk of any statements is a straight-line sequence of table operations |
| BuilderInterpreter.ArgumentCallMeaning | scripts/check_documented_commands.py:114-129 | `owner.add_argument(args)` on a known parser leaves at its path exactly the old options, or the help flags, and the string arguments that begin with a dash; every other bucket, path and variable stays, and other expressions change nothing |
| BuilderInterpreter.AddParserMeaning | scripts/check_documented_commands.py:103-111 | `x = owner.add_parser(name)` adds exactly one path, that of the subparsers and the name, literal or constant, with its bucket, and binds `x` to it; nothing else changes, and nothing at all for unknown subparsers or an empty name |
| BuilderInterpreter.AssignmentMeaning | scripts/check_documented_commands.py:87-112 | an ArgumentParser is bound to the root, subparsers to the path of their known parser; any other assigned value changes nothing |
| BuilderInterpreter.OthersRecordNothing | scripts/check_documented_commands.py:131-142 | assignments to anything but one name, and statements without blocks, change nothing |
| BuilderInterpreter.BlocksMeaning | scripts/check_documented_commands.py:162-173 | all blocks of if, while and with are walked in order |
| BuilderInterpreter.PlainLoopMeaning | scripts/check_documented_commands.py:144-167 | a loop without literal strings is walked once, then its else block |
| BuilderInterpreter.TryMeaning | scripts/check_documented_commands.py:168-173 | of try, the body, else, finally and then the handlers are walked |
| BuilderInterpreter.StringsMeaning | scripts/check_documented_commands.py:146-149 | a loop is unrolled over the strings of its display, in order, and nothing else of it |
| BuilderInterpreter.StepKeepsTree | scripts/check_documented_commands.py:87-129 | every recorded call keeps the command tree and only adds to it |
| BuilderInterpreter.WalkKeepsTree | scripts/check_documented_commands.py:131-173 | whatever is walked: paths stay prefix-closed, option buckets and paths correspond, variables name known paths, and paths and options only grow |
| BuilderInterpreter.Interpreter.RecordParserAssignment | scripts/check_documented_commands.py:87-112 | an assignment binds a root, a subparser collection or a parser and adds its path, or does nothing |
| BuilderInterpreter.Interpreter.RecordArgumentCall | scripts/check_documented_commands.py:114-129 | add_argument adds exactly its literal option strings to the bucket of its parser |
| BuilderInterpreter.Interpreter.VisitStatements | scripts/check_documented_commands.py:131-173 | the walk that sets and restores constants in place is the scoped walk, and leaves the constants as they were |
| BuilderInterpreter.Interpreter.VisitLoopBody | scripts/check_documented_commands.py:151-158 | a literal loop puts back the constant it found, or removes its own |
| CommandContract.BuiltIsTree | scripts/check_documented_commands.py:176-216 | a built contract is such a tree, has a command, and keeps all the first builder made |
| CommandContract.BuildMeaning | scripts/check_documented_commands.py:176-216 | which builder is missed first; a contract is refused for want of commands only if the first builder made none; what the second adds to `commands` is a top-level command |
| CommandContract.BuildContract | scripts/check_documented_commands.py:176-216 | both builders are interpreted in turn, the second with `commands` bound to the root |
| CommandContract.PrefixClosed | scripts/check_documented_commands.py:239-251 | every prefix of an option-free command path is one |
| CommandContract.MatchingPath | scripts/check_documented_commands.py:239-251 | the greedy match finds the longest option-free command prefix of the tokens, the alias of the first resolved |
| CommandContract.AllowedOptions | scripts/check_documented_commands.py:254-258 | an option is allowed exactly when some prefix of the path has it |
| CommandContract.AllowedGrowsAlongPath | scripts/check_documented_commands.py:254-258 | what a command allows its subcommands allow |
| CommandContract.AliasMeaning | scripts/check_documented_commands.py:245 | the first token, and no other, may go by its other name |
| CommandContract.OptionMeaning | scripts/check_documented_commands.py:281 | a value is cut off at the first equals sign, and only behind two dashes |
| CommandContract.ComplaintsMeaning | scripts/check_documented_commands.py:279-285 | reported is an unknown option for each token that names an option the path does not allow, and nothing else |
| CommandContract.ValidateCommand | scripts/check_documented_commands.py:261-285 | no problem is reported exactly when the line is empty, or starts with the program, its longest command prefix is acceptable and all options behind it are known; a reported option is unknown |
| CommandContract.GrowthKeepsLines | scripts/check_documented_commands.py:239-285 | adding commands or options to the builders never invalidates a documented line |
| TextEdits.EditOnceMeaning | server/notion_agent_tools.py:235-261 | an edit is applied exactly when it is well-formed and its old text has the demanded number of leftmost matches, and then exchanges those |
| TextEdits.RefusalMeaning | server/notion_agent_tools.py:233-261 | which refusal an edit gets, the tests in order, and the numbers a stale one is told: matches asked for, one by default, and matches there are |
| TextEdits.FoldMeaning | server/notion_agent_tools.py:233-262 | an edit list is accepted with a result exactly when a history of such edits leads to it |
| TextEdits.FoldLength | server/notion_agent_tools.py:275-276 | the final length is the original plus the sum of count times the length differences |
| TextEdits.RefusalNamesTheEdit | server/notion_agent_tools.py:236-260 | a refusal names the first edit that does not fit the text left by those before it, and a stale one the true number of matches |
| TextEdits.MirrorUndoes | server/notion_agent_tools.py:248-261 | the mirrored edit undoes an edit whose new text stands nowhere else |
| TextEdits.FoldEdits | server/notion_agent_tools.py:233-262 | the loop computes the fold and records one entry per edit |
| TextEdits.Repository.ApplyEdits | server/notion_agent_tools.py:216-278 | the text first read decides: every refusal and an unchanged text leave the file alone; else the file, whatever the write finds, holds the fold of all edits, is untouched if the write fails at once, or torn if it fails later; no other file changes |
| TextEdits.WrittenIsRead | server/repo_tools.py:920-932 | what an edit writes reads back as the text meant exactly when that has no carriage return |
| TextEdits.UntouchedIsKept | server/repo_tools.py:920-932 | reading and writing back keeps a file exactly when all its line ends are the platform's; else every write changes bytes no edit touched |
| AuthLimiter.SameAnswer | server/app_entry.py:138-150 | the kept list gives the full history's answer at every later moment |
| AuthLimiter.TestIsExact | server/app_entry.py:138-152 | with non-decreasing times of all events - no two requests overlap, or the clock stands - every test answers as if all failures since the last success were counted |
| AuthLimiter.RefusedExactly | server/app_entry.py:138-152 | told by the run alone: a test refuses exactly if there were 30 answers 401 in the 60 seconds before it with no success behind them |
| AuthLimiter.OverlapIsExact | server/app_entry.py:138-195 | so it does for overlapping requests, whose answers carry the time of their own test and come in any order, as long as at most 21 are in flight and tests do not go back in time |
| AuthLimiter.CrowdForgets | server/app_entry.py:138-195 | a run with 22 in flight, all let in, after which a test finds 29 failures where there were 30 |
| AuthLimiter.GoingBackForgets | server/app_entry.py:140-195 | a run of thirty requests that are let in and fail, after which, times having gone back, a test finds none of them |
| AuthLimiter.FailuresAreSpaced | server/app_entry.py:162-195 | with requests served one after the other no 60 seconds see more than 30 failures since the last success |
| AuthLimiter.PassesExactly | server/app_entry.py:162-195 | with requests one after the other each is let in exactly if, of those let in before, fewer than 30 failed in the 60 seconds before it and behind the last success |
| AuthLimiter.Limiter.TooManyFailures | server/app_entry.py:138-142 | the test prunes the client's list, answers whether 30 are left and touches no other client |
| AuthLimiter.Limiter.RecordResult | server/app_entry.py:145-152 | 401 prunes, appends and cuts to 50, success forgets, other answers change nothing |
| AuthLimiter.Limiter.Guard | server/app_entry.py:162-195 | a refused request is answered 429 and not recorded, any other is recorded with its status |
| AuditRotation.RotationDropsOldest | server/app_entry.py:78-92 | a rotation, complete or broken off at any file operation, loses at most the oldest backup |
| AuditRotation.FaultlessRotation | server/app_entry.py:83-89 | a complete rotation is a shift by one that drops only the last slot |
| AuditRotation.AuditMeaning | server/app_entry.py:78-98 | an audit without failures, slot by slot: a base at the limit becomes the first backup and the line begins a new one, a smaller base just gets the line |
| AuditRotation.LogIsSuffix | server/app_entry.py:78-98 | in every run, failing operations included, the files read oldest first are a suffix of everything written |
| AuditRotation.LogIsBounded | server/app_entry.py:78-98 | without failures the log stays within one limit and one line per file |
| AuditRotation.LogKeepsEnough | server/app_entry.py:78-98 | without failures it holds everything or at least the limit times the number of backups |
| AuditRotation.Logger.RotateIfNeeded | server/app_entry.py:78-92 | the loop over the slots in place is the specified rotation |
| AuditRotation.Logger.SecureAudit | server/app_entry.py:95-98 | an audit rotates if due, then appends its line to the base file |
| Watchdog.Streak | scripts/karox_supervisor.py:196-204 | the failure counter always is the number of newest turns in a row that missed a counting heartbeat |
| Watchdog.RestartHasCause | scripts/karox_supervisor.py:196-208 | a heartbeat restart follows exactly `fail_threshold` failed pings in a row, all past the grace time of the present child, with no answer, exit or restart among them |
| Watchdog.RestartsExactly | scripts/karox_supervisor.py:186-211 | both ways, over every run: a child is restarted for its exit exactly when it has exited, and for its silence exactly when this turn and the `fail_threshold - 1` before it failed past its grace time; what a restart changes |
| Watchdog.DeadChildIsRestarted | scripts/karox_supervisor.py:189-208 | a child silent past grace, or exiting, is restarted within `fail_threshold` turns |
| Watchdog.RestartsAreSpaced | scripts/karox_supervisor.py:193-208 | a heartbeat restart is at least the grace time after any earlier restart |
| Watchdog.ChildrenAreCounted | scripts/karox_supervisor.py:146-156 | children started are restarts plus one, or as many as restarts once a child could not be started |
| Watchdog.SurvivorsAreFailedKills | scripts/karox_supervisor.py:122-156 | of the children no longer tracked exactly those live on whose kill failed |
| Watchdog.NoneSurvives | scripts/karox_supervisor.py:122-156 | none does exactly when every heartbeat restart kills its child |
| Watchdog.Supervisor.constructor | scripts/karox_supervisor.py:66-71 | the settings are the arguments clamped to at least one failure and three seconds, no child is tracked |
| Watchdog.Supervisor.StartChild | scripts/karox_supervisor.py:113-120 | a started child is the tracked one |
| Watchdog.Supervisor.KillChildTree | scripts/karox_supervisor.py:122-144 | afterwards no child is tracked; if the kill failed the child lives on, forgotten |
| Watchdog.Supervisor.Restart | scripts/karox_supervisor.py:146-156 | the old child is killed or forgotten alive before the new one comes, and the restart is counted |
| Watchdog.Supervisor.RunLoop | scripts/karox_supervisor.py:175-211 | the loop counts restarts and children as specified; however it ends no child is tracked, and those alive are exactly those whose kill failed, the last included |
| Jobs.NextIsSound | server/karox4_exec.py:247-311 | start, test and conclusion of a refresh, mark of a signal and server restart, in any interleaving of threads, keep exit codes, states, processes, pending conclusions and announcements consistent, in memory and on disk |
| Jobs.RefreshMeaning | server/karox4_exec.py:293-311 | an uninterrupted refresh, in every reachable state: a running job whose process ended with any code is finished or failed with that code, persisted and announced; an orphan whose process is gone is buried unannounced; nothing else changes |
| Jobs.TestMeaning | server/karox4_exec.py:297-308 | the test alone: it finds out exactly that, and changes no job |
| Jobs.ConcludeMeaning | server/karox4_exec.py:301-310 | the conclusion alone, whatever has come between: state, code, file and announcement |
| Jobs.OthersMeaning | server/karox4_exec.py:247-261 | start, mark and server restart: job table, file, processes and announcements spelled out |
| Jobs.AnnouncedTwiceIffOverlap | server/karox4_exec.py:293-311 | over every run, with interleaved threads, failing or torn file writes and restarts, an exit is announced more than once exactly when two refreshes of the job overlap |
| Jobs.TwoPollsAnnounceTwice | server/karox4_exec.py:293-311 | a run of two polls in which it is |
| Jobs.EndsAreAnnounced | server/karox4_exec.py:293-311 | the exit of a finished or failed job has been announced, that of a running one has not; codes fit the states |
| Jobs.NeverRunsAgain | server/karox4_exec.py:247-261 | a job that stopped running, or was forgotten, never runs again |
| Jobs.StoppedIsSilent | server/karox4_exec.py:455-487 | a job that no longer runs - signalled, orphaned or forgotten - has its exit announced exactly when a refresh concludes that had seen the end while it ran |
| Jobs.SignalledIsAnnounced | server/karox4_exec.py:455-487 | a run in which a job announces its exit after its signal, and ends as finished |
| Jobs.StepAdvances | server/karox4_exec.py:240-311 | as long as the file can be written a step moves every job on, or leaves it, exactly when it does not conclude a refresh overtaken by a signal |
| Jobs.LifeOnlyMovesOn | server/karox4_exec.py:240-311 | so as long as no refresh is overtaken no job is forgotten, states only move on and an exit code stays |
| Jobs.LostWriteForgetsTheExit | server/karox4_exec.py:240-258 | a lost write and a restart that lose a recorded exit code |
| Jobs.JobServer.TestJob | server/karox4_exec.py:297-308 | the test of a refresh: an end to record, a dead orphan to bury, or nothing |
| Jobs.JobServer.ConcludeJob | server/karox4_exec.py:301-310 | the conclusion: recorded, persisted and announced whatever has happened to the job since |
| Jobs.JobServer.RefreshOne | server/karox4_exec.py:293-311 | refreshing without interruption: test, then conclusion |
| Jobs.JobServer.JobStart | server/karox4_exec.py:348-362 | a new job runs, is persisted and announced |
| Jobs.JobServer.MarkSignalled | server/karox4_exec.py:483-486 | the end of a signal request marks, persists and announces, whatever the state |
| Jobs.JobServer.JobSignal | server/karox4_exec.py:455-487 | without interruption a known job is refreshed and then marked; an unknown one is not found |
| Jobs.JobServer.RestartServer | server/karox4_exec.py:247-261 | a new server knows no processes and takes the table on disk, running jobs as orphans |
| SupportBundle.ReplaceSecretsLoop | scripts/support_bundle.py:188-189 | the loop over the known secrets is the fold of replacements |
| SupportBundle.OccursInJoin | scripts/support_bundle.py:189 | text with the marker put in holds a secret that fits nowhere over the marker only inside one of the pieces around it |
| SupportBundle.NoSecretSurvives | scripts/support_bundle.py:188-189 | if no secret fits over the marker at any overlap, none is left anywhere, in whatever order they are replaced |
| SupportBundle.LeaksAmongExactly | scripts/support_bundle.py:188-189 | a secret of at least eight letters can be left in some text with some known secrets, collected and ordered as in the program, exactly when it fits over the marker |
| SupportBundle.CompanyLeaks | scripts/support_bundle.py:188-189 | if it fits, it comes back even in a text that did not hold it, through the marker for a secret without its letters |
| SupportBundle.LeaksExactly | scripts/support_bundle.py:189 | a single secret, any at all, can come back exactly when it fits over the marker at an overlap that the scan reaches past the part in front |
| SupportBundle.TouchingLeaks | scripts/support_bundle.py:189 | so a secret that does not overlap itself leaks exactly when it fits over the marker |
| SupportBundle.PlainIsSeparate | scripts/support_bundle.py:189 | a secret without bracket that is not inside the marker's word fits nowhere |
| SupportBundle.BracketsLeakInCompany | scripts/support_bundle.py:188-189 | eight opening brackets fit over the marker and never come back alone, but do when another secret of eight letters is replaced after them |
| SupportBundle.MarkerWordLeaks | scripts/support_bundle.py:189 | every secret inside the marker's word is put in by the marker |
| SupportBundle.BracketLeaks | scripts/support_bundle.py:189 | every longer secret that starts with the marker's closing bracket is completed by it |
| SupportBundle.AcceptsScrubbed | scripts/support_bundle.py:203-222 | the validator accepts scrubbed output exactly when every text read comes to rest under scrubbing; keys, nesting, tuples and cut lists are never the reason |
| SupportBundle.AcceptedAreFixedPoints | scripts/support_bundle.py:310-336 | on trees within the caps the validator accepts exactly what the scrubber leaves as it is |
| SupportBundle.ScrubbedIsSafe | scripts/support_bundle.py:178-222 | with idempotent rules and texts within the cap, scrubbed output passes the validator and none of its scrubbed texts holds a known secret |
| SupportBundle.AcceptsMeaning | scripts/support_bundle.py:310-336 | what the validator accepts: the two fixed words under secret and private keys, a text exactly if scrubbing it with one letter to spare gives it back, lists and dictionaries if all in them is accepted, tuples and other values as they are |
| SupportBundle.ScrubMeaning | scripts/support_bundle.py:178-222 | what is left of a value: the two fixed words under secret and private keys, texts through all stages and cut at 8,000, the first 500 items of a list or tuple, all keys of a dictionary in order |
| GuardedCommit.CleanupMeaning | server/repo_tools.py:750-773 | whatever git lists, a file ends as in the index exactly when it was so before, or is generated, listed, come to and successfully cleaned; every other file stays |
| GitListing.ListingIsComplete | server/repo_tools.py:1102-1103 | of distinct plain paths in git's listing the program sees all exactly when they print in 300,000 characters, and then in order |
| GitListing.LineIsRead | server/repo_tools.py:1102-1103 | line by line: what stands in front of any line end of Python, "\r\n" being one, or of the end of the text, is a path as it is normalised, unless it is all white |
| GitListing.ListedEnds | server/repo_tools.py:1102-1103 | else it sees those whose lines are whole in the last 300,000 characters, in order, behind at most a piece of one more |
| GitListing.RelNormMeaning | server/repo_tools.py:333-334 | a path is normalised to the stretch without slashes of either kind at its ends, with those left all turned the one way |
| GuardedCommit.RequestDecides | server/repo_tools.py:1076-1101 | exactly when a request ends for an empty message or path list, a path - the first - that fails its tests, a cleanup that raises, or a failing `add` |
| GuardedCommit.CommitDecides | server/repo_tools.py:1102-1124 | past these, exactly when it ends for unrequested paths - and which -, nothing staged, a failing diff check, failing prechecks or a failing commit; it commits exactly when all tests pass, and lists what the program has seen |
| GuardedCommit.WorkDecides | server/repo_tools.py:1091-1121 | what each ending leaves of the working tree: the prechecks' one once they have run, else the old one with cleaned files restored |
| GuardedCommit.CommitIsVetted | server/repo_tools.py:1076-1126 | what a commit lists is requested and vetted, and what it changes among the requested has the vetted content, whatever cleanup and prechecks do; other paths it can only change unlisted |
| GuardedCommit.ShownCommitIsVetted | server/repo_tools.py:1076-1126 | with plain paths and a listing that fits, a commit changes HEAD in a non-empty set of requested and vetted paths, to exactly the content that was vetted |
| GuardedCommit.HiddenPathsDecide | server/repo_tools.py:1102-1124 | where git prints plainly what is staged, a commit stays within the request exactly when every path whose line is not whole in the last 300,000 characters was requested |
| GuardedCommit.HiddenPathsAreCommitted | server/repo_tools.py:1101-1124 | for any paths with 300,000 characters of others behind them: all are committed, and only the others seen |
| GuardedCommit.HiddenPathIsCommitted | server/repo_tools.py:1101-1124 | a run: a directory and 1,200 files in it are requested, and a sensitive file of the directory is committed with them, unasked |
| GuardedCommit.CommitIsExact | server/repo_tools.py:1098-1122 | if `add` stages just the requested paths the new tree is the old one (the old index, if `reset` failed) with their vetted content |
| GuardedCommit.RefusalIsClean | server/repo_tools.py:1092-1121 | refusals leave HEAD alone, early ones all of git; a cleanup that raises - exactly when one of the listed generated files does - leaves the index; those for unexpected paths, diff check and prechecks leave nothing staged exactly when their `reset` works or nothing was staged, that for an empty listing exactly when nothing was staged |
| GuardedCommit.FailedListingLeavesStaged | server/repo_tools.py:1102-1110 | an empty listing over a staged path: "nothing staged" is answered and the path stays staged |
| GuardedCommit.FailureLeavesStaged | server/repo_tools.py:1099-1124 | a failing `add` leaves staged what it has added by then, as far as it differs from HEAD; a failing commit leaves a non-empty set of requested paths staged if the listing shows them, and an unrequested one exactly when it hides it |
| GuardedCommit.Repository.CleanupGenerated | server/repo_tools.py:750-773 | the loop over the changed paths cleans them one by one, passes over a failing restore and stops at one that raises |
| GuardedCommit.Repository.GitCommit | server/repo_tools.py:1076-1126 | the endpoint's steps in order, with its outcome |
| GuardedCommit.SplitHunks | server/karox4_git.py:416-428 | the diff is cut in front of every line that opens a hunk, header and hunks give it back, and they are those of the specification |
| GuardedCommit.GroupLines | server/karox4_git.py:420-428 | the loop keeps all lines in order, in a head without hunk and groups of one hunk each |
| GuardedCommit.SplitIsUnique | server/karox4_git.py:416-428 | there is only one such cut |
| GuardedCommit.ChooseAll | server/karox4_git.py:462-467 | choosing all hunks in order makes the whole diff |
| GuardedCommit.SelectHunks | server/karox4_git.py:462-467 | the loop over the indexes gives the chosen hunks in the requested order, or the first index without hunk |
| GuardedCommit.HunkRequestDecides | server/karox4_git.py:453-466 | exactly when a request for hunks ends in front of the patch, and that the first index without hunk is named |
| GuardedCommit.PatchDecides | server/karox4_git.py:467-493 | the patch is the header and the hunks asked for, in that order, ended by a line break; secret, failing apply, other staged paths and failing commit decide the answer in this order, with the trees each leaves |
| GuardedCommit.HunkCommitIsExact | server/karox4_git.py:451-493 | a commit takes the index that header and chosen hunks make of HEAD, for an allowed path and without secret; it changes that path alone exactly when the one listed path is all that differs |
| GuardedCommit.HunkRefusals | server/karox4_git.py:451-483 | refusals leave HEAD and the working tree alone, those before staging the index too; an index is refused exactly when it is out of range; a patch that does not apply leaves nothing staged if the `reset` works |
| GuardedCommit.HunkFailureLeavesStaged | server/karox4_git.py:484-493 | unexpected paths leave the patch staged exactly when the later `reset` fails; a failing commit leaves the patched index, with the one path staged if the listing shows what is |
| GuardedCommit.Repository.CommitHunks | server/karox4_git.py:443-504 | the endpoint's steps in order, with its outcome |
| RepositoryLease.NextIsSound | src/karox/repository_lease.py:265-492 | process births and deaths and all lease operations keep every outstanding lease the one on file |
| RepositoryLease.AtMostOneLease | src/karox/repository_lease.py:373-440 | in every run at most one lease is outstanding, whatever process ids are reused, markers unreadable and times elapsed |
| RepositoryLease.OthersAreTurnedAway | src/karox/repository_lease.py:389-421 | while a lease is outstanding its client gets it refreshed and any other a conflict, if the requested lifetime is allowed at all |
| RepositoryLease.HolderIsServed | src/karox/repository_lease.py:265-492 | in every run an outstanding lease validates, a heartbeat moves exactly its two times, and giving it back empties the file and ends it |
| RepositoryLease.ProcessesMatter | src/karox/repository_lease.py:279-288 | with a process exactly its own leases end; a new one with the same id brings none back |
| RepositoryLease.AcquireMeaning | src/karox/repository_lease.py:373-440 | all four answers of acquire with their conditions and the lease that is then on file, field by field |
| RepositoryLease.TimeDecidesNothing | src/karox/repository_lease.py:414-421 | read off the step: acquiring does not depend on the heartbeat or expiry time of the existing lease |
| RepositoryLease.DeadOwnerIsReplaced | src/karox/repository_lease.py:420-440 | a dead owner, or one whose id was reused by a process with another marker, is replaced |
| RepositoryLease.FencedForever | src/karox/repository_lease.py:265-277 | a lease that has left the file never returns to it |
| RepositoryLease.FencedIsPowerless | src/karox/repository_lease.py:442-492 | read off the step: such a lease neither validates nor renews, and releasing it changes nothing |
| RepositoryLease.ValidMeansHolder | src/karox/repository_lease.py:265-277 | read off the step and the invariant: a validation that succeeds names the one lease on file, and no other is outstanding |
| RepositoryLease.ValidateMeaning | src/karox/repository_lease.py:265-288 | a validation succeeds exactly if the lease is on file and its process seems alive with no other creation marker; else which of the two failed |
| RepositoryLease.LeaseStore.DoAcquire | src/karox/repository_lease.py:373-440 | acquire under the file lock: lifetime out of range, refresh, conflict, or a new lease |
| RepositoryLease.LeaseStore.DoHeartbeat | src/karox/repository_lease.py:442-474 | a heartbeat renews the lease on file if it is the caller's |
| RepositoryLease.LeaseStore.DoRelease | src/karox/repository_lease.py:476-492 | a release removes the lease on file if it is the caller's |
| RepositoryLease.LeaseStore.DoValidate | src/karox/repository_lease.py:265-277 | validation: lost, owner dead, or still the fence |

## Left out

- JSON decoding, UTF-8 replacement and the text of messages in the debug bridge: payloads are raw bytes and decoding is a parameter; replies whose request_seq is no integer have no place in the response map of the model.
- The limit of 4300 digits that newer Python versions put on `int`: a longer Content-Length is read like any other.
- The waiting time of a request and how asyncio resumes waiters: granting and giving up a wait are one step each, in any order.
- Requests run on threads without locks. Interleaved are job requests and authentication tests (above), arrivals and grants of the queue, and lease operations, which have a lock. Elsewhere a request, or a step of it, is one piece:
- Interleaved requests with the same idempotency key: lookup and store are separate steps in the program, so two of them may both run the handler.
- DapSession.ExchangeIsOrderly: taking the next number is one step, while the program adds and reads in two (server/karox4_debug.py:265-266), so two requests at once can get the same number, and their frames can mix.
- DapSession.PollIsExact: a poll is one step, while the program copies and then clears (server/karox4_debug.py:293-294), so an event that arrives in between is lost.
- EventBus.EventBus.EmitEvent: one step, while the program counts and appends in three (server/karox4_core.py:388-390), so two at once can get the same id or stand out of order.
- Conclusion and mark of a job are one step each with their write and event; two writes of the job file at once are not modelled.
- Writing the idempotency store to its file and entries in the file that are no entries.
- IdempotencyStore.RunsOnce: entries in the file without a dictionary keep their place when their key is stored, so with such entries store times must increase strictly.
- Reading the documents and splitting command lines into tokens: tokens are the input of the command check.
- Syntax the interpreter does not look at (async loops, match, nested functions) is one statement without effect.
- Snippets, line ranges and the other tools beside the edit tool: easy members.
- DapSession.DapReader.Read: a thread that has raised keeps no buffer; the program's buffer is a local variable of the ended thread.
- AuditRotation.LogIsSuffix: a line is written whole or not at all.
- Watchdog.Supervisor.RunLoop: the first child can always be started, and a stop signal arrives between two turns. A process whose kill failed may end later by itself.
- How a child process tree is killed (whether it works is an input), log files and the pid file of the supervisor.
- TextEdits.Repository.ApplyEdits: reading and writing are two requests, and what others write in between is overwritten; the translation of line ends is modelled, the replacement of undecodable bytes is not.
- Resources, log tails and the sending of signals to a job's process.
- SupportBundle.ScrubbedIsSafe: is about texts the scrubber reads; keys and the two fixed words put in for whole fields are not scrubbed.
- Patterns, entropy and URL rewriting of the scrubber are parameters; that they are idempotent is a premise.
- Directories in `git status` and renames: paths are files. Checks and hooks do not touch the index; the prechecks may change the working tree. Nobody else uses git between the steps of one commit.
- GitListing.ListingIsComplete: paths that git quotes (control characters, and by default all beyond ASCII) or that the program rewrites are not plain; they are read as other paths.
- RepositoryLease.AtMostOneLease: two processes of the same session, task and connection share one lease, as in the program; a living process is never reported dead, and no creation marker of a process is used twice - on POSIX it is a start time in clock ticks since boot, which can recur after a reboot.
- SupportBundle.LeaksAmongExactly: for secrets that do not use every letter there is.
- Unreadable lease files (acquire and validate raise without effect) and the retries of the reader.
- The orchestration planner, routing, provider adapters and terminal interface of `src/karox`.
