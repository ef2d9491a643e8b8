/** The audit log: one base file and numbered backups, shifted by one when the base has
    grown too large. Slot 0 is the base, slot k the backup with suffix `.k`; a file is the
    sequence of its lines, and a missing slot is a missing file. */
module AuditRotation {
  import opened Text

  type Disk = map<nat, seq<string>>

  datatype Settings = Settings(maxBytes: int, backups: nat)

  function Size(lines: seq<string>): nat
  {
    if lines == [] then 0 else Size(lines[..|lines| - 1]) + |lines[|lines| - 1]|
  }

  /** The steps of the loop from `index` on; `ops` file operations succeed before one fails
      and the rotation is given up. */
  function RotateFrom(disk: Disk, index: nat, ops: nat): Disk
    decreases index
  {
    if index == 0 then disk
    else if index in disk && ops == 0 then disk
    else
      var freed := disk - {index};
      var left := if index in disk then ops - 1 else ops;
      if index - 1 !in freed then RotateFrom(freed, index - 1, left)
      else if left == 0 then freed
      else RotateFrom(freed[index := freed[index - 1]] - {index - 1}, index - 1, left - 1)
  }

  predicate Due(s: Settings, disk: Disk)
  {
    0 in disk && Size(disk[0]) >= s.maxBytes
  }

  function Append(disk: Disk, line: string): Disk
  {
    disk[0 := (if 0 in disk then disk[0] else []) + [line]]
  }

  /** One audit: `ops` as above, `written` whether the line itself gets to the file. */
  datatype Event = Event(line: string, ops: nat, written: bool)

  function Audit(s: Settings, disk: Disk, e: Event): Disk
  {
    var rotated := if Due(s, disk) then RotateFrom(disk, s.backups, e.ops) else disk;
    if e.written then Append(rotated, e.line) else rotated
  }

  function Run(s: Settings, events: seq<Event>): Disk
  {
    if events == [] then map[] else Audit(s, Run(s, events[..|events| - 1]), events[|events| - 1])
  }

  /** Every line ever written. */
  function Written(events: seq<Event>): seq<string>
  {
    if events == [] then []
    else
      var last := events[|events| - 1];
      Written(events[..|events| - 1]) + (if last.written then [last.line] else [])
  }

  /** The lines of slots `top`, ..., 1, 0: oldest first. */
  function Lines(disk: Disk, top: nat): seq<string>
  {
    (if top in disk then disk[top] else []) + (if top == 0 then [] else Lines(disk, top - 1))
  }

  // ---------------------------------------------------------------- rotation

  lemma LinesTop(disk: Disk, top: nat)
    requires top > 0
    ensures Lines(disk, top) == (if top in disk then disk[top] else []) + Lines(disk, top - 1)
    ensures top !in disk ==> Lines(disk, top) == Lines(disk, top - 1)
  {
  }

  lemma {:induction false} LinesOutside(a: Disk, b: Disk, top: nat)
    requires forall k :: 0 <= k <= top ==> (k in a <==> k in b) && (k in a ==> a[k] == b[k])
    ensures Lines(a, top) == Lines(b, top)
  {
    if top > 0 { LinesOutside(a, b, top - 1); }
  }

  /** Files above `index` do not change once the loop has come down to it. */
  lemma {:induction false} AboveIsDone(disk: Disk, index: nat, ops: nat, k: nat)
    requires k > index
    ensures var r := RotateFrom(disk, index, ops); (k in r <==> k in disk) && (k in r ==> r[k] == disk[k])
    decreases index
  {
    if index > 0 && !(index in disk && ops == 0) {
      var freed := disk - {index};
      var left := if index in disk then ops - 1 else ops;
      if index - 1 !in freed {
        AboveIsDone(freed, index - 1, left, k);
      } else if left > 0 {
        AboveIsDone(freed[index := freed[index - 1]] - {index - 1}, index - 1, left - 1, k);
      }
    }
  }

  /** The file below moved up into the free slot. */
  function Moved(disk: Disk, index: nat): Disk
    requires index > 0 && index - 1 in disk
  {
    disk[index := disk[index - 1]] - {index - 1}
  }

  lemma RotateOnce(disk: Disk, index: nat, ops: nat)
    requires index > 0 && index !in disk
    ensures RotateFrom(disk, index, ops) ==
            if index - 1 !in disk then RotateFrom(disk, index - 1, ops)
            else if ops == 0 then disk
            else RotateFrom(Moved(disk, index), index - 1, ops - 1)
  {
    assert disk - {index} == disk;
  }

  /** Below its top slot the loop only moves files into free slots: no line is lost. */
  lemma {:induction false} ShiftingKeepsLines(disk: Disk, index: nat, ops: nat)
    requires index !in disk
    ensures Lines(RotateFrom(disk, index, ops), index) == Lines(disk, index)
    decreases index
  {
    if index == 0 {
      assert RotateFrom(disk, index, ops) == disk;
    } else {
      hide Lines, RotateFrom, Moved;
      RotateOnce(disk, index, ops);
      if index - 1 !in disk {
        ShiftingKeepsLines(disk, index - 1, ops);
        GapKeepsLines(disk, index, ops);
      } else if ops > 0 {
        MovedIsFree(disk, index);
        ShiftingKeepsLines(Moved(disk, index), index - 1, ops - 1);
        MoveKeepsLines(disk, index, ops);
      }
    }
  }

  lemma MovedIsFree(disk: Disk, index: nat)
    requires index > 0 && index - 1 in disk
    ensures index - 1 !in Moved(disk, index)
    ensures index in Moved(disk, index) && Moved(disk, index)[index] == disk[index - 1]
  {
  }

  lemma GapKeepsLines(disk: Disk, index: nat, ops: nat)
    requires index > 0 && index !in disk
    requires Lines(RotateFrom(disk, index - 1, ops), index - 1) == Lines(disk, index - 1)
    ensures Lines(RotateFrom(disk, index - 1, ops), index) == Lines(disk, index)
  {
    hide Lines, RotateFrom;
    AboveIsDone(disk, index - 1, ops, index);
    LinesTop(RotateFrom(disk, index - 1, ops), index);
    LinesTop(disk, index);
  }

  lemma MoveKeepsLines(disk: Disk, index: nat, ops: nat)
    requires index > 0 && index !in disk && index - 1 in disk && ops > 0
    requires Lines(RotateFrom(Moved(disk, index), index - 1, ops - 1), index - 1) ==
               Lines(Moved(disk, index), index - 1)
    ensures Lines(RotateFrom(Moved(disk, index), index - 1, ops - 1), index) == Lines(disk, index)
  {
    hide Lines, RotateFrom, Moved;
    AboveIsDone(Moved(disk, index), index - 1, ops - 1, index);
    MovedIsFree(disk, index);
    LinesTop(RotateFrom(Moved(disk, index), index - 1, ops - 1), index);
    MovedLines(disk, index);
  }

  lemma MovedLines(disk: Disk, index: nat)
    requires index > 0 && index !in disk && index - 1 in disk
    ensures disk[index - 1] + Lines(Moved(disk, index), index - 1) == Lines(disk, index)
  {
    var moved := Moved(disk, index);
    LinesTop(disk, index);
    if index == 1 {
      assert Lines(moved, 0) == [] + [] && Lines(disk, 0) == disk[0] + [];
    } else {
      LinesTop(disk, index - 1);
      LinesTop(moved, index - 1);
      LinesOutside(moved, disk, index - 2);
    }
  }

  /** A rotation, complete or broken off anywhere, can only lose the oldest backup. */
  lemma RotationDropsOldest(disk: Disk, top: nat, ops: nat)
    requires top > 0
    ensures var r := RotateFrom(disk, top, ops);
            || Lines(r, top) == Lines(disk, top)
            || (top in disk && Lines(disk, top) == disk[top] + Lines(r, top))
  {
    if top in disk && ops > 0 {
      var freed := disk - {top};
      assert freed - {top} == freed;
      assert RotateFrom(disk, top, ops) == RotateFrom(freed, top, ops - 1);
      hide RotateFrom, Lines;
      ShiftingKeepsLines(freed, top, ops - 1);
      LinesOutside(freed, disk, top - 1);
      LinesTop(freed, top);
      LinesTop(disk, top);
    } else if top !in disk {
      ShiftingKeepsLines(disk, top, ops);
    }
  }

  /** With no failing operation a rotation is exactly a shift by one. */
  lemma {:induction false} RotationShifts(disk: Disk, index: nat, ops: nat, k: nat)
    requires ops >= 2 * index && k <= index && (index == 0 ==> 0 !in disk)
    ensures var r := RotateFrom(disk, index, ops);
            && (k in r <==> k > 0 && k - 1 in disk)
            && (k in r ==> r[k] == disk[k - 1])
    decreases index
  {
    if index > 0 {
      var freed := disk - {index};
      var left := if index in disk then ops - 1 else ops;
      var next := if index - 1 in freed then freed[index := freed[index - 1]] - {index - 1} else freed;
      var budget := if index - 1 in freed then left - 1 else left;
      assert RotateFrom(disk, index, ops) == RotateFrom(next, index - 1, budget);
      AboveIsDone(next, index - 1, budget, index);
      if k < index { RotationShifts(next, index - 1, budget, k); }
    }
  }

  // ---------------------------------------------------------------- the log is a suffix

  lemma {:induction false} AppendLines(disk: Disk, line: string, top: nat)
    ensures Lines(Append(disk, line), top) == Lines(disk, top) + [line]
  {
    if top > 0 { AppendLines(disk, line, top - 1); }
  }

  /** Main result: in every run, failing file operations included, the files read oldest
      first are a suffix of everything ever written. */
  lemma {:induction false} LogIsSuffix(s: Settings, events: seq<Event>)
    requires s.backups > 0
    ensures IsSuffix(Lines(Run(s, events), s.backups), Written(events))
    decreases |events|
  {
    hide IsSuffix, Lines, RotateFrom;
    if events == [] {
      NoLines(s.backups);
      SuffixOfNone();
    } else {
      var before, e := events[..|events| - 1], events[|events| - 1];
      LogIsSuffix(s, before);
      var disk := Run(s, before);
      RotationDropsOldest(disk, s.backups, e.ops);
      var rotated := if Due(s, disk) then RotateFrom(disk, s.backups, e.ops) else disk;
      AppendLines(rotated, e.line, s.backups);
      var lines, all := Lines(rotated, s.backups), Written(before);
      if s.backups in disk { SuffixDrops(disk[s.backups], lines, all); }
      SuffixAppend(lines, all, e.line);
      assert all + [] == all;
    }
  }

  lemma SuffixOfNone()
    ensures IsSuffix<string>([], [])
  {
  }

  lemma SuffixDrops(dropped: seq<string>, part: seq<string>, whole: seq<string>)
    ensures IsSuffix(dropped + part, whole) ==> IsSuffix(part, whole)
  {
    if IsSuffix(dropped + part, whole) {
      assert part == (dropped + part)[|dropped|..];
    }
  }

  lemma SuffixAppend(part: seq<string>, whole: seq<string>, line: string)
    requires IsSuffix(part, whole)
    ensures IsSuffix(part + [line], whole + [line])
  {
  }

  lemma {:induction false} NoLines(top: nat)
    ensures Lines(map[], top) == []
  {
    if top > 0 { NoLines(top - 1); }
  }

  // ---------------------------------------------------------------- size

  /** No operation of the run fails. */
  predicate Faultless(s: Settings, events: seq<Event>)
  {
    forall i :: 0 <= i < |events| ==> events[i].written && events[i].ops >= 2 * s.backups
  }

  predicate Bounded(events: seq<Event>, longest: nat)
  {
    forall i :: 0 <= i < |events| ==> |events[i].line| <= longest
  }

  /** Backups were full when they were cut off, stand without a gap, and no file is larger
      than the limit and one line. */
  ghost predicate Tidy(s: Settings, disk: Disk, longest: nat)
  {
    && (forall k :: k in disk ==> k <= s.backups)
    && (forall k :: k in disk ==> Size(disk[k]) <= Max0(s.maxBytes) + longest)
    && (forall k :: k in disk && k > 0 ==> Size(disk[k]) >= s.maxBytes)
    && (forall k :: k in disk && k > 0 ==> k - 1 in disk)
  }

  /** `rotated` is `disk` shifted by one. */
  ghost predicate Shifted(s: Settings, disk: Disk, rotated: Disk)
  {
    forall k: nat ::
      && (k in rotated <==> 0 < k <= s.backups && k - 1 in disk)
      && (k in rotated ==> rotated[k] == disk[k - 1])
  }

  lemma FaultlessRotation(s: Settings, disk: Disk, ops: nat)
    requires ops >= 2 * s.backups && s.backups > 0 && forall k :: k in disk ==> k <= s.backups
    ensures Shifted(s, disk, RotateFrom(disk, s.backups, ops))
  {
    var rotated := RotateFrom(disk, s.backups, ops);
    forall k: nat
      ensures k in rotated <==> 0 < k <= s.backups && k - 1 in disk
      ensures k in rotated ==> rotated[k] == disk[k - 1]
    {
      if k <= s.backups {
        RotationShifts(disk, s.backups, ops, k);
      } else {
        AboveIsDone(disk, s.backups, ops, k);
      }
    }
  }

  /** Main result on one audit with no failing operation: a base that has reached the limit
      becomes the first backup, each backup the next, the last is dropped, and the line
      begins a new base; a smaller base just gets the line. */
  lemma AuditMeaning(s: Settings, disk: Disk, e: Event)
    requires s.backups > 0 && forall k :: k in disk ==> k <= s.backups
    requires e.written && e.ops >= 2 * s.backups
    ensures var after := Audit(s, disk, e);
            && (0 !in disk ==> after == disk[0 := [e.line]])
            && (0 in disk && Size(disk[0]) < s.maxBytes ==> after == disk[0 := disk[0] + [e.line]])
            && (0 in disk && s.maxBytes <= Size(disk[0]) ==>
                  && 0 in after && after[0] == [e.line]
                  && forall k: nat :: k > 0 ==>
                       && (k in after <==> k <= s.backups && k - 1 in disk)
                       && (k in after ==> after[k] == disk[k - 1]))
  {
    hide RotateFrom, Size;
    FaultlessRotation(s, disk, e.ops);
    assert [] + [e.line] == [e.line];
  }

  lemma SizeSnoc(lines: seq<string>, line: string)
    ensures Size(lines + [line]) == Size(lines) + |line|
  {
    assert (lines + [line])[..|lines|] == lines;
  }

  lemma AuditIsTidy(s: Settings, disk: Disk, e: Event, longest: nat)
    requires s.backups > 0 && Tidy(s, disk, longest)
    requires e.written && e.ops >= 2 * s.backups && |e.line| <= longest
    ensures Tidy(s, Audit(s, disk, e), longest)
  {
    hide RotateFrom, Size;
    assert Size([]) == 0 by { SizeOfNone(); }
    if Due(s, disk) {
      var rotated := RotateFrom(disk, s.backups, e.ops);
      FaultlessRotation(s, disk, e.ops);
      assert 0 !in rotated;
      SizeSnoc([], e.line);
      assert Append(rotated, e.line) == rotated[0 := [] + [e.line]];
    } else {
      SizeSnoc(if 0 in disk then disk[0] else [], e.line);
    }
  }

  lemma SizeOfNone()
    ensures Size([]) == 0
  {
  }

  lemma {:induction false} RunIsTidy(s: Settings, events: seq<Event>, longest: nat)
    requires s.backups > 0 && Faultless(s, events) && Bounded(events, longest)
    ensures Tidy(s, Run(s, events), longest)
    decreases |events|
  {
    if events != [] {
      RunIsTidy(s, events[..|events| - 1], longest);
      AuditIsTidy(s, Run(s, events[..|events| - 1]), events[|events| - 1], longest);
    }
  }

  lemma {:induction false} SizeConcat(a: seq<string>, b: seq<string>)
    ensures Size(a + b) == Size(a) + Size(b)
    decreases |b|
  {
    if b == [] {
      assert a + b == a;
    } else {
      var n := |b| - 1;
      assert (a + b)[..|a| + n] == a + b[..n];
      SizeConcat(a, b[..n]);
    }
  }

  lemma OneTimesMore(k: int, n: int)
    ensures k * n == (k - 1) * n + n
  {
  }

  lemma {:induction false} LinesSize(disk: Disk, top: nat, each: nat)
    requires forall k :: k in disk ==> Size(disk[k]) <= each
    ensures Size(Lines(disk, top)) <= (top + 1) * each
  {
    var own := if top in disk then disk[top] else [];
    OwnSize(disk, top, each);
    hide Size;
    if top == 0 {
      assert Lines(disk, 0) == own + [] == own;
    } else {
      LinesTop(disk, top);
      hide Lines;
      var below := Lines(disk, top - 1);
      SizeConcat(own, below);
      LinesSize(disk, top - 1, each);
      AddFile(top, each, Size(own), Size(below));
    }
  }

  lemma OwnSize(disk: Disk, top: nat, each: nat)
    requires forall k :: k in disk ==> Size(disk[k]) <= each
    ensures Size(if top in disk then disk[top] else []) <= each
  {
  }

  lemma AddFile(top: nat, each: nat, own: nat, below: nat)
    requires own <= each && below <= top * each
    ensures own + below <= (top + 1) * each
  {
  }

  /** The whole log stays within one limit and one line per file. */
  lemma LogIsBounded(s: Settings, events: seq<Event>, longest: nat)
    requires s.backups > 0 && Faultless(s, events) && Bounded(events, longest)
    ensures Size(Lines(Run(s, events), s.backups)) <= (s.backups + 1) * (Max0(s.maxBytes) + longest)
  {
    RunIsTidy(s, events, longest);
    LinesSize(Run(s, events), s.backups, Max0(s.maxBytes) + longest);
  }

  // ---------------------------------------------------------------- nothing is dropped early

  lemma {:induction false} FullBackups(s: Settings, disk: Disk, longest: nat, top: nat)
    requires Tidy(s, disk, longest) && top in disk && s.maxBytes >= 0
    ensures Size(Lines(disk, top)) >= top * s.maxBytes
  {
    hide Size;
    if top > 0 {
      SizeConcat(disk[top], Lines(disk, top - 1));
      FullBackups(s, disk, longest, top - 1);
      OneTimesMore(top, s.maxBytes);
    }
  }

  /** Either nothing has been lost yet, or the oldest slot is filled. */
  ghost predicate CompleteOrFull(s: Settings, disk: Disk, written: seq<string>)
  {
    Lines(disk, s.backups) == written || s.backups in disk
  }

  lemma {:induction false} RunIsCompleteOrFull(s: Settings, events: seq<Event>, longest: nat)
    requires s.backups > 0 && Faultless(s, events) && Bounded(events, longest)
    ensures CompleteOrFull(s, Run(s, events), Written(events))
    decreases |events|
  {
    if events == [] {
      NoLines(s.backups);
    } else {
      var before, e := events[..|events| - 1], events[|events| - 1];
      RunIsCompleteOrFull(s, before, longest);
      RunIsTidy(s, before, longest);
      var disk := Run(s, before);
      var rotated := if Due(s, disk) then RotateFrom(disk, s.backups, e.ops) else disk;
      AppendLines(rotated, e.line, s.backups);
      if Due(s, disk) {
        RotationShifts(disk, s.backups, e.ops, s.backups);
        RotationDropsOldest(disk, s.backups, e.ops);
      }
    }
  }

  /** The lower bound: as long as the limit is not negative, the log holds all that was
      written or at least `backups` times the limit. */
  lemma LogKeepsEnough(s: Settings, events: seq<Event>, longest: nat)
    requires s.backups > 0 && s.maxBytes >= 0 && Faultless(s, events) && Bounded(events, longest)
    ensures var lines := Lines(Run(s, events), s.backups);
            lines == Written(events) || Size(lines) >= s.backups * s.maxBytes
  {
    RunIsCompleteOrFull(s, events, longest);
    RunIsTidy(s, events, longest);
    if s.backups in Run(s, events) { FullBackups(s, Run(s, events), longest, s.backups); }
  }

  // ---------------------------------------------------------------- the logger

  class Logger {
    const settings: Settings
    var disk: Disk

    constructor (settings: Settings)
      ensures this.settings == settings && disk == map[]
    {
      this.settings := settings;
      disk := map[];
    }

    method RotateIfNeeded(ops: nat)
      modifies this
      ensures disk == if Due(settings, old(disk)) then RotateFrom(old(disk), settings.backups, ops) else old(disk)
    {
      if 0 !in disk || Size(disk[0]) < settings.maxBytes { return; }
      var index, left := settings.backups, ops;
      while index > 0
        invariant RotateFrom(disk, index, left) == RotateFrom(old(disk), settings.backups, ops)
      {
        if index in disk {
          if left == 0 { return; }
          disk, left := disk - {index}, left - 1;
        }
        assert disk - {index} == disk;
        if index - 1 in disk {
          if left == 0 { return; }
          disk, left := disk[index := disk[index - 1]] - {index - 1}, left - 1;
        }
        index := index - 1;
      }
    }

    method SecureAudit(e: Event)
      modifies this
      ensures disk == Audit(settings, old(disk), e)
    {
      RotateIfNeeded(e.ops);
      if e.written { disk := disk[0 := (if 0 in disk then disk[0] else []) + [e.line]]; }
    }
  }
}
