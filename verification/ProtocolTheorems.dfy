/** What the protocol guarantees in every reachable state, for any number of writers and any interleaving. */
module ProtocolTheorems {
  import opened Wrappers
  import opened Shards
  import opened Protocol
  import opened ProtocolInvariant

  /** Reached by some run of some number of writers, all with one size limit, from an empty directory. */
  ghost predicate Reachable(s: State) {
    exists states, steps, limit, writers, horizon ::
      IsRun(states, steps) && states[0] == Init(limit, writers, horizon) && s == states[|steps|]
  }

  lemma ReachableIsInvariant(s: State)
    requires Reachable(s)
    ensures Inv(s)
  {
    var states, steps, limit, writers, horizon :|
      IsRun(states, steps) && states[0] == Init(limit, writers, horizon) && s == states[|steps|];
    InitHolds(limit, writers, horizon);
    RunsKeep(states, steps, |steps|);
  }

  lemma StepsStayReachable(s: State, p: Proc, e: Event)
    requires Reachable(s) && Next(s, p, e).Some?
    ensures Reachable(Next(s, p, e).value)
  {
    hide Next;
    var states, steps, limit, writers, horizon :|
      IsRun(states, steps) && states[0] == Init(limit, writers, horizon) && s == states[|steps|];
    var states', steps' := states + [Next(s, p, e).value], steps + [Step(p, e)];
    forall i | 0 <= i < |steps'| ensures Next(states'[i], steps'[i].proc, steps'[i].event) == Some(states'[i + 1]) {
      if i < |steps| { assert Next(states[i], steps[i].proc, steps[i].event) == Some(states[i + 1]); }
    }
    assert IsRun(states', steps') && states'[0] == Init(limit, writers, horizon) && Next(s, p, e).value == states'[|steps'|];
  }

  predicate Quiet(s: State, n: Inode)
    requires n < |s.files|
  {
    Pending(s, s.files[n]) == ""
  }

  // What is in the files

  lemma QuietFile(s: State, n: Inode)
    requires Reachable(s) && n < |s.files| && Quiet(s, n)
    ensures var file := s.files[n];
            && SegmentsOk(file.segments)
            && file.bytes == Content(file.segments)
  {
    ReachableIsInvariant(s);
    assert FileOk(s, n);
  }

  /** What the append in progress has put into the file so far, as one more segment. */
  function InProgress(s: State, n: Inode): seq<Segment>
    requires n < |s.files|
  {
    if Quiet(s, n) then []
    else
      var phase := s.writers[s.files[n].lock.value].phase;
      [if phase.written < |phase.record.line| then Dangling(phase.record, phase.written) else Whole(phase.record)]
  }

  /** All that is in the file: what finished appends have left, and the one in progress. */
  function Present(s: State, n: Inode): seq<Segment>
    requires n < |s.files|
  {
    s.files[n].segments + InProgress(s, n)
  }

  lemma ProgressIsASegment(s: State, n: Inode)
    requires Inv(s) && n < |s.files| && !Quiet(s, n)
    ensures |InProgress(s, n)| == 1 && SegmentOk(InProgress(s, n)[0])
    ensures Written(InProgress(s, n)[0]) == Pending(s, s.files[n])
  {
    hide HistoryOk, TopOk, Content;
    assert FileOk(s, n);
    assert WriterOk(s, s.files[n].lock.value);
  }

  /** In every reachable state, whoever is appending, the lines of a file are those of what is in it. */
  lemma FilesAreTheirSegments(s: State, n: Inode)
    requires Reachable(s) && n < |s.files|
    ensures SegmentsOk(Present(s, n))
    ensures s.files[n].bytes == Content(Present(s, n)) && Lines(s.files[n].bytes) == ShardLines(Present(s, n))
  {
    hide Lines, ShardLines, Content, Reachable, WriterOk, DirOk, SegmentPlaced, SizeOk, LockedBy, Written, SegmentOk;
    ReachableIsInvariant(s);
    assert FileOk(s, n);
    if Quiet(s, n) {
      assert Present(s, n) == s.files[n].segments;
    } else {
      ProgressIsASegment(s, n);
      assert InProgress(s, n) == [InProgress(s, n)[0]];
      ContentGrows(s.files[n].segments, InProgress(s, n)[0]);
    }
    LinesOfContent(Present(s, n));
  }

  /** A line, or what is left of one closed with a newline. */
  predicate LineOrClosedFragment(text: string, line: string) {
    && IsLine(text)
    && (text == line || (2 <= |text| <= |line| && text == line[..|text| - 1] + "\n"))
  }

  lemma WrittenIsALine(segment: Segment)
    requires SegmentOk(segment) && !segment.Dangling?
    ensures LineOrClosedFragment(Written(segment), segment.record.line)
  {
  }

  /**
   A file that nobody is appending to, and in which no fragment dangles, consists of whole lines:
   one per finished append, each a whole record or a fragment closed with a newline.
   */
  lemma FilesAreWholeLines(s: State, n: Inode)
    requires Reachable(s) && n < |s.files| && Quiet(s, n) && DanglingCount(s.files[n].segments) == 0
    ensures var segments, lines := s.files[n].segments, Lines(s.files[n].bytes);
            && |lines| == |segments|
            && forall i :: 0 <= i < |segments| ==> LineOrClosedFragment(lines[i], segments[i].record.line)
  {
    hide Reachable, Lines, Content, ShardLines, Written, LineOrClosedFragment, DanglingCount;
    QuietFile(s, n);
    var segments := s.files[n].segments;
    NoDanglingIfNoneCounted(segments);
    LinesOfContent(segments);
    CleanShardLines(segments);
    forall i | 0 <= i < |segments| ensures LineOrClosedFragment(Written(segments[i]), segments[i].record.line) {
      WrittenIsALine(segments[i]);
    }
  }

  /** Crashes, failed repairs and appends in progress included: the lines of a file, and which records can be read back. */
  lemma DanglingFragmentsSpoilAtMostOneRecordEach(s: State, n: Inode)
    requires Reachable(s) && n < |s.files|
    ensures var lines := Lines(s.files[n].bytes);
            && Subsequence(LinesOf(Readable(Present(s, n))), lines)
            && |Readable(Present(s, n))| >= WholeCount(Present(s, n)) - DanglingCount(s.files[n].segments)
  {
    hide Reachable, Lines, ShardLines, Content, Readable, Subsequence, LinesOf, DanglingCount, SpoiledCount, WholeCount;
    FilesAreTheirSegments(s, n);
    DanglingSpoilsAtMostOneEach(Present(s, n));
    LastSpoilsNothing(s.files[n].segments, InProgress(s, n));
  }

  /** `maxFileBytes` is respected, except by a file that holds a single line, whole or not. */
  lemma FilesRespectTheLimit(s: State, n: Inode)
    requires Reachable(s) && n < |s.files|
    ensures |s.files[n].bytes| <= s.limit
            || (|s.files[n].segments| == 0 || (|s.files[n].segments| == 1 && Quiet(s, n)))
  {
    ReachableIsInvariant(s);
    assert FileOk(s, n);
  }

  // Accidents

  /** The unterminated fragments in all files, linked or not. */
  function TotalDangling(files: seq<File>): nat {
    if files == [] then 0 else TotalDangling(files[..|files| - 1]) + DanglingCount(files[|files| - 1].segments)
  }

  lemma {:induction false} TotalDanglingChanges(files: seq<File>, n: nat, file: File)
    requires n < |files|
    ensures TotalDangling(files[n := file])
            == TotalDangling(files) - DanglingCount(files[n].segments) + DanglingCount(file.segments)
  {
    var last := |files| - 1;
    if n < last {
      TotalDanglingChanges(files[..last], n, file);
      assert files[n := file][..last] == files[..last][n := file];
    } else {
      assert files[n := file][..last] == files[..last];
    }
  }

  lemma SettlingCounts(s: State, p: Proc, n: Inode, bytes: string, segment: Segment, phase: Phase)
    requires p < |s.writers| && n < |s.files|
    ensures TotalDangling(Settle(s, p, n, bytes, segment, phase).files)
            == TotalDangling(s.files) + if segment.Dangling? then 1 else 0
    ensures Settle(s, p, n, bytes, segment, phase).accidents == s.accidents
  {
    hide TotalDangling, DanglingCount;
    TotalDanglingChanges(s.files, n, s.files[n].(bytes := bytes, segments := s.files[n].segments + [segment]));
    DanglingCountGrows(s.files[n].segments, segment);
  }

  /** A step changes the number of unterminated fragments by as much as it counts accidents. */
  ghost predicate CountsRight(s: State, s': State) {
    TotalDangling(s'.files) - TotalDangling(s.files) == s'.accidents - s.accidents
  }

  lemma OpeningCounts(s: State, p: Proc, ok: bool)
    requires p < |s.writers| && OpenStep(s, p, ok).Some?
    ensures CountsRight(s, OpenStep(s, p, ok).value)
  {
    hide DanglingCount;
    var s' := OpenStep(s, p, ok).value;
    if |s'.files| > |s.files| {
      assert s'.files[..|s.files|] == s.files;
      NoDanglingIfNoneCounted([]);
    }
  }

  lemma LockedStepCounts(s: State, p: Proc, e: Event)
    requires Next(s, p, e).Some? && (e.LockShard? || e.Transfer? || e.Unlock?)
    ensures CountsRight(s, Next(s, p, e).value)
  {
    hide TotalDangling, DanglingCount;
    var s', n := Next(s, p, e).value, s.writers[p].handle.value;
    assert s'.files == s.files[n := s'.files[n]];
    TotalDanglingChanges(s.files, n, s'.files[n]);
  }

  lemma EndOfAppendCounts(s: State, p: Proc, e: Event)
    requires Next(s, p, e).Some? && (e.TransferFails? || e.FinishWrite? || e.Repair?)
    ensures CountsRight(s, Next(s, p, e).value)
  {
    hide TotalDangling, DanglingCount, Settle;
    var w, n := s.writers[p], s.writers[p].handle.value;
    var record, written, file := w.phase.record, w.phase.written, s.files[n];
    match e
    case TransferFails => SettlingCounts(s, p, n, file.bytes, Whole(record), Unlocking(record, Fail));
    case FinishWrite => SettlingCounts(s, p, n, file.bytes, Whole(record), Unlocking(record, Acknowledge));
    case Repair(Truncated) =>
      TotalDanglingChanges(s.files, n, file.(bytes := file.bytes[..w.phase.base]));
    case Repair(Newlined) =>
      SettlingCounts(s, p, n, file.bytes + "\n", Closed(record, written), Unlocking(record, Fail));
    case Repair(Unrepaired) =>
      SettlingCounts(s, p, n, file.bytes, Dangling(record, written), Unlocking(record, Fail));
  }

  lemma CrashCounts(s: State, p: Proc)
    requires Next(s, p, Crash).Some?
    ensures CountsRight(s, Next(s, p, Crash).value)
  {
    hide TotalDangling, DanglingCount, Settle;
    var w := s.writers[p];
    if HoldsShard(w.phase) {
      var n := w.handle.value;
      var unlocked := WithFile(s, n, s.files[n].(lock := None));
      TotalDanglingChanges(s.files, n, s.files[n].(lock := None));
      if (w.phase.Appending? || w.phase.Repairing?) && w.phase.written > 0 {
        SettlingCounts(unlocked, p, n, s.files[n].bytes,
                       if w.phase.written < |w.phase.record.line| then Dangling(w.phase.record, w.phase.written)
                       else Whole(w.phase.record), w.phase);
      }
    }
  }

  lemma OtherStepCounts(s: State, p: Proc, e: Event)
    requires Next(s, p, e).Some? && !OnShardStep(e) && !e.Crash? && !e.Open?
    ensures CountsRight(s, Next(s, p, e).value)
  {
    hide TotalDangling;
  }

  lemma StepCounts(s: State, p: Proc, e: Event)
    requires Next(s, p, e).Some?
    ensures CountsRight(s, Next(s, p, e).value)
  {
    hide CountsRight;
    match e
    case Open(ok) => OpeningCounts(s, p, ok);
    case Crash => CrashCounts(s, p);
    case LockShard => LockedStepCounts(s, p, e);
    case Transfer(_) => LockedStepCounts(s, p, e);
    case Unlock(_) => LockedStepCounts(s, p, e);
    case TransferFails => EndOfAppendCounts(s, p, e);
    case FinishWrite => EndOfAppendCounts(s, p, e);
    case Repair(_) => EndOfAppendCounts(s, p, e);
    case _ => OtherStepCounts(s, p, e);
  }

  lemma {:induction false} RunCounts(states: seq<State>, steps: seq<Step>, i: nat)
    requires IsRun(states, steps) && TotalDangling(states[0].files) == states[0].accidents && i < |states|
    ensures TotalDangling(states[i].files) == states[i].accidents
  {
    hide Next, TotalDangling;
    if i > 0 {
      RunCounts(states, steps, i - 1);
      assert Next(states[i - 1], steps[i - 1].proc, steps[i - 1].event) == Some(states[i]);
      StepCounts(states[i - 1], steps[i - 1].proc, steps[i - 1].event);
    }
  }

  /**
   In the whole directory there are as many unterminated fragments as there were crashes and failed
   repairs in the middle of a record; so k of them spoil at most k records, wherever they lie.
   */
  lemma AccidentsAreTheDanglingFragments(s: State)
    requires Reachable(s)
    ensures TotalDangling(s.files) == s.accidents
    ensures TotalSpoiled(s.files) <= s.accidents
  {
    var states, steps, limit, writers, horizon :|
      IsRun(states, steps) && states[0] == Init(limit, writers, horizon) && s == states[|steps|];
    RunCounts(states, steps, |steps|);
    ReachableIsInvariant(s);
    forall n | 0 <= n < |s.files| ensures SegmentsOk(s.files[n].segments) {
      assert FileOk(s, n);
    }
    SpoiledAtMostDangling(s.files);
  }

  /** The whole records right behind an unterminated fragment, in all files. */
  function TotalSpoiled(files: seq<File>): nat {
    if files == [] then 0 else TotalSpoiled(files[..|files| - 1]) + SpoiledCount(files[|files| - 1].segments)
  }

  lemma {:induction false} SpoiledAtMostDangling(files: seq<File>)
    requires forall n :: 0 <= n < |files| ==> SegmentsOk(files[n].segments)
    ensures TotalSpoiled(files) <= TotalDangling(files)
  {
    hide SegmentsOk, SpoiledCount, DanglingCount;
    if files != [] {
      SpoiledAtMostDangling(files[..|files| - 1]);
      DanglingSpoilsAtMostOneEach(files[|files| - 1].segments);
    }
  }

  /**
   A writer may die at any moment. Its locks are free then, its handle is gone, and what it was
   writing has failed; no byte of any file and no entry of the directory changes.
   */
  lemma CrashesAreAlwaysPossible(s: State, p: Proc)
    requires Reachable(s) && p < |s.writers| && !s.writers[p].phase.Crashed?
    ensures Next(s, p, Crash).Some?
    ensures var s', w := Next(s, p, Crash).value, s.writers[p];
            && s'.dir == s.dir && |s'.files| == |s.files| && |s'.writers| == |s.writers|
            && (forall n :: 0 <= n < |s.files| ==> s'.files[n].bytes == s.files[n].bytes && s'.files[n].lock != Some(p))
            && s'.dirLock != Some(p)
            && s'.writers[p].phase.Crashed? && s'.writers[p].handle.None? && s'.writers[p].acked == w.acked
            && (HasRecord(w.phase) ==> s'.writers[p].failed == w.failed + [w.phase.record])
  {
    hide Inv, CrashStep;
    ReachableIsInvariant(s);
    LocksAreHeld(s, p);
    DyingIsEnabled(s, p);
    DyingChangesNoBytes(s, p);
  }

  lemma LocksAreHeld(s: State, p: Proc)
    requires Inv(s) && p < |s.writers|
    ensures var w := s.writers[p];
            && (s.dirLock == Some(p) ==> HoldsDirectory(w.phase))
            && (HoldsShard(w.phase) ==> w.handle.Some? && w.handle.value < |s.files|)
            && forall n :: 0 <= n < |s.files| && s.files[n].lock == Some(p) ==> HoldsShard(w.phase) && w.handle == Some(n)
  {
    hide HistoryOk, TopOk;
    assert WriterOk(s, p);
    forall n | 0 <= n < |s.files| && s.files[n].lock == Some(p) ensures s.writers[p].handle == Some(n) && HoldsShard(s.writers[p].phase) {
      assert FileOk(s, n);
    }
  }

  lemma DyingIsEnabled(s: State, p: Proc)
    requires p < |s.writers| && !s.writers[p].phase.Crashed?
    requires HoldsShard(s.writers[p].phase) ==> s.writers[p].handle.Some? && s.writers[p].handle.value < |s.files|
    ensures CrashStep(s, p).Some? && Next(s, p, Crash) == CrashStep(s, p)
  {
    hide Abandoned;
  }

  lemma DyingChangesNoBytes(s: State, p: Proc)
    requires p < |s.writers| && CrashStep(s, p).Some?
    requires s.dirLock == Some(p) ==> HoldsDirectory(s.writers[p].phase)
    requires forall n :: 0 <= n < |s.files| && s.files[n].lock == Some(p) ==>
               HoldsShard(s.writers[p].phase) && s.writers[p].handle == Some(n)
    ensures var s', w := CrashStep(s, p).value, s.writers[p];
            && s'.dir == s.dir && |s'.files| == |s.files| && |s'.writers| == |s.writers|
            && (forall n :: 0 <= n < |s.files| ==> s'.files[n].bytes == s.files[n].bytes && s'.files[n].lock != Some(p))
            && s'.dirLock != Some(p)
            && s'.writers[p].phase.Crashed? && s'.writers[p].handle.None? && s'.writers[p].acked == w.acked
            && (HasRecord(w.phase) ==> s'.writers[p].failed == w.failed + [w.phase.record])
  {
    hide Abandoned;
    AbandoningChangesNoBytes(s, p);
  }

  lemma AbandoningChangesNoBytes(s: State, p: Proc)
    requires p < |s.writers|
    requires HoldsShard(s.writers[p].phase) ==> s.writers[p].handle.Some? && s.writers[p].handle.value < |s.files|
    ensures var r, w := Abandoned(s, p), s.writers[p];
            && r.dir == s.dir && r.dirLock == s.dirLock && |r.files| == |s.files| && |r.writers| == |s.writers|
            && (forall n :: 0 <= n < |s.files| ==>
                  && r.files[n].bytes == s.files[n].bytes
                  && r.files[n].lock == if HoldsShard(w.phase) && w.handle == Some(n) then None else s.files[n].lock)
            && r.writers[p].acked == w.acked && r.writers[p].failed == w.failed
            && HasRecord(r.writers[p].phase) == HasRecord(w.phase)
            && (HasRecord(w.phase) ==> r.writers[p].phase.record == w.phase.record)
  {
  }

  // Acknowledgement

  predicate Attempt(s: State, n: Inode, i: nat, p: Proc, ticket: nat) {
    && n < |s.files| && i < |s.files[n].segments|
    && s.files[n].segments[i].record.writer == p
    && s.files[n].segments[i].record.ticket == ticket
  }

  /** The record of this attempt is in the file, or as much of it as has been written so far. */
  predicate Stands(s: State, n: Inode, i: nat, p: Proc, ticket: nat) {
    && n < |s.files| && i < |Present(s, n)|
    && Present(s, n)[i].record.writer == p
    && Present(s, n)[i].record.ticket == ticket
  }

  /** No attempt, acknowledged, failed or in progress, leaves two traces. */
  lemma AttemptsLeaveAtMostOneTrace(s: State, n: Inode, i: nat, m: Inode, j: nat, p: Proc, ticket: nat)
    requires Reachable(s) && Stands(s, n, i, p, ticket) && Stands(s, m, j, p, ticket)
    ensures n == m && i == j
  {
    hide Reachable, Inv;
    ReachableIsInvariant(s);
    FinishedOrInProgress(s, n, i);
    FinishedOrInProgress(s, m, j);
  }

  /** What is in a file is where its writer's history says, or is its writer's append in progress. */
  lemma FinishedOrInProgress(s: State, n: Inode, i: nat)
    requires Inv(s) && n < |s.files| && i < |Present(s, n)|
    ensures var record := Present(s, n)[i].record;
            && record.writer < |s.writers|
            && var w := s.writers[record.writer];
               if i < |s.files[n].segments| then record.ticket in w.places && w.places[record.ticket] == Location(n, i)
               else
                 && record.ticket !in w.places && i == |s.files[n].segments|
                 && w.handle == Some(n) && (w.phase.Appending? || w.phase.Repairing?) && w.phase.record == record
  {
    hide HistoryOk, TopOk;
    assert FileOk(s, n);
    if i < |s.files[n].segments| {
      assert SegmentPlaced(s, n, i);
    } else {
      assert WriterOk(s, s.files[n].lock.value);
    }
  }

  /**
   An acknowledged record is stored exactly once, whole, in a file of its own date that is still
   in the directory unless a sweep with a later cutoff has removed it.
   */
  lemma AcknowledgedExactlyOnce(s: State, p: Proc, k: nat)
    requires Reachable(s) && p < |s.writers| && k < |s.writers[p].acked|
    ensures var record := s.writers[p].acked[k];
            exists n: nat, i: nat ::
              && Attempt(s, n, i, p, record.ticket)
              && s.files[n].segments[i] == Whole(record)
              && s.files[n].home.day == record.day
              && (Linked(s, n) || record.day < s.horizon)
              && forall m: nat, j: nat :: Stands(s, m, j, p, record.ticket) ==> m == n && j == i
  {
    ReachableIsInvariant(s);
    var record := s.writers[p].acked[k];
    assert WriterOk(s, p) && AckedOk(s, p, record);
    var n, i := s.writers[p].places[record.ticket].inode, s.writers[p].places[record.ticket].at;
    assert FileOk(s, n) && SegmentPlaced(s, n, i);
    forall m: nat, j: nat | Stands(s, m, j, p, record.ticket) ensures m == n && j == i {
      AttemptsLeaveAtMostOneTrace(s, n, i, m, j, p, record.ticket);
    }
    assert Attempt(s, n, i, p, record.ticket);
  }

  lemma AcknowledgedPlace(s: State, p: Proc, k: nat) returns (place: Location)
    requires Reachable(s) && p < |s.writers| && k < |s.writers[p].acked|
    ensures var record := s.writers[p].acked[k];
            && record.ticket in s.writers[p].places && place == s.writers[p].places[record.ticket]
            && Attempt(s, place.inode, place.at, p, record.ticket)
            && s.files[place.inode].segments[place.at] == Whole(record)
            && s.files[place.inode].home.day == record.day
  {
    ReachableIsInvariant(s);
    var record := s.writers[p].acked[k];
    assert WriterOk(s, p) && AckedOk(s, p, record);
    place := s.writers[p].places[record.ticket];
    assert FileOk(s, place.inode) && SegmentPlaced(s, place.inode, place.at);
  }

  /**
   In bytes: an acknowledged record ends a line of its file, whoever is appending there and whatever
   has crashed or failed so far, and that line is the record exactly if no unterminated fragment
   stands right in front of it.
   */
  lemma AcknowledgedLineIsReadable(s: State, p: Proc, k: nat) returns (place: Location)
    requires Reachable(s) && p < |s.writers| && k < |s.writers[p].acked|
    ensures Attempt(s, place.inode, place.at, p, s.writers[p].acked[k].ticket)
    ensures var record := s.writers[p].acked[k];
            && record.ticket in s.writers[p].places && place == s.writers[p].places[record.ticket]
            && s.files[place.inode].home.day == record.day
    ensures var segments, lines := s.files[place.inode].segments, Lines(s.files[place.inode].bytes);
            var at, line := LineAt(segments, place.at), s.writers[p].acked[k].line;
            && at < |lines| && |line| <= |lines[at]| && lines[at][|lines[at]| - |line|..] == line
            && (lines[at] == line <==> !BehindFragment(segments, place.at))
  {
    hide Reachable, Lines, Content, ShardLines, LineAt, InProgress;
    place := AcknowledgedPlace(s, p, k);
    var segments := s.files[place.inode].segments;
    FilesAreTheirSegments(s, place.inode);
    LineAtInFront(segments, InProgress(s, place.inode), place.at);
    var before := SegmentEndsItsLine(Present(s, place.inode), place.at);
    var line := s.writers[p].acked[k].line;
    assert (before + line)[|before|..] == line;
    assert before + line == line ==> |before| == 0;
  }

  /** Read by index, the shards of one date show a writer's acknowledged records in their order. */
  lemma AcknowledgedInOrder(s: State, p: Proc, j: nat, k: nat)
    requires Reachable(s) && p < |s.writers| && j < k < |s.writers[p].acked|
    requires s.writers[p].acked[j].day == s.writers[p].acked[k].day
    ensures exists a: Location, b: Location ::
              && Attempt(s, a.inode, a.at, p, s.writers[p].acked[j].ticket)
              && Attempt(s, b.inode, b.at, p, s.writers[p].acked[k].ticket)
              && (Linked(s, a.inode) && Linked(s, b.inode) ==> Earlier(s, a, b))
  {
    var a := AcknowledgedPlace(s, p, j);
    var b := AcknowledgedPlace(s, p, k);
    AttemptsInOrder(s, p, s.writers[p].acked[j].ticket, s.writers[p].acked[k].ticket);
    TicketsAscend(s, p, j, k);
  }

  lemma TicketsAscend(s: State, p: Proc, j: nat, k: nat)
    requires Reachable(s) && p < |s.writers| && j < k < |s.writers[p].acked|
    ensures s.writers[p].acked[j].ticket < s.writers[p].acked[k].ticket
  {
    ReachableIsInvariant(s);
    assert WriterOk(s, p);
  }

  lemma AttemptsInOrder(s: State, p: Proc, t: nat, u: nat)
    requires Reachable(s) && p < |s.writers|
    ensures OrderOk(s, p, t, u)
  {
    ReachableIsInvariant(s);
    assert WriterOk(s, p);
  }

  /** Rotation only moves forward: the shard it opens has the highest index of its date, or one more. */
  lemma RotationMovesForward(s: State, p: Proc, shard: Shard)
    requires Reachable(s) && p < |s.writers| && s.writers[p].phase.Opening? && shard in s.dir
    requires shard.day == s.writers[p].phase.record.day
    ensures shard.index <= s.writers[p].phase.index
    ensures s.writers[p].phase.index > 0 ==>
              exists last :: last in s.dir && last.day == shard.day && last.index + 1 >= s.writers[p].phase.index
  {
    ReachableIsInvariant(s);
    assert WriterOk(s, p);
    var day, index := shard.day, s.writers[p].phase.index;
    if index > 0 {
      assert Shard(day, index) in s.dir || Shard(day, index - 1) in s.dir;
    }
  }

  /** While it has a shard open, nothing of the writer lies in a later shard of that date. */
  lemma NothingBehindTheOpenShard(s: State, p: Proc, n: Inode, i: nat)
    requires Reachable(s) && p < |s.writers| && n < |s.files| && i < |s.files[n].segments|
    requires s.files[n].segments[i].record.writer == p && Linked(s, n)
    requires s.writers[p].handle.Some? && Linked(s, s.writers[p].handle.value)
    requires s.files[n].home.day == s.files[s.writers[p].handle.value].home.day
    ensures s.files[n].home.index <= s.files[s.writers[p].handle.value].home.index
  {
    ReachableIsInvariant(s);
    assert FileOk(s, n) && SegmentPlaced(s, n, i) && WriterOk(s, p);
    assert HandleTop(s, p, s.files[n].segments[i].record.ticket);
  }

  /** A step moves no file to another shard, and no cutoff is forgotten. */
  lemma HomesStay(s: State, p: Proc, e: Event)
    requires Next(s, p, e).Some?
    ensures HomesKept(s, Next(s, p, e).value)
  {
    hide Next, TouchesOneFile;
    if e.Crash? {
      HomesStayInCrash(s, p);
    } else if OnShardStep(e) {
      OnlyWritersStep(s, p, e);
      ShardStepTouchesOneFile(s, p, e);
      OneFileKeepsItsHome(s, Next(s, p, e).value, p);
    } else {
      HomesStayOutside(s, p, e);
    }
  }

  lemma OnlyWritersStep(s: State, p: Proc, e: Event)
    requires Next(s, p, e).Some?
    ensures p < |s.writers|
  {
  }

  predicate OnShardStep(e: Event) {
    e.LockShard? || e.Transfer? || e.TransferFails? || e.FinishWrite? || e.Repair? || e.Unlock?
  }

  predicate HomesKept(s: State, s': State) {
    && |s'.writers| == |s.writers| && |s'.files| >= |s.files| && s'.horizon >= s.horizon
    && forall n :: 0 <= n < |s.files| ==> s'.files[n].home == s.files[n].home
  }

  lemma OneFileKeepsItsHome(s: State, s': State, p: Proc)
    requires TouchesOneFile(s, s', p)
    ensures HomesKept(s, s')
  {
  }

  lemma HomesStayInCrash(s: State, p: Proc)
    requires Next(s, p, Crash).Some?
    ensures HomesKept(s, Next(s, p, Crash).value)
  {
  }

  lemma HomesStayOutside(s: State, p: Proc, e: Event)
    requires Next(s, p, e).Some? && !OnShardStep(e) && !e.Crash?
    ensures HomesKept(s, Next(s, p, e).value)
  {
  }

  /** If writer `q` has a shard of the day of file `n` open, it is not before that file. */
  predicate NotBefore(s: State, q: Proc, n: Inode) {
    q < |s.writers| && n < |s.files| && DayOf(s, s.writers[q].handle, s.files[n].home.day) ==>
      s.files[s.writers[q].handle.value].home.index >= s.files[n].home.index
  }

  lemma HandlesMoveForward(s: State, p: Proc, e: Event, q: Proc, n: Inode)
    requires Inv(s) && Next(s, p, e).Some? && q < |s.writers| && n < |s.files|
    requires s.files[n].home.day >= s.horizon && NotBefore(s, q, n)
    ensures NotBefore(Next(s, p, e).value, q, n)
  {
    hide Next, Inv;
    HomesStay(s, p, e);
    if p == q && e.Open? && e.ok {
      OpeningMovesForward(s, p, n);
    } else {
      HandlesOnlyOpen(s, p, e, q);
    }
  }

  lemma HandlesOnlyOpen(s: State, p: Proc, e: Event, q: Proc)
    requires Inv(s) && Next(s, p, e).Some? && q < |s.writers| && !(p == q && e.Open? && e.ok)
    ensures var s' := Next(s, p, e).value;
            q < |s'.writers| && (s'.writers[q].handle == s.writers[q].handle || s'.writers[q].handle.None?)
    ensures s.writers[q].handle.Some? ==> s.writers[q].handle.value < |s.files|
  {
    hide HistoryOk, TopOk, FileOk, OnShardStep;
    assert WriterOk(s, q);
    if p != q {
      hide Next;
      StepIsRelied(s, p, e, q);
    }
  }

  lemma OpeningMovesForward(s: State, p: Proc, n: Inode)
    requires Inv(s) && Next(s, p, Open(true)).Some? && n < |s.files| && s.files[n].home.day >= s.horizon
    ensures NotBefore(Next(s, p, Open(true)).value, p, n)
  {
    hide HistoryOk, TopOk, SegmentPlaced, SizeOk;
    assert WriterOk(s, p) && FileOk(s, n);
    assert s.files[n].home in s.dir;
    var shard := s.files[n].home;
    assert shard.day == s.writers[p].phase.record.day ==> shard.index <= s.writers[p].phase.index;
  }

  /**
   Over any run, with any competing rotations: as long as a date has not expired, a writer never
   goes back to an earlier shard of it.
   */
  lemma {:induction false} ShardIndexNeverDecreases(states: seq<State>, steps: seq<Step>, q: Proc, i: nat, j: nat)
    requires IsRun(states, steps) && Reachable(states[0]) && i <= j < |states|
    requires q < |states[i].writers| && states[i].writers[q].handle.Some?
    ensures var n := states[i].writers[q].handle.value;
            && n < |states[i].files| <= |states[j].files| && states[j].horizon >= states[i].horizon
            && |states[j].writers| == |states[i].writers|
            && states[j].files[n].home == states[i].files[n].home
            && (states[j].files[n].home.day >= states[j].horizon ==> NotBefore(states[j], q, n))
  {
    hide Next, Inv, Reachable;
    ReachableIsInvariant(states[0]);
    RunsKeep(states, steps, i);
    HandleIsAFile(states[i], q);
    if i < j {
      var k := j - 1;
      ShardIndexNeverDecreases(states, steps, q, i, k);
      RunsKeep(states, steps, k);
      assert Next(states[k], steps[k].proc, steps[k].event) == Some(states[k + 1]);
      HomesStay(states[k], steps[k].proc, steps[k].event);
      var n := states[i].writers[q].handle.value;
      if states[j].files[n].home.day >= states[j].horizon {
        HandlesMoveForward(states[k], steps[k].proc, steps[k].event, q, n);
      }
    }
  }

  lemma HandleIsAFile(s: State, q: Proc)
    requires Inv(s) && q < |s.writers| && s.writers[q].handle.Some?
    ensures s.writers[q].handle.value < |s.files|
  {
    assert WriterOk(s, q);
  }

  // Repair

  /**
   Repair touches only the fragment of the writer that failed. Truncation restores the file to
   what the finished appends of all writers had left; otherwise nothing is taken away.
   */
  lemma RepairIsLocal(s: State, p: Proc, outcome: Outcome)
    requires Reachable(s) && p < |s.writers| && Next(s, p, Repair(outcome)).Some?
    ensures var s', n := Next(s, p, Repair(outcome)).value, s.writers[p].handle.value;
            var w := s.writers[p];
            var segments := s.files[n].segments;
            && SegmentsOk(segments)
            && w.phase.written <= |w.phase.record.line|
            && s.files[n].bytes == Content(segments) + w.phase.record.line[..w.phase.written]
            && (forall m :: 0 <= m < |s.files| && m != n ==> s'.files[m] == s.files[m])
            && (outcome.Truncated? ==> s'.files[n].bytes == Content(segments) && s'.files[n].segments == segments)
            && (outcome.Newlined? ==> s'.files[n].bytes == s.files[n].bytes + "\n")
            && (outcome.Unrepaired? ==> s'.files[n].bytes == s.files[n].bytes)
  {
    ReachableIsInvariant(s);
    var n := s.writers[p].handle.value;
    assert WriterOk(s, p) && FileOk(s, n);
  }

  // Locks and progress

  /** A lock has at most one holder, and no writer waits for a lock or takes one while it holds another. */
  lemma NoHoldAndWait(s: State, p: Proc)
    requires Reachable(s) && p < |s.writers|
    ensures Waits(s.writers[p].phase) ==> s.dirLock != Some(p)
    ensures HoldsShard(s.writers[p].phase) ==> s.dirLock != Some(p)
    ensures forall n :: 0 <= n < |s.files| && s.files[n].lock == Some(p) ==>
              HoldsShard(s.writers[p].phase) && s.writers[p].handle == Some(n)
  {
    ReachableIsInvariant(s);
    assert WriterOk(s, p);
    forall n | 0 <= n < |s.files| && s.files[n].lock == Some(p) ensures LockedBy(s, n, p) {
      assert FileOk(s, n);
    }
  }

  /** The step that a writer in the middle of an event takes next, if no lock is in its way. */
  ghost function Proceed(s: State, p: Proc): Event
    requires p < |s.writers|
  {
    match s.writers[p].phase
    case AwaitingDirectory(_) => LockDirectory
    case Closing(_) => CloseHandle(true)
    case Discovering(_) => Discover(true)
    case Probing(_, _, _) => Probe(true)
    case Opening(_, _, _) => Open(true)
    case Retaining(_, _) => SkipRetention
    case Sweeping(_, _, cutoff) =>
      if exists shard :: shard in s.dir && shard.day < cutoff
      then var shard :| shard in s.dir && shard.day < cutoff; Remove(shard)
      else FinishRetention(true)
    case Leaving(_, _) => UnlockDirectory
    case Abandoning(_) => UnlockDirectory
    case AwaitingShard(_, _) => LockShard
    case Sizing(_, _) => Stat(true)
    case Appending(record, _, written) => 
      if written < |record.line| then Transfer(|record.line| - written) else FinishWrite
    case Repairing(_, _, _) => Repair(Newlined)
    case Unlocking(_, _) => Unlock(true)
    case _ => Crash
  }

  lemma HoldersProceed(s: State, p: Proc)
    requires Inv(s) && p < |s.writers| && HasRecord(s.writers[p].phase) && !Waits(s.writers[p].phase)
    ensures Next(s, p, Proceed(s, p)).Some?
  {
    assert WriterOk(s, p);
  }

  /** No deadlock: while any writer is in the middle of an event, some writer can take its next step. */
  lemma DeadlockFree(s: State, p: Proc)
    requires Reachable(s) && p < |s.writers| && HasRecord(s.writers[p].phase)
    ensures exists q :: 0 <= q < |s.writers| && HasRecord(s.writers[q].phase) && Next(s, q, Proceed(s, q)).Some?
  {
    hide Inv, Reachable, Next, Proceed;
    ReachableIsInvariant(s);
    var q := NotBlocked(s, p);
    if !Waits(s.writers[q].phase) {
      HoldersProceed(s, q);
    }
    assert Next(s, q, Proceed(s, q)).Some?;
  }

  /** The writer itself, or the holder of the lock that it waits for. */
  lemma NotBlocked(s: State, p: Proc) returns (q: Proc)
    requires Inv(s) && p < |s.writers| && HasRecord(s.writers[p].phase)
    ensures q < |s.writers| && HasRecord(s.writers[q].phase)
    ensures Waits(s.writers[q].phase) ==> Next(s, q, Proceed(s, q)).Some?
  {
    hide HistoryOk, TopOk;
    q := p;
    assert WriterOk(s, p);
    if s.writers[p].phase.AwaitingDirectory? && s.dirLock.Some? {
      q := s.dirLock.value;
      assert WriterOk(s, q);
    } else if s.writers[p].phase.AwaitingShard? {
      var n := s.writers[p].handle.value;
      if s.files[n].lock.Some? {
        assert FileOk(s, n);
        q := s.files[n].lock.value;
      }
    }
  }

  /** At most two probes: the shard behind the highest one does not exist, so it is opened. */
  lemma TwoProbesSuffice(s: State, p: Proc)
    requires Reachable(s) && p < |s.writers| && s.writers[p].phase.Probing?
    ensures s.writers[p].phase.skipped <= 1
    ensures s.writers[p].phase.skipped == 1 ==>
              && Shard(s.writers[p].phase.record.day, s.writers[p].phase.index) !in s.dir
              && Next(s, p, Probe(true)).Some?
              && Next(s, p, Probe(true)).value.writers[p].phase.Opening?
  {
    ReachableIsInvariant(s);
    assert WriterOk(s, p);
  }

  /** A writer that has just rotated finds its shard full only if that shard has grown since it was probed. */
  lemma RetryMeansGrowth(s: State, p: Proc)
    requires Reachable(s) && p < |s.writers| && s.writers[p].phase.Sizing? && s.writers[p].phase.probed.Some?
    requires Next(s, p, Stat(true)).Some?
    requires Next(s, p, Stat(true)).value.writers[p].phase == Unlocking(s.writers[p].phase.record, Retry)
    ensures |s.files[s.writers[p].handle.value].bytes| > s.writers[p].phase.probed.value
  {
    ReachableIsInvariant(s);
    assert WriterOk(s, p);
  }
}
