/** What every step of every writer keeps. */
module ProtocolInvariant {
  import opened Wrappers
  import opened Shards
  import opened Protocol

  // The invariant

  /** The part of a line that an append in progress has put into the file. */
  function PendingOf(phase: Phase): string {
    if (phase.Appending? || phase.Repairing?) && phase.written <= |phase.record.line|
    then phase.record.line[..phase.written]
    else ""
  }

  function Pending(s: State, file: File): string {
    if file.lock.Some? && file.lock.value < |s.writers| then PendingOf(s.writers[file.lock.value].phase) else ""
  }

  /** The file is still in the directory: retention has not unlinked it. */
  predicate Linked(s: State, n: Inode) {
    n < |s.files| && s.files[n].home in s.dir && s.dir[s.files[n].home] == n
  }

  ghost predicate DirOk(s: State) {
    && (forall shard :: shard in s.dir ==> s.dir[shard] < |s.files| && s.files[s.dir[shard]].home == shard)
    && (s.dirLock.Some? ==> s.dirLock.value < |s.writers|)
  }

  /** Every segment is where its writer's history says. */
  ghost predicate SegmentPlaced(s: State, n: Inode, i: nat)
    requires n < |s.files| && i < |s.files[n].segments|
  {
    var record := s.files[n].segments[i].record;
    && record.day == s.files[n].home.day
    && record.writer < |s.writers|
    && record.ticket in s.writers[record.writer].places
    && s.writers[record.writer].places[record.ticket] == Location(n, i)
  }

  predicate LockedBy(s: State, n: Inode, p: Proc) {
    p < |s.writers| && s.writers[p].handle == Some(n) && HoldsShard(s.writers[p].phase)
  }

  ghost predicate FileOk(s: State, n: Inode)
    requires n < |s.files|
  {
    var file := s.files[n];
    && SegmentsOk(file.segments)
    && (forall i :: 0 <= i < |file.segments| ==> SegmentPlaced(s, n, i))
    && (file.lock.Some? ==> LockedBy(s, n, file.lock.value))
    && file.bytes == Content(file.segments) + Pending(s, file)
    && SizeOk(s.limit, |file.bytes|, |file.segments|, |Pending(s, file)|)
    && (Linked(s, n) || file.home.day < s.horizon)
    && (s.accidents == 0 ==> forall i :: 0 <= i < |file.segments| ==> !file.segments[i].Dangling?)
  }

  /** Within the limit, or no more than one line, whole or not. */
  predicate SizeOk(limit: nat, bytes: nat, segments: nat, pending: nat) {
    bytes <= limit || segments + (if pending > 0 then 1 else 0) <= 1
  }

  ghost predicate PlaceOk(s: State, p: Proc, ticket: nat)
    requires p < |s.writers| && ticket in s.writers[p].places
  {
    var place := s.writers[p].places[ticket];
    && ticket < s.writers[p].next
    && place.inode < |s.files|
    && place.at < |s.files[place.inode].segments|
    && s.files[place.inode].segments[place.at].record.writer == p
    && s.files[place.inode].segments[place.at].record.ticket == ticket
  }

  ghost predicate AckedOk(s: State, p: Proc, record: Record)
    requires p < |s.writers|
  {
    var w := s.writers[p];
    && record.writer == p
    && record.ticket in w.places
    && PlaceOk(s, p, record.ticket)
    && s.files[w.places[record.ticket].inode].segments[w.places[record.ticket].at] == Whole(record)
  }

  /** The current attempt, or the next one. */
  function Current(w: Writer): nat {
    if HasRecord(w.phase) then w.phase.record.ticket else w.next
  }

  ghost predicate Earlier(s: State, a: Location, b: Location)
    requires a.inode < |s.files| && b.inode < |s.files|
  {
    || s.files[a.inode].home.index < s.files[b.inode].home.index
    || (a.inode == b.inode && a.at < b.at)
  }

  /** Within one day's shards that are still there, a writer's later attempts come later. */
  ghost predicate OrderOk(s: State, p: Proc, t: nat, u: nat)
    requires p < |s.writers|
  {
    var places := s.writers[p].places;
    t in places && u in places && t < u && Linked(s, places[t].inode) && Linked(s, places[u].inode)
    && s.files[places[t].inode].home.day == s.files[places[u].inode].home.day
    ==> Earlier(s, places[t], places[u])
  }

  /** No shard behind the open one holds anything of this writer. */
  ghost predicate HandleTop(s: State, p: Proc, t: nat)
    requires p < |s.writers|
  {
    var w := s.writers[p];
    w.handle.Some? && Linked(s, w.handle.value) && t in w.places && Linked(s, w.places[t].inode)
    && s.files[w.places[t].inode].home.day == s.files[w.handle.value].home.day
    ==> s.files[w.places[t].inode].home.index <= s.files[w.handle.value].home.index
  }

  ghost predicate HistoryOk(s: State, p: Proc)
    requires p < |s.writers|
  {
    var w := s.writers[p];
    && (forall t :: t in w.places ==> PlaceOk(s, p, t))
    && (forall i :: 0 <= i < |w.acked| ==> AckedOk(s, p, w.acked[i]) && w.acked[i].ticket < Current(w))
    && (forall i, j :: 0 <= i < j < |w.acked| ==> w.acked[i].ticket < w.acked[j].ticket)
    && (forall t, u :: OrderOk(s, p, t, u))
  }

  predicate FitsAt(size: nat, line: string, limit: nat) {
    size == 0 || size + |line| <= limit
  }

  ghost predicate PhaseOk(s: State, p: Proc)
    requires p < |s.writers|
  {
    var w := s.writers[p];
    && (w.handle.Some? ==> w.handle.value < |s.files|)
    && (HoldsDirectory(w.phase) <==> s.dirLock == Some(p))
    && (HasRecord(w.phase) ==> RecordOk(s, p, w.phase.record))
    && (HoldsShard(w.phase) ==> w.handle.Some? && s.files[w.handle.value].lock == Some(p))
    && match w.phase
       case Discovering(_) => w.handle.None?
       case Probing(record, index, skipped) =>
         && w.handle.None?
         && skipped <= 1
         && IsNear(s.dir.Keys, record.day, index, skipped)
       case Opening(record, index, size) =>
         && w.handle.None?
         && (IsNear(s.dir.Keys, record.day, index, 0) || IsNear(s.dir.Keys, record.day, index, 1))
         && FitsAt(size, record.line, s.limit)
       case Retaining(record, size) => DayOf(s, w.handle, record.day) && FitsAt(size, record.line, s.limit)
       case Sweeping(record, size, cutoff) =>
         DayOf(s, w.handle, record.day) && FitsAt(size, record.line, s.limit) && cutoff <= s.horizon
       case Leaving(record, size) => DayOf(s, w.handle, record.day) && FitsAt(size, record.line, s.limit)
       case AwaitingShard(record, probed) =>
         DayOf(s, w.handle, record.day) && (probed.Some? ==> FitsAt(probed.value, record.line, s.limit))
       case Sizing(record, probed) =>
         && DayOf(s, w.handle, record.day)
         && (probed.Some? ==> FitsAt(probed.value, record.line, s.limit))
       case Appending(record, base, written) =>
         && DayOf(s, w.handle, record.day)
         && written <= |record.line|
         && BaseOk(s, w.handle.value, base)
         && FitsAt(base, record.line, s.limit)
       case Repairing(record, base, written) =>
         && DayOf(s, w.handle, record.day)
         && 0 < written < |record.line|
         && BaseOk(s, w.handle.value, base)
         && FitsAt(base, record.line, s.limit)
       case _ => true
  }

  /** `skipped` shards above the highest index, under the directory lock. */
  ghost predicate IsNear(shards: set<Shard>, day: int, index: nat, skipped: nat) {
    if skipped == 0 then IsHighest(shards, day, index)
    else index > 0 && Shard(day, index - 1) in shards && IsHighest(shards, day, index - 1)
  }

  ghost predicate BaseOk(s: State, n: Inode, base: nat)
    requires n < |s.files|
  {
    SegmentsOk(s.files[n].segments) && |Content(s.files[n].segments)| == base
  }

  /** The record being written is new until its append is settled. */
  ghost predicate RecordOk(s: State, p: Proc, record: Record)
    requires p < |s.writers|
  {
    var w := s.writers[p];
    && record.writer == p
    && record.ticket + 1 == w.next
    && IsLine(record.line)
    && if w.phase.Unlocking? && w.phase.verdict.Acknowledge? then AckedOk(s, p, record)
       else if w.phase.Unlocking? && w.phase.verdict.Fail? then true
       else record.ticket !in w.places
  }

  ghost predicate WriterOk(s: State, p: Proc)
    requires p < |s.writers|
  {
    HistoryOk(s, p) && TopOk(s, p) && PhaseOk(s, p)
  }

  ghost predicate TopOk(s: State, p: Proc)
    requires p < |s.writers|
  {
    forall t :: HandleTop(s, p, t)
  }

  ghost predicate Inv(s: State) {
    && DirOk(s)
    && (forall n :: 0 <= n < |s.files| ==> FileOk(s, n))
    && (forall p :: 0 <= p < |s.writers| ==> WriterOk(s, p))
  }

  lemma InitHolds(limit: nat, writers: nat, horizon: int)
    ensures Inv(Init(limit, writers, horizon))
  {
  }

  // What the others see of a step

  /** Files only gain segments, and no file comes back into the directory. */
  ghost predicate Grows(s: State, s': State) {
    && s'.limit == s.limit && s'.horizon >= s.horizon
    && |s'.files| >= |s.files|
    && (forall n :: 0 <= n < |s.files| ==>
          && s'.files[n].home == s.files[n].home
          && s.files[n].segments <= s'.files[n].segments
          && (Linked(s', n) ==> Linked(s, n)))
  }

  /** A step of another writer, as writer `q` sees it. */
  ghost predicate Rely(s: State, s': State, q: Proc) {
    && Grows(s, s')
    && |s'.writers| == |s.writers| && q < |s.writers| && s'.writers[q] == s.writers[q]
    && (forall n :: 0 <= n < |s.files| && s.files[n].lock == Some(q) ==> s'.files[n] == s.files[n])
    && (s.dirLock == Some(q) <==> s'.dirLock == Some(q))
    && (s.dirLock == Some(q) ==> s'.dir == s.dir)
  }

  /** Nothing placed, nothing acknowledged. */
  predicate Steady(w: Writer, w': Writer) {
    && w'.places == w.places && w'.acked == w.acked
    && w'.next >= w.next && Current(w') >= Current(w)
  }

  lemma HistorySurvives(s: State, s': State, q: Proc)
    requires Grows(s, s') && q < |s.writers| && q < |s'.writers| && Steady(s.writers[q], s'.writers[q])
    requires HistoryOk(s, q)
    ensures HistoryOk(s', q)
  {
    var w := s.writers[q];
    forall t | t in w.places ensures PlaceOk(s', q, t) {
      assert PlaceOk(s, q, t);
    }
    forall i | 0 <= i < |w.acked| ensures AckedOk(s', q, w.acked[i]) {
      assert AckedOk(s, q, w.acked[i]);
    }
    forall t, u ensures OrderOk(s', q, t, u) {
      assert OrderOk(s, q, t, u);
      if t in w.places && u in w.places {
        assert PlaceOk(s, q, t) && PlaceOk(s, q, u);
      }
    }
  }

  lemma TopSurvives(s: State, s': State, q: Proc)
    requires Grows(s, s') && q < |s.writers| && q < |s'.writers| && Steady(s.writers[q], s'.writers[q])
    requires HistoryOk(s, q) && TopOk(s, q)
    requires s.writers[q].handle.Some? ==> s.writers[q].handle.value < |s.files|
    requires s'.writers[q].handle == s.writers[q].handle || s'.writers[q].handle.None?
    ensures TopOk(s', q)
  {
    var w := s.writers[q];
    forall t ensures HandleTop(s', q, t) {
      assert HandleTop(s, q, t);
      if t in w.places { assert PlaceOk(s, q, t); }
    }
  }

  lemma PhaseSurvives(s: State, s': State, q: Proc)
    requires Rely(s, s', q) && HistoryOk(s, q) && PhaseOk(s, q)
    ensures PhaseOk(s', q)
  {
    var w := s.writers[q];
    if w.phase.Unlocking? && w.phase.verdict.Acknowledge? {
      assert AckedOk(s, q, w.phase.record);
    }
  }

  lemma OtherWritersKeep(s: State, s': State, p: Proc)
    requires Inv(s) && |s'.writers| == |s.writers|
    requires forall q :: 0 <= q < |s.writers| && q != p ==> Rely(s, s', q)
    ensures forall q :: 0 <= q < |s.writers| && q != p ==> WriterOk(s', q)
  {
    hide HistoryOk, TopOk, Grows;
    forall q | 0 <= q < |s.writers| && q != p ensures WriterOk(s', q) {
      assert WriterOk(s, q) && Rely(s, s', q);
      HistorySurvives(s, s', q);
      TopSurvives(s, s', q);
      PhaseSurvives(s, s', q);
    }
  }

  // Steps that touch no file

  predicate OthersSame(s: State, s': State, p: Proc) {
    && p < |s.writers| && |s'.writers| == |s.writers|
    && forall q :: 0 <= q < |s.writers| && q != p ==> s'.writers[q] == s.writers[q]
  }

  predicate DirLockMoves(s: State, s': State, p: Proc) {
    || s'.dirLock == s.dirLock
    || (s.dirLock.None? && s'.dirLock == Some(p))
    || (s.dirLock == Some(p) && s'.dirLock.None?)
  }

  predicate Local(s: State, s': State, p: Proc) {
    && OthersSame(s, s', p) && DirLockMoves(s, s', p)
    && s' == s.(writers := s'.writers, dirLock := s'.dirLock, horizon := s'.horizon)
    && s'.horizon >= s.horizon
    && var w, w' := s.writers[p], s'.writers[p];
       && Steady(w, w')
       && (w'.handle == w.handle || w'.handle.None?)
       && PendingOf(w'.phase) == PendingOf(w.phase)
       && (HoldsShard(w.phase) ==> HoldsShard(w'.phase) && w'.handle == w.handle)
  }

  lemma LocalKeepsFiles(s: State, s': State, p: Proc)
    requires Inv(s) && Local(s, s', p)
    ensures DirOk(s') && forall n :: 0 <= n < |s'.files| ==> FileOk(s', n)
  {
    forall n | 0 <= n < |s'.files| ensures FileOk(s', n) {
      assert FileOk(s, n);
      forall i | 0 <= i < |s.files[n].segments| ensures SegmentPlaced(s', n, i) {
        assert SegmentPlaced(s, n, i);
      }
    }
  }

  lemma LocalKeeps(s: State, s': State, p: Proc)
    requires Inv(s) && Local(s, s', p) && PhaseOk(s', p)
    ensures Inv(s')
  {
    assert WriterOk(s, p);
    LocalKeepsFiles(s, s', p);
    HistorySurvives(s, s', p);
    TopSurvives(s, s', p);
    OtherWritersKeep(s, s', p);
    assert forall q :: 0 <= q < |s'.writers| ==> q == p || WriterOk(s', q);
  }

  lemma BeginKeeps(s: State, p: Proc, day: int, line: string)
    requires Inv(s) && p < |s.writers| && BeginStep(s, p, day, line).Some?
    ensures Inv(BeginStep(s, p, day, line).value)
  {
    var s' := BeginStep(s, p, day, line).value;
    assert WriterOk(s, p);
    var w := s.writers[p];
    assert forall t :: t in w.places ==> PlaceOk(s, p, t) && t < w.next;
    LocalKeeps(s, s', p);
  }

  lemma LockDirectoryKeeps(s: State, p: Proc)
    requires Inv(s) && p < |s.writers| && LockDirectoryStep(s, p).Some?
    ensures Inv(LockDirectoryStep(s, p).value)
  {
    hide HistoryOk, TopOk, FileOk, AckedOk;
    assert WriterOk(s, p);
    LocalKeeps(s, LockDirectoryStep(s, p).value, p);
  }

  lemma LockFailsKeeps(s: State, p: Proc)
    requires Inv(s) && p < |s.writers| && LockFailsStep(s, p).Some?
    ensures Inv(LockFailsStep(s, p).value)
  {
    hide HistoryOk, TopOk, FileOk, AckedOk;
    assert WriterOk(s, p);
    LocalKeeps(s, LockFailsStep(s, p).value, p);
  }

  lemma CloseHandleKeeps(s: State, p: Proc, ok: bool)
    requires Inv(s) && p < |s.writers| && CloseHandleStep(s, p, ok).Some?
    ensures Inv(CloseHandleStep(s, p, ok).value)
  {
    hide HistoryOk, TopOk, FileOk, AckedOk;
    assert WriterOk(s, p);
    LocalKeeps(s, CloseHandleStep(s, p, ok).value, p);
  }

  lemma DiscoverKeeps(s: State, p: Proc, ok: bool)
    requires Inv(s) && p < |s.writers| && DiscoverStep(s, p, ok).Some?
    ensures Inv(DiscoverStep(s, p, ok).value)
  {
    hide HistoryOk, TopOk, FileOk, AckedOk;
    assert WriterOk(s, p);
    LocalKeeps(s, DiscoverStep(s, p, ok).value, p);
  }

  /** A shard that does not exist is never skipped, and under the lock none appears: two probes suffice. */
  lemma ProbeKeeps(s: State, p: Proc, ok: bool)
    requires Inv(s) && p < |s.writers| && ProbeStep(s, p, ok).Some?
    ensures Inv(ProbeStep(s, p, ok).value)
  {
    hide HistoryOk, TopOk, FileOk, AckedOk;
    assert WriterOk(s, p);
    LocalKeeps(s, ProbeStep(s, p, ok).value, p);
  }

  lemma SkipRetentionKeeps(s: State, p: Proc)
    requires Inv(s) && p < |s.writers| && SkipRetentionStep(s, p).Some?
    ensures Inv(SkipRetentionStep(s, p).value)
  {
    hide HistoryOk, TopOk, FileOk, AckedOk;
    assert WriterOk(s, p);
    LocalKeeps(s, SkipRetentionStep(s, p).value, p);
  }

  lemma StartRetentionKeeps(s: State, p: Proc, cutoff: int)
    requires Inv(s) && p < |s.writers| && StartRetentionStep(s, p, cutoff).Some?
    ensures Inv(StartRetentionStep(s, p, cutoff).value)
  {
    hide HistoryOk, TopOk, FileOk, AckedOk;
    assert WriterOk(s, p);
    LocalKeeps(s, StartRetentionStep(s, p, cutoff).value, p);
  }

  lemma FinishRetentionKeeps(s: State, p: Proc, ok: bool)
    requires Inv(s) && p < |s.writers| && FinishRetentionStep(s, p, ok).Some?
    ensures Inv(FinishRetentionStep(s, p, ok).value)
  {
    hide HistoryOk, TopOk, FileOk, AckedOk;
    assert WriterOk(s, p);
    LocalKeeps(s, FinishRetentionStep(s, p, ok).value, p);
  }

  lemma UnlockDirectoryKeeps(s: State, p: Proc)
    requires Inv(s) && p < |s.writers| && UnlockDirectoryStep(s, p).Some?
    ensures Inv(UnlockDirectoryStep(s, p).value)
  {
    hide HistoryOk, TopOk, FileOk, AckedOk;
    assert WriterOk(s, p);
    LocalKeeps(s, UnlockDirectoryStep(s, p).value, p);
  }

  lemma StatKeeps(s: State, p: Proc, ok: bool)
    requires Inv(s) && p < |s.writers| && StatStep(s, p, ok).Some?
    ensures Inv(StatStep(s, p, ok).value)
  {
    assert WriterOk(s, p);
    assert FileOk(s, s.writers[p].handle.value);
    LocalKeeps(s, StatStep(s, p, ok).value, p);
  }

  lemma CloseKeeps(s: State, p: Proc)
    requires Inv(s) && p < |s.writers| && CloseStep(s, p).Some?
    ensures Inv(CloseStep(s, p).value)
  {
    hide HistoryOk, TopOk, FileOk, AckedOk;
    assert WriterOk(s, p);
    LocalKeeps(s, CloseStep(s, p).value, p);
  }

  // Steps on the directory

  lemma OpenKeeps(s: State, p: Proc, ok: bool)
    requires Inv(s) && p < |s.writers| && OpenStep(s, p, ok).Some?
    ensures Inv(OpenStep(s, p, ok).value)
  {
    var s' := OpenStep(s, p, ok).value;
    assert WriterOk(s, p);
    if !ok {
      LocalKeeps(s, s', p);
    } else if Shard(s.writers[p].phase.record.day, s.writers[p].phase.index) in s.dir {
      OpenExistingKeeps(s, p);
    } else {
      OpenNewKeeps(s, p);
    }
  }

  lemma OpenExistingKeeps(s: State, p: Proc)
    requires Inv(s) && p < |s.writers| && s.writers[p].phase.Opening?
    requires Shard(s.writers[p].phase.record.day, s.writers[p].phase.index) in s.dir
    ensures Inv(OpenStep(s, p, true).value)
  {
    hide HistoryOk, TopOk, IsHighest, Content;
    var s' := OpenStep(s, p, true).value;
    assert WriterOk(s, p);
    var dropped := To(s, p, Abandoning(s.writers[p].phase.record));
    LocalKeepsFiles(s, dropped, p);
    forall n | 0 <= n < |s'.files| ensures FileOk(s', n) {
      assert FileOk(dropped, n);
      forall i | 0 <= i < |s.files[n].segments| ensures SegmentPlaced(s', n, i) {
        assert SegmentPlaced(dropped, n, i);
      }
    }
    HistorySurvives(s, s', p);
    OpenedOnTop(s, s', p);
    OpenedPhaseOk(s, s', p);
    OtherWritersKeep(s, s', p);
    assert forall q :: 0 <= q < |s'.writers| ==> q == p || WriterOk(s', q);
  }

  /** The shard that is opened is the last one of its day. */
  lemma OpenedOnTop(s: State, s': State, p: Proc)
    requires Inv(s) && p < |s.writers| && s.writers[p].phase.Opening? && OpenStep(s, p, true) == Some(s')
    ensures TopOk(s', p)
  {
    assert WriterOk(s, p);
    var w := s.writers[p];
    forall t ensures HandleTop(s', p, t) {
      if t in w.places { assert PlaceOk(s, p, t); }
    }
  }

  lemma OpenedPhaseOk(s: State, s': State, p: Proc)
    requires Inv(s) && p < |s.writers| && s.writers[p].phase.Opening? && OpenStep(s, p, true) == Some(s')
    ensures PhaseOk(s', p)
  {
    hide HistoryOk, TopOk, FileOk, AckedOk;
    assert WriterOk(s, p);
  }

  lemma OpenNewKeeps(s: State, p: Proc)
    requires Inv(s) && p < |s.writers| && s.writers[p].phase.Opening?
    requires Shard(s.writers[p].phase.record.day, s.writers[p].phase.index) !in s.dir
    ensures Inv(OpenStep(s, p, true).value)
  {
    hide HistoryOk, TopOk, PhaseOk, FileOk, DirOk, Rely;
    var s' := OpenStep(s, p, true).value;
    OpenNewKeepsFiles(s, p);
    OpenNewIsRelied(s, p);
    HistorySurvivesOpening(s, p);
    OpenedOnTop(s, s', p);
    OpenedPhaseOk(s, s', p);
    OtherWritersKeep(s, s', p);
    assert forall q :: 0 <= q < |s'.writers| ==> q == p || WriterOk(s', q);
  }

  lemma OpenNewKeepsFiles(s: State, p: Proc)
    requires Inv(s) && p < |s.writers| && s.writers[p].phase.Opening?
    requires Shard(s.writers[p].phase.record.day, s.writers[p].phase.index) !in s.dir
    ensures var s' := OpenStep(s, p, true).value; DirOk(s') && forall n :: 0 <= n < |s'.files| ==> FileOk(s', n)
  {
    hide WriterOk;
    var s' := OpenStep(s, p, true).value;
    forall n | 0 <= n < |s'.files| ensures FileOk(s', n) {
      if n < |s.files| {
        assert FileOk(s, n);
        forall i | 0 <= i < |s.files[n].segments| ensures SegmentPlaced(s', n, i) {
          assert SegmentPlaced(s, n, i);
        }
      }
    }
  }

  lemma OpenNewIsRelied(s: State, p: Proc)
    requires Inv(s) && p < |s.writers| && s.writers[p].phase.Opening?
    requires Shard(s.writers[p].phase.record.day, s.writers[p].phase.index) !in s.dir
    ensures forall q :: 0 <= q < |s.writers| && q != p ==> Rely(s, OpenStep(s, p, true).value, q)
  {
    hide HistoryOk, TopOk, FileOk;
    assert WriterOk(s, p);
  }

  lemma HistorySurvivesOpening(s: State, p: Proc)
    requires Inv(s) && p < |s.writers| && s.writers[p].phase.Opening?
    requires Shard(s.writers[p].phase.record.day, s.writers[p].phase.index) !in s.dir
    ensures HistoryOk(OpenStep(s, p, true).value, p)
  {
    hide HistoryOk, TopOk, FileOk;
    assert WriterOk(s, p);
    HistorySurvives(s, OpenStep(s, p, true).value, p);
  }

  lemma RemoveKeeps(s: State, p: Proc, shard: Shard)
    requires Inv(s) && p < |s.writers| && RemoveStep(s, p, shard).Some?
    ensures Inv(RemoveStep(s, p, shard).value)
  {
    hide Content, SegmentsOk, HistoryOk, TopOk;
    var s' := RemoveStep(s, p, shard).value;
    assert WriterOk(s, p);
    forall n | 0 <= n < |s'.files| ensures FileOk(s', n) {
      assert FileOk(s, n);
      forall i | 0 <= i < |s.files[n].segments| ensures SegmentPlaced(s', n, i) {
        assert SegmentPlaced(s, n, i);
      }
    }
    HistorySurvives(s, s', p);
    TopSurvives(s, s', p);
    OtherWritersKeep(s, s', p);
    assert forall q :: 0 <= q < |s'.writers| ==> q == p || WriterOk(s', q);
  }

  // Steps on the locked shard

  /** Writer `p` changes file `n`, its own handle, and itself; nobody else holds the lock. */
  ghost predicate OnShard(s: State, s': State, p: Proc, n: Inode) {
    && OthersSame(s, s', p) && n < |s.files| && s.writers[p].handle == Some(n)
    && s' == s.(writers := s'.writers, files := s'.files, accidents := s'.accidents)
    && s'.accidents >= s.accidents
    && |s'.files| == |s.files|
    && (forall m :: 0 <= m < |s.files| && m != n ==> s'.files[m] == s.files[m])
    && s'.files[n].home == s.files[n].home
    && s.files[n].segments <= s'.files[n].segments
    && (s.files[n].lock.None? || s.files[n].lock == Some(p))
    && (forall t :: t in s.writers[p].places ==>
          t in s'.writers[p].places && s'.writers[p].places[t] == s.writers[p].places[t])
  }

  lemma OthersKeepOnShard(s: State, s': State, p: Proc, n: Inode)
    requires Inv(s) && OnShard(s, s', p, n)
    ensures DirOk(s')
    ensures forall m :: 0 <= m < |s.files| && m != n ==> FileOk(s', m)
    ensures forall q :: 0 <= q < |s.writers| && q != p ==> WriterOk(s', q)
  {
    assert FileOk(s, n);
    forall m | 0 <= m < |s.files| && m != n ensures FileOk(s', m) {
      assert FileOk(s, m);
      forall i | 0 <= i < |s.files[m].segments| ensures SegmentPlaced(s', m, i) {
        assert SegmentPlaced(s, m, i);
      }
    }
    OtherWritersKeep(s, s', p);
  }

  /** It remains to look at the file and at the writer itself. */
  lemma OnShardKeeps(s: State, s': State, p: Proc, n: Inode)
    requires Inv(s) && OnShard(s, s', p, n) && FileOk(s', n) && WriterOk(s', p)
    ensures Inv(s')
  {
    OthersKeepOnShard(s, s', p, n);
    assert forall q :: 0 <= q < |s'.writers| ==> q == p || WriterOk(s', q);
    assert forall m :: 0 <= m < |s'.files| ==> m == n || FileOk(s', m);
  }

  lemma SteadyOnShard(s: State, s': State, p: Proc, n: Inode)
    requires Inv(s) && OnShard(s, s', p, n) && FileOk(s', n) && PhaseOk(s', p)
    requires Steady(s.writers[p], s'.writers[p])
    requires s'.writers[p].handle == s.writers[p].handle || s'.writers[p].handle.None?
    ensures Inv(s')
  {
    assert WriterOk(s, p);
    HistorySurvives(s, s', p);
    TopSurvives(s, s', p);
    OnShardKeeps(s, s', p, n);
  }

  lemma SegmentsStayPlaced(s: State, s': State, p: Proc, n: Inode)
    requires Inv(s) && OnShard(s, s', p, n)
    ensures forall i :: 0 <= i < |s.files[n].segments| ==> SegmentPlaced(s', n, i)
  {
    assert FileOk(s, n);
    forall i | 0 <= i < |s.files[n].segments| ensures SegmentPlaced(s', n, i) {
      assert SegmentPlaced(s, n, i);
    }
  }

  lemma LockShardKeeps(s: State, p: Proc)
    requires Inv(s) && p < |s.writers| && LockShardStep(s, p).Some?
    ensures Inv(LockShardStep(s, p).value)
  {
    var s', n := LockShardStep(s, p).value, s.writers[p].handle.value;
    assert WriterOk(s, p) && FileOk(s, n);
    SegmentsStayPlaced(s, s', p, n);
    SteadyOnShard(s, s', p, n);
  }

  lemma TransferKeeps(s: State, p: Proc, count: nat)
    requires Inv(s) && p < |s.writers| && TransferStep(s, p, count).Some?
    ensures Inv(TransferStep(s, p, count).value)
  {
    var s', n := TransferStep(s, p, count).value, s.writers[p].handle.value;
    TransferFileOk(s, p, count);
    assert WriterOk(s, p);
    hide HistoryOk, TopOk, FileOk, AckedOk;
    assert FileOk(s, n) ==> s.files[n].lock == Some(p);
    SteadyOnShard(s, s', p, n);
  }

  lemma TransferFileOk(s: State, p: Proc, count: nat)
    requires Inv(s) && p < |s.writers| && TransferStep(s, p, count).Some?
    ensures FileOk(TransferStep(s, p, count).value, s.writers[p].handle.value)
  {
    var s', n := TransferStep(s, p, count).value, s.writers[p].handle.value;
    assert WriterOk(s, p) && FileOk(s, n);
    SegmentsStayPlaced(s, s', p, n);
    TransferredBytes(s, p, count);
    hide HistoryOk, TopOk, SegmentPlaced, AckedOk, SizeOk, PendingOf, SegmentsOk, Content;
    assert Linked(s', n) <==> Linked(s, n);
  }

  /** The chunk continues the line, and the whole line fits behind what was there under the lock. */
  lemma TransferredBytes(s: State, p: Proc, count: nat)
    requires Inv(s) && p < |s.writers| && TransferStep(s, p, count).Some?
    ensures var s', n := TransferStep(s, p, count).value, s.writers[p].handle.value;
            var file, file' := s.files[n], s'.files[n];
            && SegmentsOk(file.segments)
            && file'.bytes == Content(file.segments) + PendingOf(s'.writers[p].phase)
            && SizeOk(s.limit, |file'.bytes|, |file.segments|, |PendingOf(s'.writers[p].phase)|)
  {
    hide Inv, Content, SegmentsOk;
    AppendInProgress(s, p);
    var n := s.writers[p].handle.value;
    var record, written := s.writers[p].phase.record, s.writers[p].phase.written;
    ContentIsEmptyOnlyWithoutSegments(s.files[n].segments);
    ChunkContinues(Content(s.files[n].segments), record.line, written, count);
  }

  lemma ChunkContinues(before: string, line: string, written: nat, count: nat)
    requires written + count <= |line|
    ensures before + line[..written] + line[written..written + count] == before + line[..written + count]
  {
  }

  /** The file of an append in progress: finished appends up to the size under the lock, then this line's first part. */
  lemma AppendInProgress(s: State, p: Proc)
    requires Inv(s) && p < |s.writers| && s.writers[p].phase.Appending?
    ensures var w := s.writers[p];
            && w.handle.Some? && w.handle.value < |s.files|
            && w.phase.written <= |w.phase.record.line|
            && FitsAt(w.phase.base, w.phase.record.line, s.limit)
            && var file := s.files[w.handle.value];
               && SegmentsOk(file.segments)
               && |Content(file.segments)| == w.phase.base
               && file.bytes == Content(file.segments) + w.phase.record.line[..w.phase.written]
               && SizeOk(s.limit, |file.bytes|, |file.segments|, w.phase.written)
  {
    assert WriterOk(s, p) && FileOk(s, s.writers[p].handle.value);
  }

  // Settling an append

  /** The append of `p` may be settled as `segment`, leaving `bytes` in the file. */
  ghost predicate Settles(s: State, p: Proc, bytes: string, segment: Segment) {
    && p < |s.writers|
    && (s.writers[p].phase.Appending? || s.writers[p].phase.Repairing?)
    && s.writers[p].handle.Some? && s.writers[p].handle.value < |s.files|
    && segment.record == s.writers[p].phase.record
    && SegmentOk(segment)
    && var segments := s.files[s.writers[p].handle.value].segments;
       SegmentsOk(segments) && bytes == Content(segments) + Written(segment)
  }

  function Settled(s: State, p: Proc, bytes: string, segment: Segment, verdict: Verdict, accidents: nat): State
    requires p < |s.writers| && s.writers[p].handle.Some? && s.writers[p].handle.value < |s.files|
  {
    Settle(s, p, s.writers[p].handle.value, bytes, segment, Unlocking(segment.record, verdict)).(accidents := accidents)
  }

  lemma SettledFileOk(s: State, p: Proc, bytes: string, segment: Segment, verdict: Verdict, accidents: nat)
    requires Inv(s) && Settles(s, p, bytes, segment)
    requires accidents >= s.accidents && (segment.Dangling? ==> accidents > 0)
    ensures FileOk(Settled(s, p, bytes, segment, verdict, accidents), s.writers[p].handle.value)
  {
    hide HistoryOk, TopOk, SegmentPlaced, SizeOk, Written, Content;
    var s', n := Settled(s, p, bytes, segment, verdict, accidents), s.writers[p].handle.value;
    assert WriterOk(s, p) && FileOk(s, n);
    var segments, file' := s.files[n].segments, s'.files[n];
    ContentGrows(segments, segment);
    SettledSizeOk(s, p, bytes, segment);
    SettledSegmentsPlaced(s, p, bytes, segment, verdict, accidents);
    assert Linked(s', n) <==> Linked(s, n);
    assert Pending(s', file') == "";
  }

  lemma SettledSegmentsPlaced(s: State, p: Proc, bytes: string, segment: Segment, verdict: Verdict, accidents: nat)
    requires Inv(s) && Settles(s, p, bytes, segment)
    ensures var s', n := Settled(s, p, bytes, segment, verdict, accidents), s.writers[p].handle.value;
            forall i :: 0 <= i < |s'.files[n].segments| ==> SegmentPlaced(s', n, i)
  {
    var s', n := Settled(s, p, bytes, segment, verdict, accidents), s.writers[p].handle.value;
    assert WriterOk(s, p) && FileOk(s, n);
    hide HistoryOk, TopOk, FileOk, Written, Content;
    forall i | 0 <= i < |s'.files[n].segments| ensures SegmentPlaced(s', n, i) {
      if i < |s.files[n].segments| { assert SegmentPlaced(s, n, i); }
    }
  }

  lemma SettledSizeOk(s: State, p: Proc, bytes: string, segment: Segment)
    requires Inv(s) && Settles(s, p, bytes, segment)
    ensures SizeOk(s.limit, |bytes|, |s.files[s.writers[p].handle.value].segments| + 1, 0)
  {
    hide HistoryOk, TopOk, SegmentPlaced, Linked;
    var n := s.writers[p].handle.value;
    assert WriterOk(s, p) && FileOk(s, n);
    ContentIsEmptyOnlyWithoutSegments(s.files[n].segments);
    assert |Written(segment)| <= |segment.record.line|;
  }

  lemma SettledPlacesOk(s: State, p: Proc, bytes: string, segment: Segment, verdict: Verdict, accidents: nat)
    requires Inv(s) && Settles(s, p, bytes, segment)
    ensures var s' := Settled(s, p, bytes, segment, verdict, accidents);
            && (forall t :: t in s'.writers[p].places ==> PlaceOk(s', p, t))
            && (forall i :: 0 <= i < |s'.writers[p].acked| ==> AckedOk(s', p, s'.writers[p].acked[i]))
  {
    hide TopOk, Written;
    var s' := Settled(s, p, bytes, segment, verdict, accidents);
    assert WriterOk(s, p);
    var w, w' := s.writers[p], s'.writers[p];
    forall t | t in w'.places ensures PlaceOk(s', p, t) {
      if t != segment.record.ticket { assert PlaceOk(s, p, t); }
    }
    forall i | 0 <= i < |w.acked| ensures AckedOk(s', p, w.acked[i]) {
      assert AckedOk(s, p, w.acked[i]) && PlaceOk(s', p, w.acked[i].ticket);
    }
  }

  /** The new segment is the writer's latest, and it lies behind all its others. */
  lemma SettledOrderOk(s: State, p: Proc, bytes: string, segment: Segment, verdict: Verdict, accidents: nat, t: nat, u: nat)
    requires Inv(s) && Settles(s, p, bytes, segment)
    ensures OrderOk(Settled(s, p, bytes, segment, verdict, accidents), p, t, u)
    ensures HandleTop(Settled(s, p, bytes, segment, verdict, accidents), p, t)
  {
    hide Written, Content;
    var s' := Settled(s, p, bytes, segment, verdict, accidents);
    assert WriterOk(s, p);
    var w := s.writers[p];
    assert OrderOk(s, p, t, u) && HandleTop(s, p, t);
    if t in w.places { assert PlaceOk(s, p, t); }
    if u in w.places { assert PlaceOk(s, p, u); }
    assert forall n :: Linked(s', n) <==> Linked(s, n);
  }

  lemma SettledHistoryOk(s: State, p: Proc, bytes: string, segment: Segment, verdict: Verdict, accidents: nat)
    requires Inv(s) && Settles(s, p, bytes, segment)
    ensures HistoryOk(Settled(s, p, bytes, segment, verdict, accidents), p)
    ensures TopOk(Settled(s, p, bytes, segment, verdict, accidents), p)
  {
    hide PlaceOk, AckedOk, OrderOk, HandleTop, PhaseOk, FileOk, SegmentOk, Written;
    var s' := Settled(s, p, bytes, segment, verdict, accidents);
    assert WriterOk(s, p);
    SettledPlacesOk(s, p, bytes, segment, verdict, accidents);
    forall t, u ensures OrderOk(s', p, t, u) {
      SettledOrderOk(s, p, bytes, segment, verdict, accidents, t, u);
    }
    forall t ensures HandleTop(s', p, t) {
      SettledOrderOk(s, p, bytes, segment, verdict, accidents, t, t);
    }
  }

  lemma SettleKeeps(s: State, p: Proc, bytes: string, segment: Segment, verdict: Verdict, accidents: nat)
    requires Inv(s) && Settles(s, p, bytes, segment)
    requires accidents >= s.accidents && (segment.Dangling? ==> accidents > 0)
    requires !verdict.Retry? && (verdict.Acknowledge? ==> segment.Whole?)
    ensures Inv(Settled(s, p, bytes, segment, verdict, accidents))
  {
    hide Inv, HistoryOk, TopOk, PhaseOk, FileOk, OnShard;
    var s', n := Settled(s, p, bytes, segment, verdict, accidents), s.writers[p].handle.value;
    SettledFileOk(s, p, bytes, segment, verdict, accidents);
    SettledHistoryOk(s, p, bytes, segment, verdict, accidents);
    SettledPhaseOk(s, p, bytes, segment, verdict, accidents);
    SettledOnShard(s, p, bytes, segment, verdict, accidents);
    OnShardKeeps(s, s', p, n);
  }

  lemma SettledOnShard(s: State, p: Proc, bytes: string, segment: Segment, verdict: Verdict, accidents: nat)
    requires Inv(s) && Settles(s, p, bytes, segment) && accidents >= s.accidents
    ensures OnShard(s, Settled(s, p, bytes, segment, verdict, accidents), p, s.writers[p].handle.value)
  {
    hide Inv, Written, Content;
    ShardIsMine(s, p);
  }

  /** Under its shard lock, the writer has the file to itself and its record is not placed yet. */
  lemma ShardIsMine(s: State, p: Proc)
    requires Inv(s) && p < |s.writers| && HoldsShard(s.writers[p].phase)
    ensures var w := s.writers[p];
            && w.handle.Some? && w.handle.value < |s.files|
            && s.files[w.handle.value].lock == Some(p)
            && (!w.phase.Unlocking? ==> w.phase.record.ticket !in w.places)
  {
    assert WriterOk(s, p);
  }

  lemma SettledPhaseOk(s: State, p: Proc, bytes: string, segment: Segment, verdict: Verdict, accidents: nat)
    requires Inv(s) && Settles(s, p, bytes, segment)
    requires !verdict.Retry? && (verdict.Acknowledge? ==> segment.Whole?)
    ensures PhaseOk(Settled(s, p, bytes, segment, verdict, accidents), p)
  {
    SettledHistoryOk(s, p, bytes, segment, verdict, accidents);
    assert WriterOk(s, p);
    hide TopOk, FileOk, Content, Written;
    assert PlaceOk(Settled(s, p, bytes, segment, verdict, accidents), p, segment.record.ticket);
  }

  lemma TransferFailsKeeps(s: State, p: Proc)
    requires Inv(s) && p < |s.writers| && TransferFailsStep(s, p).Some?
    ensures Inv(TransferFailsStep(s, p).value)
  {
    hide Inv, Settles;
    var w := s.writers[p];
    if w.phase.written == |w.phase.record.line| {
      FinishedAppendSettles(s, p);
      SettleKeeps(s, p, s.files[w.handle.value].bytes, Whole(w.phase.record), Fail, s.accidents);
    } else {
      GivingUpIsLocal(s, p);
      LocalKeeps(s, TransferFailsStep(s, p).value, p);
    }
  }

  lemma FinishedAppendSettles(s: State, p: Proc)
    requires Inv(s) && p < |s.writers| && s.writers[p].phase.Appending?
    requires s.writers[p].phase.written == |s.writers[p].phase.record.line|
    requires s.writers[p].handle.Some? && s.writers[p].handle.value < |s.files|
    ensures Settles(s, p, s.files[s.writers[p].handle.value].bytes, Whole(s.writers[p].phase.record))
    ensures s.writers[p].phase.written > 0
  {
    hide HistoryOk, TopOk;
    assert WriterOk(s, p) && FileOk(s, s.writers[p].handle.value);
  }

  lemma GivingUpIsLocal(s: State, p: Proc)
    requires Inv(s) && p < |s.writers| && TransferFailsStep(s, p).Some?
    requires s.writers[p].phase.written != |s.writers[p].phase.record.line|
    ensures var s' := TransferFailsStep(s, p).value; Local(s, s', p) && PhaseOk(s', p)
  {
    hide HistoryOk, TopOk, FileOk, AckedOk, Content, SegmentsOk;
    assert WriterOk(s, p);
  }

  lemma FinishWriteKeeps(s: State, p: Proc)
    requires Inv(s) && p < |s.writers| && FinishWriteStep(s, p).Some?
    ensures Inv(FinishWriteStep(s, p).value)
  {
    hide Inv, Settles;
    var w := s.writers[p];
    FinishedAppendSettles(s, p);
    SettleKeeps(s, p, s.files[w.handle.value].bytes, Whole(w.phase.record), Acknowledge, s.accidents);
  }

  lemma RepairKeeps(s: State, p: Proc, outcome: Outcome)
    requires Inv(s) && p < |s.writers| && RepairStep(s, p, outcome).Some?
    ensures Inv(RepairStep(s, p, outcome).value)
  {
    var w := s.writers[p];
    var n, record, written := w.handle.value, w.phase.record, w.phase.written;
    assert WriterOk(s, p) && FileOk(s, n);
    var file := s.files[n];
    hide HistoryOk, TopOk, FileOk, SegmentPlaced, AckedOk;
    match outcome
    case Newlined =>
      assert file.bytes + "\n" == Content(file.segments) + Written(Closed(record, written));
      SettleKeeps(s, p, file.bytes + "\n", Closed(record, written), Fail, s.accidents);
    case Unrepaired =>
      SettleKeeps(s, p, file.bytes, Dangling(record, written), Fail, s.accidents + 1);
    case Truncated => TruncateKeeps(s, p);
  }

  /** Back to the size under the lock is back to the finished appends. */
  lemma TruncateKeeps(s: State, p: Proc)
    requires Inv(s) && p < |s.writers| && RepairStep(s, p, Truncated).Some?
    ensures Inv(RepairStep(s, p, Truncated).value)
  {
    hide Content, HistoryOk, TopOk, AckedOk;
    var s', n := RepairStep(s, p, Truncated).value, s.writers[p].handle.value;
    assert WriterOk(s, p) && FileOk(s, n);
    assert s.files[n].bytes[..s.writers[p].phase.base] == Content(s.files[n].segments);
    SegmentsStayPlaced(s, s', p, n);
    hide SegmentPlaced;
    assert Linked(s', n) <==> Linked(s, n);
    SteadyOnShard(s, s', p, n);
  }

  // Releasing the shard lock

  /** The lock goes, with nothing pending; the writer turns into `w'`. */
  function Released(s: State, p: Proc, w': Writer): State
    requires p < |s.writers| && s.writers[p].handle.Some? && s.writers[p].handle.value < |s.files|
  {
    var n := s.writers[p].handle.value;
    With(WithFile(s, n, s.files[n].(lock := None)), p, w')
  }

  lemma ReleaseKeeps(s: State, p: Proc, w': Writer)
    requires Inv(s) && p < |s.writers| && HoldsShard(s.writers[p].phase) && PendingOf(s.writers[p].phase) == ""
    requires s.writers[p].handle.Some? && s.writers[p].handle.value < |s.files|
    requires Steady(s.writers[p], w') && PendingOf(w'.phase) == "" && !HoldsShard(w'.phase)
    requires w'.handle == s.writers[p].handle || w'.handle.None?
    requires PhaseOk(Released(s, p, w'), p)
    ensures Inv(Released(s, p, w'))
  {
    var s', n := Released(s, p, w'), s.writers[p].handle.value;
    assert WriterOk(s, p) && FileOk(s, n);
    SegmentsStayPlaced(s, s', p, n);
    SteadyOnShard(s, s', p, n);
  }

  lemma UnlockKeeps(s: State, p: Proc, ok: bool)
    requires Inv(s) && p < |s.writers| && UnlockStep(s, p, ok).Some?
    ensures Inv(UnlockStep(s, p, ok).value)
  {
    var s', w := UnlockStep(s, p, ok).value, s.writers[p];
    assert WriterOk(s, p);
    if ok && w.phase.verdict.Acknowledge? {
      var idle := w.(phase := Idle);
      ReleaseKeeps(s, p, idle);
      var released := Released(s, p, idle);
      AcknowledgeKeeps(released, p, w.phase.record);
      assert s'.writers == With(released, p, idle.(acked := w.acked + [w.phase.record])).writers;
    } else {
      ReleaseKeeps(s, p, s'.writers[p]);
    }
  }

  lemma AcknowledgeKeeps(s: State, p: Proc, record: Record)
    requires Inv(s) && p < |s.writers| && s.writers[p].phase.Idle?
    requires AckedOk(s, p, record) && record.ticket + 1 == s.writers[p].next
    requires forall i :: 0 <= i < |s.writers[p].acked| ==> s.writers[p].acked[i].ticket < record.ticket
    ensures Inv(With(s, p, s.writers[p].(acked := s.writers[p].acked + [record])))
  {
    var w := s.writers[p];
    var s' := With(s, p, w.(acked := w.acked + [record]));
    assert WriterOk(s, p);
    AcknowledgeKeepsFiles(s, p, record);
    forall t | t in w.places ensures PlaceOk(s', p, t) { assert PlaceOk(s, p, t); }
    forall i | 0 <= i < |w.acked| + 1 ensures AckedOk(s', p, s'.writers[p].acked[i]) {
      if i < |w.acked| { assert AckedOk(s, p, w.acked[i]); }
    }
    forall t, u ensures OrderOk(s', p, t, u) { assert OrderOk(s, p, t, u); }
    forall t ensures HandleTop(s', p, t) { assert HandleTop(s, p, t); }
    OtherWritersKeep(s, s', p);
    assert forall q :: 0 <= q < |s'.writers| ==> q == p || WriterOk(s', q);
  }

  lemma AcknowledgeKeepsFiles(s: State, p: Proc, record: Record)
    requires Inv(s) && p < |s.writers| && s.writers[p].phase.Idle?
    ensures var s' := With(s, p, s.writers[p].(acked := s.writers[p].acked + [record]));
            DirOk(s') && forall n :: 0 <= n < |s'.files| ==> FileOk(s', n)
  {
    hide WriterOk;
    var s' := With(s, p, s.writers[p].(acked := s.writers[p].acked + [record]));
    forall n | 0 <= n < |s'.files| ensures FileOk(s', n) {
      assert FileOk(s, n);
      forall i | 0 <= i < |s.files[n].segments| ensures SegmentPlaced(s', n, i) {
        assert SegmentPlaced(s, n, i);
      }
    }
  }

  lemma CrashKeeps(s: State, p: Proc)
    requires Inv(s) && p < |s.writers| && CrashStep(s, p).Some?
    ensures Inv(CrashStep(s, p).value)
  {
    var s', w := CrashStep(s, p).value, s.writers[p];
    assert WriterOk(s, p);
    if !HoldsShard(w.phase) {
      LocalKeeps(s, s', p);
    } else {
      if (w.phase.Appending? || w.phase.Repairing?) && w.phase.written > 0 {
        CrashInAppendKeeps(s, p);
      } else {
        DyingReleaseKeeps(s, p);
      }
    }
  }

  lemma DyingReleaseKeeps(s: State, p: Proc)
    requires Inv(s) && p < |s.writers| && HoldsShard(s.writers[p].phase) && PendingOf(s.writers[p].phase) == ""
    requires s.writers[p].handle.Some? && s.writers[p].handle.value < |s.files|
    ensures Inv(Released(s, p, Dead(s.writers[p])))
  {
    assert WriterOk(s, p);
    ReleaseKeeps(s, p, Dead(s.writers[p]));
  }

  /** A crash in the middle of a line leaves a dangling fragment, or the whole line unacknowledged. */
  lemma CrashInAppendKeeps(s: State, p: Proc)
    requires Inv(s) && p < |s.writers| && CrashStep(s, p).Some?
    requires (s.writers[p].phase.Appending? || s.writers[p].phase.Repairing?) && s.writers[p].phase.written > 0
    ensures Inv(CrashStep(s, p).value)
  {
    hide Inv, Settles, CrashStep;
    var w := s.writers[p];
    UnfinishedAppendSettles(s, p);
    var n, record, written := w.handle.value, w.phase.record, w.phase.written;
    var segment := if written < |record.line| then Dangling(record, written) else Whole(record);
    var accidents := if written < |record.line| then s.accidents + 1 else s.accidents;
    SettleKeeps(s, p, s.files[n].bytes, segment, Fail, accidents);
    CrashSettlesAndReleases(s, p);
    DyingReleaseKeeps(Settled(s, p, s.files[n].bytes, segment, Fail, accidents), p);
  }

  lemma UnfinishedAppendSettles(s: State, p: Proc)
    requires Inv(s) && p < |s.writers| && (s.writers[p].phase.Appending? || s.writers[p].phase.Repairing?)
    requires s.writers[p].phase.written > 0
    ensures var w := s.writers[p];
            && w.handle.Some? && w.handle.value < |s.files|
            && Settles(s, p, s.files[w.handle.value].bytes,
                       if w.phase.written < |w.phase.record.line| then Dangling(w.phase.record, w.phase.written)
                       else Whole(w.phase.record))
  {
    hide HistoryOk, TopOk;
    assert WriterOk(s, p) && FileOk(s, s.writers[p].handle.value);
  }

  lemma CrashSettlesAndReleases(s: State, p: Proc)
    requires p < |s.writers| && CrashStep(s, p).Some?
    requires (s.writers[p].phase.Appending? || s.writers[p].phase.Repairing?) && s.writers[p].phase.written > 0
    ensures var w := s.writers[p];
            var n, record, written := w.handle.value, w.phase.record, w.phase.written;
            var dangles := written < |record.line|;
            var settled := Settled(s, p, s.files[n].bytes, if dangles then Dangling(record, written) else Whole(record),
                                   Fail, if dangles then s.accidents + 1 else s.accidents);
            CrashStep(s, p).value == Released(settled, p, Dead(settled.writers[p]))
  {
    var w := s.writers[p];
    var n, record, written := w.handle.value, w.phase.record, w.phase.written;
    var dangles := written < |record.line|;
    var settled := Settled(s, p, s.files[n].bytes, if dangles then Dangling(record, written) else Whole(record),
                           Fail, if dangles then s.accidents + 1 else s.accidents);
    var released := Released(settled, p, Dead(settled.writers[p]));
    assert CrashStep(s, p).value.files == released.files;
    assert CrashStep(s, p).value.writers == released.writers;
  }

  // What a step leaves alone

  ghost predicate Owns(s: State, p: Proc) {
    && p < |s.writers|
    && (HoldsDirectory(s.writers[p].phase) <==> s.dirLock == Some(p))
    && (s.writers[p].handle.Some? ==> s.writers[p].handle.value < |s.files|)
    && (HoldsShard(s.writers[p].phase) ==>
          s.writers[p].handle.Some? && s.files[s.writers[p].handle.value].lock == Some(p))
  }

  /** Another writer's step does not touch what writer `q` has locked, nor `q` itself. */
  lemma StepIsRelied(s: State, p: Proc, e: Event, q: Proc)
    requires Inv(s) && Next(s, p, e).Some? && q < |s.writers| && q != p
    ensures Rely(s, Next(s, p, e).value, q)
  {
    assert WriterOk(s, p) && WriterOk(s, q);
    assert Owns(s, p) && Owns(s, q) && DirOk(s);
    hide Inv, WriterOk, DirOk;
    match e
    case Open(_) => DirectoryStepIsRelied(s, p, e, q);
    case Remove(_) => DirectoryStepIsRelied(s, p, e, q);
    case LockShard => ShardStepIsRelied(s, p, e, q);
    case Transfer(_) => ShardStepIsRelied(s, p, e, q);
    case TransferFails => ShardStepIsRelied(s, p, e, q);
    case FinishWrite => ShardStepIsRelied(s, p, e, q);
    case Repair(_) => ShardStepIsRelied(s, p, e, q);
    case Unlock(_) => ShardStepIsRelied(s, p, e, q);
    case Crash => CrashIsRelied(s, p, q);
    case _ => LocalStepIsRelied(s, p, e, q);
  }

  lemma LocalStepIsRelied(s: State, p: Proc, e: Event, q: Proc)
    requires Owns(s, p) && Owns(s, q) && q != p && Next(s, p, e).Some?
    requires !e.Open? && !e.Remove? && !e.LockShard? && !e.Transfer? && !e.TransferFails? && !e.FinishWrite?
             && !e.Repair? && !e.Unlock? && !e.Crash?
    ensures Rely(s, Next(s, p, e).value, q)
  {
    var s' := Next(s, p, e).value;
    assert s' == s.(writers := s'.writers, dirLock := s'.dirLock, horizon := s'.horizon);
  }

  lemma DirectoryStepIsRelied(s: State, p: Proc, e: Event, q: Proc)
    requires DirOk(s) && Owns(s, p) && Owns(s, q) && q != p && Next(s, p, e).Some?
    requires e.Open? || e.Remove?
    ensures Rely(s, Next(s, p, e).value, q)
  {
  }

  lemma ShardStepIsRelied(s: State, p: Proc, e: Event, q: Proc)
    requires Owns(s, p) && Owns(s, q) && q != p && Next(s, p, e).Some?
    requires e.LockShard? || e.Transfer? || e.TransferFails? || e.FinishWrite? || e.Repair? || e.Unlock?
    ensures Rely(s, Next(s, p, e).value, q)
  {
    hide Next;
    ShardStepTouchesOneFile(s, p, e);
    FilesDecideWhatIsLinked(s, Next(s, p, e).value);
  }

  /** Only writer `p` and its open file differ, and that file has lost no segment. */
  ghost predicate TouchesOneFile(s: State, s': State, p: Proc) {
    && p < |s.writers| && s.writers[p].handle.Some? && s.writers[p].handle.value < |s.files|
    && s' == s.(writers := s'.writers, files := s'.files, accidents := s'.accidents)
    && |s'.writers| == |s.writers| && |s'.files| == |s.files|
    && (forall q :: 0 <= q < |s.writers| && q != p ==> s'.writers[q] == s.writers[q])
    && (forall m :: 0 <= m < |s.files| && m != s.writers[p].handle.value ==> s'.files[m] == s.files[m])
    && (forall m :: 0 <= m < |s.files| ==> s'.files[m].home == s.files[m].home && s.files[m].segments <= s'.files[m].segments)
    && (HoldsShard(s.writers[p].phase) || s.files[s.writers[p].handle.value].lock.None?)
  }

  lemma ShardStepTouchesOneFile(s: State, p: Proc, e: Event)
    requires p < |s.writers| && Next(s, p, e).Some?
    requires e.LockShard? || e.Transfer? || e.TransferFails? || e.FinishWrite? || e.Repair? || e.Unlock?
    ensures TouchesOneFile(s, Next(s, p, e).value, p)
  {
    hide TransferFailsStep, FinishWriteStep, RepairStep, TouchesOneFile;
    if e.TransferFails? || e.FinishWrite? || e.Repair? {
      EndOfAppendTouchesOneFile(s, p, e);
    } else {
      LockedStepTouchesOneFile(s, p, e);
    }
  }

  lemma LockedStepTouchesOneFile(s: State, p: Proc, e: Event)
    requires p < |s.writers| && Next(s, p, e).Some?
    requires e.LockShard? || e.Transfer? || e.Unlock?
    ensures TouchesOneFile(s, Next(s, p, e).value, p)
  {
    hide Settle;
  }

  lemma EndOfAppendTouchesOneFile(s: State, p: Proc, e: Event)
    requires p < |s.writers| && Next(s, p, e).Some?
    requires e.TransferFails? || e.FinishWrite? || e.Repair?
    ensures TouchesOneFile(s, Next(s, p, e).value, p)
  {
  }

  lemma CrashIsRelied(s: State, p: Proc, q: Proc)
    requires Owns(s, p) && Owns(s, q) && q != p && Next(s, p, Crash).Some?
    ensures Rely(s, Next(s, p, Crash).value, q)
  {
    hide Linked;
    AbandonedIsRelied(s, p, q);
    CrashFreesOnly(s, p);
    var s', settled := Next(s, p, Crash).value, Abandoned(s, p);
    FilesDecideWhatIsLinked(settled, s');
  }

  /** A crash abandons the append and then touches neither files nor shards. */
  lemma CrashFreesOnly(s: State, p: Proc)
    requires p < |s.writers| && CrashStep(s, p).Some?
    ensures var s', settled := CrashStep(s, p).value, Abandoned(s, p);
            && s' == settled.(writers := s'.writers, dirLock := s'.dirLock)
            && (s'.dirLock == settled.dirLock || HoldsDirectory(s.writers[p].phase))
            && forall q :: 0 <= q < |s.writers| && q != p ==> s'.writers[q] == settled.writers[q]
  {
    hide Abandoned;
  }

  lemma FilesDecideWhatIsLinked(s: State, s': State)
    requires |s'.files| == |s.files| && s'.dir == s.dir
    requires forall n :: 0 <= n < |s.files| ==> s'.files[n].home == s.files[n].home
    ensures forall n: nat :: Linked(s', n) <==> Linked(s, n)
  {
  }

  lemma AbandonedIsRelied(s: State, p: Proc, q: Proc)
    requires Owns(s, p) && Owns(s, q) && q != p && CrashStep(s, p).Some?
    ensures Rely(s, Abandoned(s, p), q)
  {
    assert Abandoned(s, p).dir == s.dir;
  }

  lemma RelyIsReflexive(s: State, q: Proc)
    requires q < |s.writers|
    ensures Rely(s, s, q)
  {
  }

  lemma RelyIsTransitive(a: State, b: State, c: State, q: Proc)
    requires Rely(a, b, q) && Rely(b, c, q)
    ensures Rely(a, c, q)
  {
    forall n | 0 <= n < |a.files| ensures a.files[n].segments <= c.files[n].segments {
      assert a.files[n].segments <= b.files[n].segments <= c.files[n].segments;
    }
  }

  /** The bytes of the files that are there already. */
  ghost predicate NoGrowth(s: State, s': State) {
    && |s.files| <= |s'.files|
    && forall n :: 0 <= n < |s.files| ==> |s'.files[n].bytes| <= |s.files[n].bytes|
  }

  predicate MayGrow(e: Event) {
    e.Transfer? || (e.Repair? && e.outcome.Newlined?)
  }

  predicate IsRotation(e: Event) {
    || e.LockDirectory? || e.CloseHandle? || e.Discover? || e.Probe? || e.Open? || e.SkipRetention?
    || e.StartRetention? || e.Remove? || e.FinishRetention? || e.UnlockDirectory?
  }

  lemma RotationsGrowNothing(s: State, p: Proc, e: Event)
    requires Next(s, p, e).Some? && IsRotation(e)
    ensures NoGrowth(s, Next(s, p, e).value)
  {
    hide BeginStep, LockFailsStep, LockShardStep, StatStep, TransferStep, TransferFailsStep, FinishWriteStep, RepairStep;
    hide UnlockStep, CloseStep, CrashStep;
  }

  lemma OnlyWritesGrow(s: State, p: Proc, e: Event)
    requires Next(s, p, e).Some? && !MayGrow(e)
    ensures NoGrowth(s, Next(s, p, e).value)
  {
    hide LockDirectoryStep, CloseHandleStep, DiscoverStep, ProbeStep, OpenStep, SkipRetentionStep, StartRetentionStep;
    hide RemoveStep, FinishRetentionStep, UnlockDirectoryStep;
    if IsRotation(e) { RotationsGrowNothing(s, p, e); }
  }

  // Every step, every run

  lemma StepKeeps(s: State, p: Proc, e: Event)
    requires Inv(s) && Next(s, p, e).Some?
    ensures Inv(Next(s, p, e).value)
  {
    hide Inv;
    match e
    case Begin(day, line) => BeginKeeps(s, p, day, line);
    case LockDirectory => LockDirectoryKeeps(s, p);
    case LockFails => LockFailsKeeps(s, p);
    case CloseHandle(ok) => CloseHandleKeeps(s, p, ok);
    case Discover(ok) => DiscoverKeeps(s, p, ok);
    case Probe(ok) => ProbeKeeps(s, p, ok);
    case Open(ok) => OpenKeeps(s, p, ok);
    case SkipRetention => SkipRetentionKeeps(s, p);
    case StartRetention(cutoff) => StartRetentionKeeps(s, p, cutoff);
    case Remove(shard) => RemoveKeeps(s, p, shard);
    case FinishRetention(ok) => FinishRetentionKeeps(s, p, ok);
    case UnlockDirectory => UnlockDirectoryKeeps(s, p);
    case LockShard => LockShardKeeps(s, p);
    case Stat(ok) => StatKeeps(s, p, ok);
    case Transfer(count) => TransferKeeps(s, p, count);
    case TransferFails => TransferFailsKeeps(s, p);
    case FinishWrite => FinishWriteKeeps(s, p);
    case Repair(outcome) => RepairKeeps(s, p, outcome);
    case Unlock(ok) => UnlockKeeps(s, p, ok);
    case Close => CloseKeeps(s, p);
    case Crash => CrashKeeps(s, p);
  }

  /** The invariant holds throughout every run of any number of writers. */
  lemma {:induction false} RunsKeep(states: seq<State>, steps: seq<Step>, i: nat)
    requires IsRun(states, steps) && Inv(states[0]) && i < |states|
    ensures Inv(states[i])
  {
    hide Inv;
    if i > 0 {
      var before := i - 1;
      RunsKeep(states, steps, before);
      assert Next(states[before], steps[before].proc, steps[before].event) == Some(states[before + 1]);
      StepKeeps(states[before], steps[before].proc, steps[before].event);
    }
  }
}
