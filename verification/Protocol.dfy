/**
 Many writers, one log directory: the shard writer as a labelled transition system.

 Each step is one system call of one writer, so every interleaving of any number of processes is a
 run. There are two kinds of kernel lock: the directory's, held while a writer chooses a shard,
 and one per file, held during an append. A lock is an atomic exclusive step that may also fail,
 and is released by unlocking (whatever that reports) and by a crash.

 A handle denotes a file, not a name: retention can unlink a file that a writer still has open.
 */
module Protocol {
  import opened Wrappers
  import opened Shards

  type Proc = nat
  type Inode = nat

  /** The shard of a UTC date (a day number) with an index: "<date>.jsonl" or "<date>-<index>.jsonl". */
  datatype Shard = Shard(day: int, index: nat)

  /** `segments` is history: what finished appends have left in `bytes`. */
  datatype File = File(home: Shard, bytes: string, lock: Option<Proc>, segments: seq<Segment>)

  /** What a writer does once its shard lock is released. */
  datatype Verdict = Retry | Acknowledge | Fail

  /** The control points of `Write` and `rotate`, with the local variables alive there. */
  datatype Phase =
    | Idle
    | AwaitingDirectory(record: Record)
    | Closing(record: Record)
    | Discovering(record: Record)
    | Probing(record: Record, index: nat, skipped: nat)
    | Opening(record: Record, index: nat, size: nat)
    | Retaining(record: Record, size: nat)
    | Sweeping(record: Record, size: nat, cutoff: int)
    | Leaving(record: Record, size: nat)
    | Abandoning(record: Record)
    | AwaitingShard(record: Record, probed: Option<nat>)
    | Sizing(record: Record, probed: Option<nat>)
    | Appending(record: Record, base: nat, written: nat)
    | Repairing(record: Record, base: nat, written: nat)
    | Unlocking(record: Record, verdict: Verdict)
    | Ended
    | Crashed

  predicate HasRecord(phase: Phase) {
    !phase.Idle? && !phase.Ended? && !phase.Crashed?
  }

  predicate HoldsDirectory(phase: Phase) {
    || phase.Closing? || phase.Discovering? || phase.Probing? || phase.Opening? || phase.Retaining?
    || phase.Sweeping? || phase.Leaving? || phase.Abandoning?
  }

  predicate HoldsShard(phase: Phase) {
    phase.Sizing? || phase.Appending? || phase.Repairing? || phase.Unlocking?
  }

  predicate Waits(phase: Phase) {
    phase.AwaitingDirectory? || phase.AwaitingShard?
  }

  datatype Location = Location(inode: Inode, at: nat)

  /** `next` numbers the attempts; `acked`, `failed` and `places` are history. */
  datatype Writer = Writer(
    phase: Phase, handle: Option<Inode>, next: nat,
    acked: seq<Record>, failed: seq<Record>, places: map<nat, Location>)

  /** `horizon` is the latest cutoff that any sweep has used; `accidents` counts unrepaired fragments. */
  datatype State = State(
    limit: nat, dir: map<Shard, Inode>, files: seq<File>, dirLock: Option<Proc>,
    writers: seq<Writer>, horizon: int, accidents: nat)

  datatype Event =
    | Begin(day: int, line: string)
    | LockDirectory
    | LockFails
    | CloseHandle(ok: bool)
    | Discover(ok: bool)
    | Probe(ok: bool)
    | Open(ok: bool)
    | SkipRetention
    | StartRetention(cutoff: int)
    | Remove(shard: Shard)
    | FinishRetention(ok: bool)
    | UnlockDirectory
    | LockShard
    | Stat(ok: bool)
    | Transfer(count: nat)
    | TransferFails
    | FinishWrite
    | Repair(outcome: Outcome)
    | Unlock(ok: bool)
    | Close
    | Crash

  /** Truncating back is tried first, then a newline; both may fail. */
  datatype Outcome = Truncated | Newlined | Unrepaired

  // Updates

  function With(s: State, p: Proc, w: Writer): State
    requires p < |s.writers|
  {
    s.(writers := s.writers[p := w])
  }

  function To(s: State, p: Proc, phase: Phase): State
    requires p < |s.writers|
  {
    With(s, p, s.writers[p].(phase := phase))
  }

  function Failed(s: State, p: Proc, record: Record): State
    requires p < |s.writers|
  {
    With(s, p, s.writers[p].(phase := Idle, failed := s.writers[p].failed + [record]))
  }

  function WithFile(s: State, n: Inode, file: File): State
    requires n < |s.files|
  {
    s.(files := s.files[n := file])
  }

  /** Settles what an append has left in file `n`, and moves on to `phase`. */
  function Settle(s: State, p: Proc, n: Inode, bytes: string, segment: Segment, phase: Phase): State
    requires p < |s.writers| && n < |s.files|
  {
    var file := s.files[n];
    var w := s.writers[p];
    With(WithFile(s, n, file.(bytes := bytes, segments := file.segments + [segment])), p,
         w.(phase := phase, places := w.places[segment.record.ticket := Location(n, |file.segments|)]))
  }

  predicate DayOf(s: State, handle: Option<Inode>, day: int) {
    handle.Some? && handle.value < |s.files| && s.files[handle.value].home.day == day
  }

  /** `highest` of `discoverShardIndex`: 0, or the largest index among the shards of the day. */
  predicate IsHighest(shards: set<Shard>, day: int, index: nat) {
    && (forall shard :: shard in shards && shard.day == day ==> shard.index <= index)
    && (index == 0 || Shard(day, index) in shards)
  }

  function Highest(dir: map<Shard, Inode>, day: int): (index: nat)
    ensures IsHighest(dir.Keys, day, index)
  {
    HighestExists(dir.Keys, day);
    var indices: set<nat> := (set shard | shard in dir && shard.day == day :: shard.index) + {0};
    assert forall i, j | i in indices && j in indices && IsHighest(dir.Keys, day, i) && IsHighest(dir.Keys, day, j) :: i == j by {
      forall i, j | i in indices && j in indices && IsHighest(dir.Keys, day, i) && IsHighest(dir.Keys, day, j) ensures i == j {
        OneIsHighest(dir.Keys, day, i, j);
      }
    }
    assert exists i :: i in indices && IsHighest(dir.Keys, day, i) by {
      var i: nat :| IsHighest(dir.Keys, day, i);
      assert i > 0 ==> Shard(day, i) in dir;
      assert i in indices;
    }
    var index :| index in indices && IsHighest(dir.Keys, day, index);
    index
  }

  lemma OneIsHighest(shards: set<Shard>, day: int, i: nat, j: nat)
    requires IsHighest(shards, day, i) && IsHighest(shards, day, j)
    ensures i == j
  {
    assert i > 0 ==> Shard(day, i) in shards && Shard(day, i).index <= j;
    assert j > 0 ==> Shard(day, j) in shards && Shard(day, j).index <= i;
  }

  lemma {:induction false} HighestExists(shards: set<Shard>, day: int)
    ensures exists index: nat :: IsHighest(shards, day, index)
    decreases shards
  {
    if shards == {} {
      assert IsHighest(shards, day, 0);
    } else {
      var one :| one in shards;
      HighestExists(shards - {one}, day);
      var index: nat :| IsHighest(shards - {one}, day, index);
      if one.day == day && one.index > index {
        assert one == Shard(day, one.index);
        assert IsHighest(shards, day, one.index);
      } else {
        assert IsHighest(shards, day, index);
      }
    }
  }

  function Init(limit: nat, writers: nat, horizon: int): State {
    State(limit, map[], [], None, seq(writers, _ => Writer(Idle, None, 0, [], [], map[])), horizon, 0)
  }

  // Steps: `None` where the event is not enabled

  function Next(s: State, p: Proc, e: Event): Option<State> {
    if p >= |s.writers| then None
    else
      match e
      case Begin(day, line) => BeginStep(s, p, day, line)
      case LockDirectory => LockDirectoryStep(s, p)
      case LockFails => LockFailsStep(s, p)
      case CloseHandle(ok) => CloseHandleStep(s, p, ok)
      case Discover(ok) => DiscoverStep(s, p, ok)
      case Probe(ok) => ProbeStep(s, p, ok)
      case Open(ok) => OpenStep(s, p, ok)
      case SkipRetention => SkipRetentionStep(s, p)
      case StartRetention(cutoff) => StartRetentionStep(s, p, cutoff)
      case Remove(shard) => RemoveStep(s, p, shard)
      case FinishRetention(ok) => FinishRetentionStep(s, p, ok)
      case UnlockDirectory => UnlockDirectoryStep(s, p)
      case LockShard => LockShardStep(s, p)
      case Stat(ok) => StatStep(s, p, ok)
      case Transfer(count) => TransferStep(s, p, count)
      case TransferFails => TransferFailsStep(s, p)
      case FinishWrite => FinishWriteStep(s, p)
      case Repair(outcome) => RepairStep(s, p, outcome)
      case Unlock(ok) => UnlockStep(s, p, ok)
      case Close => CloseStep(s, p)
      case Crash => CrashStep(s, p)
  }

  /** A new event takes the writer's next ticket. A usable handle skips the rotation. */
  function BeginStep(s: State, p: Proc, day: int, line: string): Option<State>
    requires p < |s.writers|
  {
    var w := s.writers[p];
    if !w.phase.Idle? || !IsLine(line) then None
    else
      var record := Record(p, w.next, day, line);
      var phase := if DayOf(s, w.handle, day) then AwaitingShard(record, None) else AwaitingDirectory(record);
      Some(With(s, p, w.(phase := phase, next := w.next + 1)))
  }

  function LockDirectoryStep(s: State, p: Proc): Option<State>
    requires p < |s.writers|
  {
    var w := s.writers[p];
    if !w.phase.AwaitingDirectory? || s.dirLock.Some? then None
    else Some(To(s, p, Closing(w.phase.record)).(dirLock := Some(p)))
  }

  /** A lock that times out or reports an error drops the event. */
  function LockFailsStep(s: State, p: Proc): Option<State>
    requires p < |s.writers|
  {
    var w := s.writers[p];
    if !Waits(w.phase) then None else Some(Failed(s, p, w.phase.record))
  }

  /** The old handle is gone even if closing it fails. */
  function CloseHandleStep(s: State, p: Proc, ok: bool): Option<State>
    requires p < |s.writers|
  {
    var w := s.writers[p];
    if !w.phase.Closing? then None
    else
      var record := w.phase.record;
      Some(With(s, p, w.(handle := None, phase := if ok then Discovering(record) else Abandoning(record))))
  }

  function DiscoverStep(s: State, p: Proc, ok: bool): Option<State>
    requires p < |s.writers|
  {
    var w := s.writers[p];
    if !w.phase.Discovering? then None
    else
      var record := w.phase.record;
      Some(To(s, p, if ok then Probing(record, Highest(s.dir, record.day), 0) else Abandoning(record)))
  }

  /** The size that `fileSize` reports: 0 for a shard that does not exist. */
  function SizeOf(s: State, shard: Shard): nat {
    if shard in s.dir && s.dir[shard] < |s.files| then |s.files[s.dir[shard]].bytes| else 0
  }

  function ProbeStep(s: State, p: Proc, ok: bool): Option<State>
    requires p < |s.writers|
  {
    var w := s.writers[p];
    if !w.phase.Probing? then None
    else
      var record, index := w.phase.record, w.phase.index;
      var size := SizeOf(s, Shard(record.day, index));
      Some(To(s, p,
              if !ok then Abandoning(record)
              else if size != 0 && size + |record.line| > s.limit then Probing(record, index + 1, w.phase.skipped + 1)
              else Opening(record, index, size)))
  }

  /** Opens the shard for appending, creating it if it does not exist. */
  function OpenStep(s: State, p: Proc, ok: bool): Option<State>
    requires p < |s.writers|
  {
    var w := s.writers[p];
    if !w.phase.Opening? then None
    else
      var record, size := w.phase.record, w.phase.size;
      var shard := Shard(record.day, w.phase.index);
      if !ok then Some(To(s, p, Abandoning(record)))
      else if shard in s.dir then
        Some(With(s, p, w.(handle := Some(s.dir[shard]), phase := Retaining(record, size))))
      else
        var n := |s.files|;
        var created := s.(dir := s.dir[shard := n], files := s.files + [File(shard, "", None, [])]);
        Some(With(created, p, w.(handle := Some(n), phase := Retaining(record, size))))
  }

  function SkipRetentionStep(s: State, p: Proc): Option<State>
    requires p < |s.writers|
  {
    var w := s.writers[p];
    if !w.phase.Retaining? then None else Some(To(s, p, Leaving(w.phase.record, w.phase.size)))
  }

  /** A sweep may use any cutoff: it comes from the wall clock, not from the event. */
  function StartRetentionStep(s: State, p: Proc, cutoff: int): Option<State>
    requires p < |s.writers|
  {
    var w := s.writers[p];
    if !w.phase.Retaining? then None
    else
      var horizon := if cutoff > s.horizon then cutoff else s.horizon;
      Some(To(s, p, Sweeping(w.phase.record, w.phase.size, cutoff)).(horizon := horizon))
  }

  function RemoveStep(s: State, p: Proc, shard: Shard): Option<State>
    requires p < |s.writers|
  {
    var w := s.writers[p];
    if !w.phase.Sweeping? || shard !in s.dir || shard.day >= w.phase.cutoff then None
    else Some(s.(dir := s.dir - {shard}))
  }

  /** A sweep ends well only when nothing before the cutoff is left; otherwise the new handle is closed. */
  function FinishRetentionStep(s: State, p: Proc, ok: bool): Option<State>
    requires p < |s.writers|
  {
    var w := s.writers[p];
    if !w.phase.Sweeping? then None
    else if ok then
      if forall shard :: shard in s.dir ==> shard.day >= w.phase.cutoff
      then Some(To(s, p, Leaving(w.phase.record, w.phase.size)))
      else None
    else Some(With(s, p, w.(handle := None, phase := Abandoning(w.phase.record))))
  }

  function UnlockDirectoryStep(s: State, p: Proc): Option<State>
    requires p < |s.writers|
  {
    var w := s.writers[p];
    match w.phase
    case Leaving(record, size) => Some(To(s, p, AwaitingShard(record, Some(size))).(dirLock := None))
    case Abandoning(record) => Some(Failed(s, p, record).(dirLock := None))
    case _ => None
  }

  function LockShardStep(s: State, p: Proc): Option<State>
    requires p < |s.writers|
  {
    var w := s.writers[p];
    if !w.phase.AwaitingShard? || w.handle.None? || w.handle.value >= |s.files| then None
    else
      var n := w.handle.value;
      if s.files[n].lock.Some? then None
      else Some(To(WithFile(s, n, s.files[n].(lock := Some(p))), p, Sizing(w.phase.record, w.phase.probed)))
  }

  /** The size under the lock decides: an empty shard takes any line, another one only what fits. */
  function StatStep(s: State, p: Proc, ok: bool): Option<State>
    requires p < |s.writers|
  {
    var w := s.writers[p];
    if !w.phase.Sizing? || w.handle.None? || w.handle.value >= |s.files| then None
    else
      var record := w.phase.record;
      var size := |s.files[w.handle.value].bytes|;
      Some(To(s, p,
              if !ok then Unlocking(record, Fail)
              else if size > 0 && size + |record.line| > s.limit then Unlocking(record, Retry)
              else Appending(record, size, 0)))
  }

  /** One call of the file's `Write`, which appends at the end of the file. */
  function TransferStep(s: State, p: Proc, count: nat): Option<State>
    requires p < |s.writers|
  {
    var w := s.writers[p];
    if !w.phase.Appending? || w.handle.None? || w.handle.value >= |s.files| then None
    else
      var record, base, written := w.phase.record, w.phase.base, w.phase.written;
      if !(0 < count && written + count <= |record.line|) then None
      else
        var n := w.handle.value;
        var bytes := s.files[n].bytes + record.line[written..written + count];
        Some(To(WithFile(s, n, s.files[n].(bytes := bytes)), p, Appending(record, base, written + count)))
  }

  /** An error, or a short write: repaired only if part of the line, but not all of it, is in the file. */
  function TransferFailsStep(s: State, p: Proc): Option<State>
    requires p < |s.writers|
  {
    var w := s.writers[p];
    if !w.phase.Appending? || w.handle.None? || w.handle.value >= |s.files| then None
    else
      var record, base, written := w.phase.record, w.phase.base, w.phase.written;
      if written == 0 then Some(To(s, p, Unlocking(record, Fail)))
      else if written < |record.line| then Some(To(s, p, Repairing(record, base, written)))
      else
        var n := w.handle.value;
        Some(Settle(s, p, n, s.files[n].bytes, Whole(record), Unlocking(record, Fail)))
  }

  function FinishWriteStep(s: State, p: Proc): Option<State>
    requires p < |s.writers|
  {
    var w := s.writers[p];
    if !w.phase.Appending? || w.handle.None? || w.handle.value >= |s.files| then None
    else
      var record := w.phase.record;
      var n := w.handle.value;
      if w.phase.written != |record.line| then None
      else Some(Settle(s, p, n, s.files[n].bytes, Whole(record), Unlocking(record, Acknowledge)))
  }

  /** `restoreLineBoundary`: back to the size read under the lock, or a newline after the fragment. */
  function RepairStep(s: State, p: Proc, outcome: Outcome): Option<State>
    requires p < |s.writers|
  {
    var w := s.writers[p];
    if !w.phase.Repairing? || w.handle.None? || w.handle.value >= |s.files| then None
    else
      var record, base, written := w.phase.record, w.phase.base, w.phase.written;
      var n := w.handle.value;
      var file := s.files[n];
      match outcome
      case Truncated =>
        if base > |file.bytes| then None
        else Some(To(WithFile(s, n, file.(bytes := file.bytes[..base])), p, Unlocking(record, Fail)))
      case Newlined =>
        Some(Settle(s, p, n, file.bytes + "\n", Closed(record, written), Unlocking(record, Fail)))
      case Unrepaired =>
        Some(Settle(s, p, n, file.bytes, Dangling(record, written), Unlocking(record, Fail))
             .(accidents := s.accidents + 1))
  }

  function UnlockStep(s: State, p: Proc, ok: bool): Option<State>
    requires p < |s.writers|
  {
    var w := s.writers[p];
    if !w.phase.Unlocking? || w.handle.None? || w.handle.value >= |s.files| then None
    else
      var record, verdict := w.phase.record, w.phase.verdict;
      var n := w.handle.value;
      var unlocked := WithFile(s, n, s.files[n].(lock := None));
      if !ok || verdict.Fail? then Some(Failed(unlocked, p, record))
      else if verdict.Retry? then Some(To(unlocked, p, AwaitingDirectory(record)))
      else Some(With(unlocked, p, w.(phase := Idle, acked := w.acked + [record])))
  }

  function CloseStep(s: State, p: Proc): Option<State>
    requires p < |s.writers|
  {
    var w := s.writers[p];
    if !w.phase.Idle? then None else Some(With(s, p, w.(phase := Ended, handle := None)))
  }

  /** The process dies: the kernel releases its locks and nothing is repaired. */
  function CrashStep(s: State, p: Proc): Option<State>
    requires p < |s.writers|
  {
    var w := s.writers[p];
    if w.phase.Crashed? then None
    else if HoldsShard(w.phase) && (w.handle.None? || w.handle.value >= |s.files|) then None
    else
      var settled := Abandoned(s, p);
      var freed := if HoldsDirectory(w.phase) then settled.(dirLock := None) else settled;
      Some(With(freed, p, Dead(freed.writers[p])))
  }

  /** Its record, if it was in the middle of an event, counts as failed. */
  function Dead(w: Writer): Writer {
    w.(phase := Crashed, handle := None, failed := if HasRecord(w.phase) then w.failed + [w.phase.record] else w.failed)
  }

  /** What is left of an append whose writer is gone: the bytes so far, and the lock released. */
  function Abandoned(s: State, p: Proc): (r: State)
    requires p < |s.writers|
    requires HoldsShard(s.writers[p].phase) ==> s.writers[p].handle.Some? && s.writers[p].handle.value < |s.files|
    ensures |r.writers| == |s.writers|
  {
    var w := s.writers[p];
    if !HoldsShard(w.phase) then s
    else
      var n := w.handle.value;
      var unlocked := WithFile(s, n, s.files[n].(lock := None));
      if (w.phase.Appending? || w.phase.Repairing?) && w.phase.written > 0 then
        var record, written := w.phase.record, w.phase.written;
        if written < |record.line| then
          Settle(unlocked, p, n, s.files[n].bytes, Dangling(record, written), w.phase).(accidents := s.accidents + 1)
        else Settle(unlocked, p, n, s.files[n].bytes, Whole(record), w.phase)
      else unlocked
  }

  // Runs

  datatype Step = Step(proc: Proc, event: Event)

  ghost predicate IsRun(states: seq<State>, steps: seq<Step>) {
    && |states| == |steps| + 1
    && forall i :: 0 <= i < |steps| ==> Next(states[i], steps[i].proc, steps[i].event) == Some(states[i + 1])
  }
}
