/**
 The writer as the source writes it: `Write`, `rotate` and their helpers over mutable fields,
 calling the operating system while other processes call it too.

 Every system call is one step of the protocol, taken only where the protocol enables it, so
 whatever the writer does is a run of `Protocol` and all theorems about reachable states apply.
 */
module ShardWriter {
  import opened Wrappers
  import opened Shards
  import opened Protocol
  import opened ProtocolInvariant
  import opened ProtocolTheorems

  /** What a writer has done about shards so far: how many it has opened, the cutoffs of its sweeps, what it has removed. */
  datatype Deeds = Deeds(openings: nat, swept: seq<int>, removed: seq<Shard>)

  function Doing(deeds: Deeds, e: Event): Deeds {
    match e
    case Open(ok) => if ok then deeds.(openings := deeds.openings + 1) else deeds
    case StartRetention(cutoff) => deeds.(swept := deeds.swept + [cutoff])
    case Remove(shard) => deeds.(removed := deeds.removed + [shard])
    case _ => deeds
  }

  /**
   Retention as it should be between two moments of one writer, for events of `day`: if a shard was
   opened, and retention is on and was not applied to that day last, one sweep with the cutoff
   counted from today; otherwise none. Nothing is removed but in a sweep, and before its cutoff.
   */
  ghost predicate Retained(
    past: Deeds, applied: Option<int>, now: Deeds, appliedNow: Option<int>, retentionDays: nat, day: int, today: int)
  {
    var sweeps := now.openings > past.openings && retentionDays != 0 && applied != Some(day);
    && now.openings >= past.openings
    && now.swept == past.swept + (if sweeps then [today - retentionDays] else [])
    && appliedNow == (if sweeps then Some(day) else applied)
    && past.removed <= now.removed
    && (forall i :: |past.removed| <= i < |now.removed| ==> now.removed[i].day < today - retentionDays)
    && (!sweeps ==> now.removed == past.removed)
  }

  lemma RetainedOn(
    past: Deeds, applied: Option<int>, mid: Deeds, appliedMid: Option<int>, now: Deeds, appliedNow: Option<int>,
    retentionDays: nat, day: int, today: int)
    requires Retained(past, applied, mid, appliedMid, retentionDays, day, today)
    requires Retained(mid, appliedMid, now, appliedNow, retentionDays, day, today)
    ensures Retained(past, applied, now, appliedNow, retentionDays, day, today)
  {
  }

  /** The log directory and the kernel's locks, shared with other processes. */
  class World {
    var state: State
    /** How often a system call of the writer at hand has failed, a lock that could not be had in time included. */
    var faults: nat
    ghost var deeds: Proc -> Deeds
    /** How many more times the other writers will make a file grow. Any number, but finite. */
    var patience: nat

    constructor (limit: nat, writers: nat, horizon: int, patience: nat)
      ensures Reachable(state) && state == Init(limit, writers, horizon) && this.patience == patience
      ensures forall p :: deeds(p) == Deeds(0, [], [])
    {
      state, this.patience, faults, deeds := Init(limit, writers, horizon), patience, 0, _ => Deeds(0, [], []);
      new;
      assert IsRun([state], []);
      var states, steps: seq<Step> := [state], [];
      assert IsRun(states, steps) && states[0] == Init(limit, writers, horizon) && state == states[|steps|];
    }

    /** One step of writer `p`. */
    method Act(p: Proc, e: Event)
      requires Reachable(state) && Next(state, p, e).Some?
      modifies this`state, this`deeds
      ensures Reachable(state)
      ensures Some(state) == Next(old(state), p, e)
      ensures deeds(p) == Doing(old(deeds)(p), e)
      ensures forall q :: q != p ==> deeds(q) == old(deeds)(q)
    {
      StepsStayReachable(state, p, e);
      state := Next(state, p, e).value;
      ghost var before := deeds;
      deeds := (q: Proc) => if q == p then Doing(before(p), e) else before(q);
    }

    /** A system call that may fail, and does so for certain if it cannot succeed. */
    method Fault(certain: bool) returns (failed: bool)
      modifies this`faults
      ensures certain ==> failed
      ensures faults == old(faults) + if failed then 1 else 0
    {
      failed := *;
      failed := failed || certain;
      if failed {
        faults := faults + 1;
      }
    }

    /** Any number of steps of the other writers. */
    method Interfere(p: Proc)
      requires Reachable(state) && p < |state.writers|
      modifies this
      ensures Reachable(state) && Rely(old(state), state, p)
      ensures patience <= old(patience)
      ensures patience == old(patience) ==> NoGrowth(old(state), state)
      ensures faults == old(faults) && deeds(p) == old(deeds)(p)
    {
      hide Next, Rely, Reachable, Doing;
      var rounds: nat := *;
      RelyIsReflexive(state, p);
      while rounds > 0
        invariant Reachable(state) && Rely(old(state), state, p)
        invariant p < |state.writers|
        invariant patience <= old(patience)
        invariant patience == old(patience) ==> NoGrowth(old(state), state)
        invariant faults == old(faults) && deeds(p) == old(deeds)(p)
      {
        var q: Proc := *;
        var e: Event := *;
        if q != p && Next(state, q, e).Some? && (MayGrow(e) ==> patience > 0) {
          ReachableIsInvariant(state);
          StepIsRelied(state, q, e, p);
          RelyIsTransitive(old(state), state, Next(state, q, e).value, p);
          RelyKeepsCount(old(state), Next(state, q, e).value, p);
          if MayGrow(e) {
            patience := patience - 1;
          } else {
            OnlyWritesGrow(state, q, e);
          }
          Act(q, e);
        }
        rounds := rounds - 1;
      }
    }
  }

  lemma RelyKeepsCount(s: State, s': State, p: Proc)
    requires Rely(s, s', p)
    ensures |s'.writers| == |s.writers| && p < |s'.writers| && s'.writers[p] == s.writers[p]
    ensures |s'.files| >= |s.files| && s'.limit == s.limit
  {
  }

  /** What is left of a directory when those of the entries are removed that are before the cutoff. */
  ghost predicate IsSwept(before: map<Shard, Inode>, dir: map<Shard, Inode>, entries: seq<Shard>, cutoff: int) {
    && (forall shard :: shard in dir <==> shard in before && (shard.day >= cutoff || shard !in entries))
    && forall shard :: shard in dir ==> dir[shard] == before[shard]
  }

  lemma NothingSwept(dir: map<Shard, Inode>, cutoff: int)
    ensures IsSwept(dir, dir, [], cutoff)
  {
  }

  lemma OneMoreSwept(before: map<Shard, Inode>, dir: map<Shard, Inode>, entries: seq<Shard>, shard: Shard, cutoff: int)
    requires IsSwept(before, dir, entries, cutoff)
    ensures IsSwept(before, if shard.day < cutoff then dir - {shard} else dir, entries + [shard], cutoff)
  {
  }

  /** The highest index among the listed shards of a day, as `discoverShardIndex` accumulates it. */
  function HighestOf(entries: seq<Shard>, day: int): nat {
    if entries == [] then 0
    else
      var before, entry := HighestOf(entries[..|entries| - 1], day), entries[|entries| - 1];
      if entry.day == day && entry.index > before then entry.index else before
  }

  lemma NothingIsHighest(day: int)
    ensures HighestOf([], day) == 0
  {
  }

  lemma OneMoreEntry(entries: seq<Shard>, day: int)
    requires entries != []
    ensures var before, entry := HighestOf(entries[..|entries| - 1], day), entries[|entries| - 1];
            HighestOf(entries, day) == if entry.day == day && entry.index > before then entry.index else before
  {
  }

  lemma {:induction false} HighestOfIsHighest(entries: seq<Shard>, day: int)
    ensures IsHighest((set entry | entry in entries), day, HighestOf(entries, day))
  {
    if entries != [] {
      var last := |entries| - 1;
      HighestOfIsHighest(entries[..last], day);
      assert forall entry :: entry in entries <==> entry in entries[..last] || entry == entries[last];
      assert entries[last].day == day ==> entries[last] == Shard(day, entries[last].index);
    }
  }

  class JSONLFileWriter {
    const world: World
    const self: Proc
    const retentionDays: nat

    var handle: Option<Inode>
    var currentDate: Option<int>
    var currentSize: nat
    var retentionAppliedTo: Option<int>
    var closed: bool

    constructor (world: World, self: Proc, retentionDays: nat)
      requires Reachable(world.state) && self < |world.state.writers|
      requires world.state.writers[self].phase.Idle? && world.state.writers[self].handle.None?
      ensures Valid() && !closed && this.world == world && this.self == self
    {
      this.world, this.self, this.retentionDays := world, self, retentionDays;
      handle, currentDate, currentSize, retentionAppliedTo, closed := None, None, 0, None, false;
    }

    /** The fields are what the protocol says they are. */
    ghost predicate Coupled()
      reads this, world
    {
      && Reachable(world.state)
      && self < |world.state.writers|
      && handle == Me().handle
      && match handle
         case None => currentDate.None?
         case Some(n) => n < |world.state.files| && currentDate == Some(world.state.files[n].home.day)
    }

    ghost function Me(): Writer
      requires self < |world.state.writers|
      reads this, world
    {
      world.state.writers[self]
    }

    ghost predicate At(phase: Phase)
      reads this, world
    {
      Coupled() && Me().phase == phase
    }

    /** Between calls the writer is idle, or closed for good. */
    ghost predicate Valid()
      reads this, world
    {
      At(if closed then Ended else Idle) && (closed ==> handle.None?)
    }

    /** The outcome of one event in the writer's history. */
    ghost predicate Recorded(before: Writer, record: Record, ok: bool)
      reads this, world
    {
      && self < |world.state.writers|
      && Me().next == before.next
      && Me().acked == (if ok then before.acked + [record] else before.acked)
      && Me().failed == (if ok then before.failed else before.failed + [record])
    }

    ghost function Mine(): Deeds
      reads world
    {
      world.deeds(self)
    }

    /** The shard that is open. */
    ghost function Home(): Option<Shard>
      reads this, world
    {
      if handle.Some? && handle.value < |world.state.files| then Some(world.state.files[handle.value].home) else None
    }

    /** Nothing has been opened or swept, and whether any system call has failed. */
    ghost predicate Undone(past: Deeds, faults: nat, failed: bool)
      reads world
    {
      Mine() == past && world.faults >= faults && (failed <==> world.faults > faults)
    }

    /** Nothing recorded so far. */
    ghost predicate Unrecorded(before: Writer)
      reads this, world
    {
      && self < |world.state.writers|
      && Me().next == before.next && Me().acked == before.acked && Me().failed == before.failed
    }

    /** Other writers may have run since `before`, but unless their patience shrank no file has grown. */
    ghost predicate Calm(before: State, patience: nat)
      reads world
    {
      && world.patience <= patience
      && |world.state.files| >= |before.files|
      && (world.patience == patience ==> NoGrowth(before, world.state))
    }

    lemma DirectoryIsMine()
      requires Coupled() && HoldsDirectory(Me().phase)
      ensures world.state.dirLock == Some(self)
    {
      ReachableIsInvariant(world.state);
      assert WriterOk(world.state, self);
    }

    /** Time passes: other writers run, this one stays where it is. */
    method Wait(ghost phase: Phase)
      requires At(phase)
      modifies world
      ensures At(phase) && Me() == old(Me())
      ensures Rely(old(world.state), world.state, self) && Calm(old(world.state), old(world.patience))
      ensures Undone(old(Mine()), old(world.faults), false) && Home() == old(Home())
    {
      hide Reachable;
      world.Interfere(self);
    }

    method CloseHandle(record: Record) returns (ok: bool)
      requires At(Closing(record))
      modifies this`handle, this`currentDate, this`currentSize, world
      ensures At(if ok then Discovering(record) else Abandoning(record))
      ensures handle.None? && currentDate.None? && currentSize == 0
      ensures Unrecorded(old(Me())) && world.patience <= old(world.patience)
      ensures Undone(old(Mine()), old(world.faults), !ok) && (old(handle).None? ==> ok)
      ensures world.state.dir == old(world.state.dir)
    {
      hide Reachable;
      DirectoryIsMine();
      Wait(Closing(record));
      ok := true;
      if handle.Some? {
        var failed := world.Fault(false);
        ok := !failed;
      }
      world.Act(self, Protocol.CloseHandle(ok));
      handle, currentDate, currentSize := None, None, 0;
    }

    method ReadDirectory() returns (entries: seq<Shard>)
      ensures forall shard :: shard in entries <==> shard in world.state.dir
    {
      entries := [];
      var left := world.state.dir.Keys;
      while left != {}
        invariant left <= world.state.dir.Keys
        invariant forall shard :: shard in entries <==> shard in world.state.dir && shard !in left
        decreases left
      {
        var shard :| shard in left;
        entries, left := entries + [shard], left - {shard};
      }
    }

    method DiscoverShardIndex(record: Record) returns (highest: nat, ok: bool)
      requires At(Discovering(record))
      modifies world
      ensures At(if ok then Probing(record, highest, 0) else Abandoning(record))
      ensures Unrecorded(old(Me())) && world.patience <= old(world.patience)
      ensures Undone(old(Mine()), old(world.faults), !ok)
      ensures world.state.dir == old(world.state.dir)
    {
      hide Reachable;
      DirectoryIsMine();
      Wait(Discovering(record));
      var failed := world.Fault(false);
      ok, highest := !failed, 0;
      if ok {
        highest := HighestListed(record.day);
      }
      world.Act(self, Discover(ok));
    }

    /** The loop over the entries of the directory. */
    method HighestListed(day: int) returns (highest: nat)
      ensures highest == Highest(world.state.dir, day)
    {
      hide HighestOf, Highest, IsHighest;
      highest := 0;
      var entries := ReadDirectory();
      NothingIsHighest(day);
      for i := 0 to |entries|
        invariant highest == HighestOf(entries[..i], day)
      {
        OneMoreEntry(entries[..i + 1], day);
        assert entries[..i + 1][..i] == entries[..i];
        if entries[i].day == day && entries[i].index > highest {
          highest := entries[i].index;
        }
      }
      assert entries[..|entries|] == entries;
      HighestOfIsHighest(entries, day);
      assert (set entry | entry in entries) == world.state.dir.Keys;
      OneIsHighest(world.state.dir.Keys, day, highest, Highest(world.state.dir, day));
    }

    /** `today` is what the wall clock says, whatever the date of the event. */
    method ApplyRetention(record: Record, size: nat, today: int) returns (ok: bool)
      requires At(Retaining(record, size))
      modifies this, world
      ensures At(if ok then Leaving(record, size) else Abandoning(record))
      ensures Unrecorded(old(Me())) && Calm(old(world.state), old(world.patience))
      ensures ok ==> handle == old(handle) && currentSize == old(currentSize) && Home() == old(Home())
      ensures closed == old(closed)
      ensures var skips := old(retentionAppliedTo) == Some(record.day) || retentionDays == 0;
              && retentionAppliedTo == (if skips then old(retentionAppliedTo) else Some(record.day))
              && (ok ==> OnlyExpiredRemoved(old(world.state.dir), skips, today - retentionDays))
              && Spares(old(world.state.dir), skips, today - retentionDays)
              && Swept(old(Mine()), if skips then [] else [today - retentionDays], today - retentionDays)
      ensures Failing(old(world.faults), !ok)
    {
      hide Reachable, Rely, Next, Grows;
      if retentionAppliedTo == Some(record.day) || retentionDays == 0 {
        BeginRetention(record, size, None);
        return true;
      }
      retentionAppliedTo := Some(record.day);
      BeginRetention(record, size, Some(today - retentionDays));
      ok := SweepBefore(record, size, today - retentionDays);
    }

    /** The sweep begins, or is passed over; so far nothing in the directory changes. */
    method BeginRetention(record: Record, size: nat, cutoff: Option<int>)
      requires At(Retaining(record, size))
      modifies world`state, world`deeds
      ensures At(if cutoff.Some? then Sweeping(record, size, cutoff.value) else Leaving(record, size))
      ensures Unrecorded(old(Me())) && world.state.dir == old(world.state.dir) && world.state.files == old(world.state.files)
      ensures Mine() == if cutoff.Some? then old(Mine()).(swept := old(Mine()).swept + [cutoff.value]) else old(Mine())
    {
      hide Reachable;
      world.Act(self, if cutoff.Some? then StartRetention(cutoff.value) else SkipRetention);
    }

    /** What is in the directory: all that was, without the shards before the cutoff unless the sweep was skipped. */
    ghost predicate OnlyExpiredRemoved(before: map<Shard, Inode>, skipped: bool, cutoff: int)
      reads world
    {
      forall shard :: shard in world.state.dir <==> shard in before && (skipped || shard.day >= cutoff)
    }

    /** Nothing is gone but what is before the cutoff, and that only in a sweep. */
    ghost predicate Spares(before: map<Shard, Inode>, skipped: bool, cutoff: int)
      reads world
    {
      forall shard :: shard in before && (skipped || shard.day >= cutoff) ==>
        shard in world.state.dir && world.state.dir[shard] == before[shard]
    }

    /** These sweeps have begun, and removed only what is before the cutoff. */
    ghost predicate Swept(past: Deeds, cutoffs: seq<int>, cutoff: int)
      reads world
    {
      && Mine().openings == past.openings
      && Mine().swept == past.swept + cutoffs
      && past.removed <= Mine().removed
      && (forall i :: |past.removed| <= i < |Mine().removed| ==> Mine().removed[i].day < cutoff)
      && (cutoffs == [] ==> Mine().removed == past.removed)
    }

    ghost predicate Failing(faults: nat, failed: bool)
      reads world
    {
      world.faults >= faults && (failed <==> world.faults > faults)
    }

    /** A sweep that fails closes the new handle again. */
    method SweepBefore(record: Record, size: nat, cutoff: int) returns (ok: bool)
      requires At(Sweeping(record, size, cutoff))
      modifies this`handle, this`currentDate, this`currentSize, world
      ensures At(if ok then Leaving(record, size) else Abandoning(record))
      ensures Unrecorded(old(Me())) && Calm(old(world.state), old(world.patience))
      ensures ok ==> handle == old(handle) && currentSize == old(currentSize) && Home() == old(Home())
      ensures ok ==> OnlyExpiredRemoved(old(world.state.dir), false, cutoff)
      ensures Spares(old(world.state.dir), false, cutoff)
      ensures RemovedOnly(old(Mine()), cutoff) && Failing(old(world.faults), !ok)
    {
      hide Reachable, Grows, Next;
      DirectoryIsMine();
      Wait(Sweeping(record, size, cutoff));
      var failed := world.Fault(false);
      ok := !failed;
      if ok {
        ok := Sweep(record, size, cutoff);
      }
      EndSweep(record, size, cutoff, ok);
    }

    method EndSweep(record: Record, size: nat, cutoff: int, ok: bool)
      requires At(Sweeping(record, size, cutoff))
      requires ok ==> forall shard :: shard in world.state.dir ==> shard.day >= cutoff
      modifies this`handle, this`currentDate, this`currentSize, world`state, world`deeds
      ensures At(if ok then Leaving(record, size) else Abandoning(record))
      ensures Unrecorded(old(Me())) && world.state.dir == old(world.state.dir) && world.state.files == old(world.state.files)
      ensures ok ==> handle == old(handle) && currentSize == old(currentSize)
      ensures Mine() == old(Mine())
    {
      hide Reachable;
      world.Act(self, FinishRetention(ok));
      if !ok {
        handle, currentDate, currentSize := None, None, 0;
      }
    }

    ghost predicate RemovedOnly(past: Deeds, cutoff: int)
      reads world
    {
      && Mine().openings == past.openings && Mine().swept == past.swept
      && past.removed <= Mine().removed
      && forall i :: |past.removed| <= i < |Mine().removed| ==> Mine().removed[i].day < cutoff
    }

    /** Removes every listed shard before the cutoff, unless one of the removals fails. */
    method Sweep(record: Record, size: nat, cutoff: int) returns (ok: bool)
      requires At(Sweeping(record, size, cutoff))
      modifies world
      ensures At(Sweeping(record, size, cutoff)) && Me() == old(Me()) && Home() == old(Home())
      ensures Calm(old(world.state), old(world.patience))
      ensures ok ==> OnlyExpiredRemoved(old(world.state.dir), false, cutoff)
      ensures Spares(old(world.state.dir), false, cutoff)
      ensures RemovedOnly(old(Mine()), cutoff) && Failing(old(world.faults), !ok)
    {
      hide Reachable, Next, Rely, IsSwept, OnlyExpiredRemoved, Spares;
      ok := true;
      var entries := ReadDirectory();
      NothingSwept(world.state.dir, cutoff);
      for i := 0 to |entries|
        invariant At(Sweeping(record, size, cutoff)) && self < |world.state.writers| && Me() == old(Me())
        invariant Home() == old(Home())
        invariant Calm(old(world.state), old(world.patience))
        invariant IsSwept(old(world.state.dir), world.state.dir, entries[..i], cutoff)
        invariant RemovedOnly(old(Mine()), cutoff) && world.faults == old(world.faults)
      {
        ghost var dir := world.state.dir;
        if entries[i].day < cutoff {
          ok := RemoveShard(record, size, cutoff, entries[i]);
          if !ok {
            SweptSpares(old(world.state.dir), world.state.dir, entries[..i], cutoff);
            return;
          }
        }
        OneMoreSwept(old(world.state.dir), dir, entries[..i], entries[i], cutoff);
        assert entries[..i + 1] == entries[..i] + [entries[i]];
      }
      assert entries[..|entries|] == entries;
      SweptSpares(old(world.state.dir), world.state.dir, entries, cutoff);
    }

    lemma SweptSpares(before: map<Shard, Inode>, dir: map<Shard, Inode>, entries: seq<Shard>, cutoff: int)
      requires dir == world.state.dir && IsSwept(before, dir, entries, cutoff)
      ensures Spares(before, false, cutoff)
      ensures (forall shard :: shard in before ==> shard in entries) ==> OnlyExpiredRemoved(before, false, cutoff)
    {
    }

    /** Removes one shard. One that is gone already is no failure. */
    method RemoveShard(record: Record, size: nat, cutoff: int, shard: Shard) returns (ok: bool)
      requires At(Sweeping(record, size, cutoff)) && shard.day < cutoff
      modifies world
      ensures At(Sweeping(record, size, cutoff)) && Me() == old(Me()) && Home() == old(Home())
      ensures Calm(old(world.state), old(world.patience))
      ensures world.state.dir == if ok then old(world.state.dir) - {shard} else old(world.state.dir)
      ensures RemovedOnly(old(Mine()), cutoff) && Failing(old(world.faults), !ok)
    {
      hide Reachable;
      DirectoryIsMine();
      Wait(Sweeping(record, size, cutoff));
      ok := true;
      if shard in world.state.dir {
        var failed := world.Fault(false);
        if failed {
          return false;
        }
        world.Act(self, Remove(shard));
      }
    }

    /** Ends a rotation: the directory lock is released, whatever unlocking reports. */
    method LeaveDirectory(record: Record, size: nat, ok: bool)
      requires At(if ok then Leaving(record, size) else Abandoning(record))
      modifies world
      ensures At(if ok then AwaitingShard(record, Some(size)) else Idle)
      ensures ok ==> Unrecorded(old(Me()))
      ensures !ok ==> Recorded(old(Me()), record, false)
      ensures Calm(old(world.state), old(world.patience))
      ensures Undone(old(Mine()), old(world.faults), false)
    {
      hide Reachable;
      Wait(if ok then Leaving(record, size) else Abandoning(record));
      world.Act(self, UnlockDirectory);
    }

    method LockDirectory(record: Record) returns (ok: bool)
      requires At(AwaitingDirectory(record))
      modifies world
      ensures At(if ok then Closing(record) else Idle)
      ensures if ok then Unrecorded(old(Me())) else Recorded(old(Me()), record, false)
      ensures world.patience <= old(world.patience)
      ensures Undone(old(Mine()), old(world.faults), !ok)
    {
      hide Reachable, Rely;
      Wait(AwaitingDirectory(record));
      var failed := world.Fault(world.state.dirLock.Some?);
      ok := !failed;
      world.Act(self, if ok then Protocol.LockDirectory else LockFails);
    }

    /** Rotates into the first shard of the day, from the highest index on, that is empty or has room. */
    method Rotate(record: Record, today: int) returns (ok: bool)
      requires At(AwaitingDirectory(record))
      modifies this, world
      ensures closed == old(closed)
      ensures At(if ok then AwaitingShard(record, Some(currentSize)) else Idle)
      ensures ok ==> Unrecorded(old(Me()))
      ensures !ok ==> Recorded(old(Me()), record, false)
      ensures world.patience <= old(world.patience)
      ensures ok ==> currentDate == Some(record.day) && Fits(old(world.patience))
      ensures Failing(old(world.faults), !ok)
      ensures RetainedFor(old(Mine()), old(retentionAppliedTo), record.day, today)
      ensures ok ==> Mine().openings == old(Mine()).openings + 1
    {
      hide Reachable, Next, Rely, Retained;
      NothingRetained(record.day, today);
      ok := LockDirectory(record);
      if !ok {
        return;
      }
      ok := ChooseShard(record, today);
      LeaveDirectory(record, currentSize, ok);
      if ok {
        HandleIsForToday();
      }
    }

    /** One more rotation for the event. */
    method RotateOn(record: Record, today: int, ghost past: Deeds, ghost applied: Option<int>) returns (ok: bool)
      requires At(AwaitingDirectory(record)) && RetainedFor(past, applied, record.day, today)
      modifies this, world
      ensures closed == old(closed)
      ensures At(if ok then AwaitingShard(record, Some(currentSize)) else Idle)
      ensures ok ==> Unrecorded(old(Me()))
      ensures !ok ==> Recorded(old(Me()), record, false)
      ensures world.patience <= old(world.patience)
      ensures ok ==> currentDate == Some(record.day) && Fits(old(world.patience))
      ensures Failing(old(world.faults), !ok)
      ensures RetainedFor(past, applied, record.day, today)
    {
      hide Reachable, Next, Rely, At, Coupled, Retained, Fits;
      ghost var mid, appliedMid := Mine(), retentionAppliedTo;
      ok := Rotate(record, today);
      RetainedOn(past, applied, mid, appliedMid, Mine(), retentionAppliedTo, retentionDays, record.day, today);
    }

    /** What retention has done since then, and for which days. */
    ghost predicate RetainedFor(past: Deeds, applied: Option<int>, day: int, today: int)
      reads this, world
    {
      Retained(past, applied, Mine(), retentionAppliedTo, retentionDays, day, today)
    }

    lemma NothingRetained(day: int, today: int)
      ensures RetainedFor(Mine(), retentionAppliedTo, day, today)
    {
    }

    /** The open file is no longer than the size that was read, unless another writer has made it grow. */
    ghost predicate Fits(patience: nat)
      reads this, world
    {
      && handle.Some? && handle.value < |world.state.files|
      && world.patience <= patience
      && (|world.state.files[handle.value].bytes| <= currentSize || world.patience < patience)
    }

    /** What a rotation does under the directory lock. */
    method ChooseShard(record: Record, today: int) returns (ok: bool)
      requires At(Closing(record))
      modifies this, world
      ensures closed == old(closed)
      ensures At(if ok then Leaving(record, currentSize) else Abandoning(record))
      ensures Unrecorded(old(Me())) && world.patience <= old(world.patience)
      ensures ok ==> Fits(old(world.patience))
      ensures Failing(old(world.faults), !ok)
      ensures RetainedFor(old(Mine()), old(retentionAppliedTo), record.day, today)
      ensures ok ==> Mine().openings == old(Mine()).openings + 1
      ensures var skips := old(retentionAppliedTo) == Some(record.day) || retentionDays == 0;
              && Spares(old(world.state.dir), skips, today - retentionDays)
              && (ok ==> OpenedAndSwept(old(world.state.dir), skips, today - retentionDays))
    {
      hide Reachable, Next, Retained;
      NothingRetained(record.day, today);
      ok := CloseHandle(record);
      if !ok {
        return;
      }
      var index: nat;
      index, ok := DiscoverShardIndex(record);
      if ok {
        ok := OpenFrom(record, index, today);
      }
    }

    /** The probing loop. It ends after two probes, because the lock keeps other shards from appearing. */
    method OpenFrom(record: Record, first: nat, today: int) returns (ok: bool)
      requires At(Probing(record, first, 0))
      modifies this, world
      ensures closed == old(closed)
      ensures At(if ok then Leaving(record, currentSize) else Abandoning(record))
      ensures Unrecorded(old(Me())) && world.patience <= old(world.patience)
      ensures ok ==> Fits(old(world.patience))
      ensures Failing(old(world.faults), !ok)
      ensures RetainedFor(old(Mine()), old(retentionAppliedTo), record.day, today)
      ensures ok ==> Mine().openings == old(Mine()).openings + 1
      ensures var skips := old(retentionAppliedTo) == Some(record.day) || retentionDays == 0;
              && Spares(old(world.state.dir), skips, today - retentionDays)
              && (ok ==> OpenedAndSwept(old(world.state.dir), skips, today - retentionDays))
    {
      hide Reachable, Next, Retained;
      NothingRetained(record.day, today);
      var index, skipped := first, 0;
      while true
        invariant At(Probing(record, index, skipped)) && Unrecorded(old(Me())) && closed == old(closed)
        invariant world.patience <= old(world.patience)
        invariant Undone(old(Mine()), old(world.faults), false) && world.state.dir == old(world.state.dir)
        invariant retentionAppliedTo == old(retentionAppliedTo)
        decreases 2 - skipped
      {
        SkippedOnce();
        var size, readable := ProbeShard(record, index, skipped);
        if !readable {
          return false;
        }
        if size != 0 && size + |record.line| > world.state.limit {
          index, skipped := index + 1, skipped + 1;
          SkippedOnce();
          continue;
        }
        ok := OpenShard(record, index, size, today);
        return;
      }
    }

    /** In the directory is what was there and the shard that is open now, without the expired ones unless the sweep was skipped. */
    ghost predicate OpenedAndSwept(before: map<Shard, Inode>, skipped: bool, cutoff: int)
      reads this, world
    {
      forall shard :: shard in world.state.dir
        <==> (shard in before || Home() == Some(shard)) && (skipped || shard.day >= cutoff)
    }

    method ProbeShard(record: Record, index: nat, skipped: nat) returns (size: nat, ok: bool)
      requires At(Probing(record, index, skipped))
      modifies world
      ensures At(if !ok then Abandoning(record)
                 else if size != 0 && size + |record.line| > world.state.limit then Probing(record, index + 1, skipped + 1)
                 else Opening(record, index, size))
      ensures ok ==> size == SizeOf(world.state, Shard(record.day, index))
      ensures Unrecorded(old(Me())) && world.patience <= old(world.patience)
      ensures Undone(old(Mine()), old(world.faults), !ok) && world.state.dir == old(world.state.dir)
    {
      hide Reachable, Next, SizeOf;
      DirectoryIsMine();
      Wait(Probing(record, index, skipped));
      var failed := world.Fault(false);
      ok := !failed;
      size := ReadSize(record, index, skipped, ok);
    }

    method ReadSize(record: Record, index: nat, skipped: nat, ok: bool) returns (size: nat)
      requires At(Probing(record, index, skipped))
      modifies world`state, world`deeds
      ensures At(if !ok then Abandoning(record)
                 else if size != 0 && size + |record.line| > world.state.limit then Probing(record, index + 1, skipped + 1)
                 else Opening(record, index, size))
      ensures size == SizeOf(world.state, Shard(record.day, index))
      ensures Unrecorded(old(Me())) && Mine() == old(Mine()) && world.state.dir == old(world.state.dir)
    {
      hide Reachable;
      size := SizeOf(world.state, Shard(record.day, index));
      world.Act(self, Probe(ok));
    }

    lemma SkippedOnce()
      requires Coupled() && Me().phase.Probing?
      ensures Me().phase.skipped <= 1
    {
      TwoProbesSuffice(world.state, self);
    }

    method OpenShard(record: Record, index: nat, size: nat, today: int) returns (ok: bool)
      requires At(Opening(record, index, size)) && size == SizeOf(world.state, Shard(record.day, index))
      modifies this, world
      ensures closed == old(closed)
      ensures At(if ok then Leaving(record, currentSize) else Abandoning(record))
      ensures Unrecorded(old(Me())) && world.patience <= old(world.patience)
      ensures ok ==> Fits(old(world.patience))
      ensures Failing(old(world.faults), !ok)
      ensures RetainedFor(old(Mine()), old(retentionAppliedTo), record.day, today)
      ensures ok ==> Mine().openings == old(Mine()).openings + 1
      ensures var skips := old(retentionAppliedTo) == Some(record.day) || retentionDays == 0;
              && Spares(old(world.state.dir), skips, today - retentionDays)
              && (ok ==> OpenedAndSwept(old(world.state.dir), skips, today - retentionDays))
    {
      hide Reachable, Next, Retained, Swept, At, Coupled;
      NothingRetained(record.day, today);
      ghost var past := Mine();
      ok := OpenFile(record, index, size);
      if ok {
        ok := ApplyRetention(record, size, today);
        OneOpening(past, old(retentionAppliedTo), record.day, today);
      }
    }

    lemma OneOpening(past: Deeds, applied: Option<int>, day: int, today: int)
      requires var skips := applied == Some(day) || retentionDays == 0;
               && Swept(past.(openings := past.openings + 1), if skips then [] else [today - retentionDays], today - retentionDays)
               && retentionAppliedTo == if skips then applied else Some(day)
      ensures RetainedFor(past, applied, day, today) && Mine().openings == past.openings + 1
    {
    }


    /** Opens the shard for appending, creating it if it is not there. */
    method OpenFile(record: Record, index: nat, size: nat) returns (ok: bool)
      requires At(Opening(record, index, size)) && size == SizeOf(world.state, Shard(record.day, index))
      modifies this`handle, this`currentDate, this`currentSize, world
      ensures At(if ok then Retaining(record, size) else Abandoning(record))
      ensures Unrecorded(old(Me())) && world.patience <= old(world.patience)
      ensures ok ==> currentSize == size && Fits(old(world.patience))
      ensures Failing(old(world.faults), !ok)
      ensures Mine() == if ok then old(Mine()).(openings := old(Mine()).openings + 1) else old(Mine())
      ensures if ok then HasOpened(old(world.state.dir), Shard(record.day, index)) else world.state.dir == old(world.state.dir)
    {
      hide Reachable;
      hide Next;
      DirectoryIsMine();
      DirectoryIsSound();
      Wait(Opening(record, index, size));
      DirectoryIsSound();
      var failed := world.Fault(false);
      ok := !failed;
      TakeShard(record, index, size, ok);
    }

    method TakeShard(record: Record, index: nat, size: nat, ok: bool)
      requires At(Opening(record, index, size)) && DirOk(world.state)
      modifies this`handle, this`currentDate, this`currentSize, world`state, world`deeds
      ensures At(if ok then Retaining(record, size) else Abandoning(record))
      ensures Unrecorded(old(Me()))
      ensures Mine() == if ok then old(Mine()).(openings := old(Mine()).openings + 1) else old(Mine())
      ensures if ok then HasOpened(old(world.state.dir), Shard(record.day, index)) else world.state.dir == old(world.state.dir)
      ensures ok ==> currentSize == size && handle.Some?
                     && |world.state.files[handle.value].bytes| == SizeOf(old(world.state), Shard(record.day, index))
    {
      hide Reachable;
      world.Act(self, Open(ok));
      if ok {
        handle, currentDate, currentSize := world.state.writers[self].handle, Some(record.day), size;
      }
    }

    /** The shard is open and in the directory, and nothing else has changed there. */
    ghost predicate HasOpened(before: map<Shard, Inode>, shard: Shard)
      reads this, world
    {
      && handle.Some? && Home() == Some(shard)
      && world.state.dir == if shard in before then before else before[shard := handle.value]
    }

    lemma DirectoryIsSound()
      requires Coupled()
      ensures DirOk(world.state)
    {
      ReachableIsInvariant(world.state);
    }

    method TakeBytes(record: Record, base: nat, total: nat, written: nat)
      requires 0 < written && total + written <= |record.line| && At(Appending(record, base, total)) && handle.Some?
      modifies world`state, world`deeds
      ensures At(Appending(record, base, total + written))
      ensures Unrecorded(old(Me())) && Mine() == old(Mine())
    {
      hide Reachable;
      world.Act(self, Transfer(written));
    }

    /** One call of the file's `Write`: it may take any part of the rest, and may also report an error. */
    method HandOver(record: Record, base: nat, total: nat) returns (written: nat, failed: bool)
      requires total <= |record.line| && At(Appending(record, base, total))
      modifies world
      ensures total + written <= |record.line| && At(Appending(record, base, total + written))
      ensures Unrecorded(old(Me())) && world.patience <= old(world.patience)
      ensures Undone(old(Mine()), old(world.faults), failed) && (written == 0 ==> failed)
    {
      hide Reachable;
      Wait(Appending(record, base, total));
      HandleIsOpen();
      var taken: int := *;
      written := if taken < 0 then 0 else if taken > |record.line| - total then |record.line| - total else taken;
      failed := world.Fault(written == 0);
      if written > 0 {
        TakeBytes(record, base, total, written);
      }
    }

    /** The end of the append: all of the line is in the file, or it is given up. */
    method EndAppend(record: Record, base: nat, total: nat, ok: bool)
      requires total <= |record.line| && (ok ==> total == |record.line|) && At(Appending(record, base, total))
      modifies world
      ensures At(if ok then Unlocking(record, Acknowledge)
                 else if 0 < total < |record.line| then Repairing(record, base, total)
                 else Unlocking(record, Fail))
      ensures Unrecorded(old(Me())) && world.patience == old(world.patience)
      ensures Undone(old(Mine()), old(world.faults), false)
    {
      hide Reachable;
      HandleIsOpen();
      world.Act(self, if ok then FinishWrite else TransferFails);
    }

    /** Hands the rest of the line to the file until all of it is there or a call fails. */
    method WriteAll(record: Record, base: nat) returns (total: nat, ok: bool)
      requires At(Appending(record, base, 0))
      modifies world
      ensures total <= |record.line|
      ensures ok ==> total == |record.line|
      ensures At(if ok then Unlocking(record, Acknowledge)
                 else if 0 < total < |record.line| then Repairing(record, base, total)
                 else Unlocking(record, Fail))
      ensures Unrecorded(old(Me())) && world.patience <= old(world.patience)
      ensures Undone(old(Mine()), old(world.faults), !ok)
    {
      hide Reachable, Next;
      total, ok := 0, true;
      while total < |record.line| && ok
        invariant total <= |record.line|
        invariant At(Appending(record, base, total)) && Unrecorded(old(Me()))
        invariant world.patience <= old(world.patience)
        invariant Undone(old(Mine()), old(world.faults), !ok)
        decreases |record.line| - total, ok
      {
        var written, failed := HandOver(record, base, total);
        total, ok := total + written, !failed && written > 0;
      }
      EndAppend(record, base, total, ok);
    }

    /** Cuts the fragment off, or closes it with a newline where truncation fails. No other byte changes. */
    method RestoreLineBoundary(record: Record, complete: nat, written: nat) returns (ghost outcome: Outcome)
      requires At(Repairing(record, complete, written))
      modifies world
      ensures At(Unlocking(record, Fail)) && handle.Some?
      ensures Unrecorded(old(Me())) && world.patience <= old(world.patience)
      ensures |world.state.files| >= |old(world.state.files)|
      ensures complete <= |old(world.state.files[handle.value].bytes)|
      ensures var before := old(world.state.files[handle.value].bytes);
              world.state.files[handle.value].bytes
              == if outcome.Truncated? then before[..complete] else if outcome.Newlined? then before + "\n" else before
      ensures Mine() == old(Mine())
      ensures world.faults == old(world.faults) + if outcome.Truncated? then 0 else if outcome.Newlined? then 1 else 2
    {
      hide Reachable, Next;
      CompleteIsStillThere();
      HandleIsOpen();
      Wait(Repairing(record, complete, written));
      CompleteIsStillThere();
      var untruncated := world.Fault(false);
      if !untruncated {
        EndRepair(record, complete, written, Truncated);
        return Truncated;
      }
      var unwritten := world.Fault(false);
      outcome := if unwritten then Unrepaired else Newlined;
      EndRepair(record, complete, written, if unwritten then Unrepaired else Newlined);
    }

    method EndRepair(record: Record, complete: nat, written: nat, outcome: Outcome)
      requires At(Repairing(record, complete, written)) && handle.Some?
      requires complete <= |world.state.files[handle.value].bytes|
      modifies world`state, world`deeds
      ensures At(Unlocking(record, Fail)) && |world.state.files| == |old(world.state.files)|
      ensures Unrecorded(old(Me())) && Mine() == old(Mine())
      ensures var before := old(world.state.files[handle.value].bytes);
              world.state.files[handle.value].bytes
              == if outcome.Truncated? then before[..complete] else if outcome.Newlined? then before + "\n" else before
    {
      hide Reachable;
      world.Act(self, Repair(outcome));
    }

    lemma CompleteIsStillThere()
      requires Coupled() && Me().phase.Repairing?
      ensures handle.Some? && Me().phase.base <= |world.state.files[handle.value].bytes|
    {
      ReachableIsInvariant(world.state);
      assert WriterOk(world.state, self) && FileOk(world.state, handle.value);
    }

    method LockShard(record: Record, ghost probed: Option<nat>) returns (ok: bool)
      requires At(AwaitingShard(record, probed))
      modifies world
      ensures At(if ok then Sizing(record, probed) else Idle)
      ensures ok ==> Unrecorded(old(Me()))
      ensures !ok ==> Recorded(old(Me()), record, false)
      ensures Calm(old(world.state), old(world.patience))
      ensures Undone(old(Mine()), old(world.faults), !ok)
    {
      hide Reachable;
      HandleIsOpen();
      Wait(AwaitingShard(record, probed));
      var failed := world.Fault(world.state.files[handle.value].lock.Some?);
      ok := !failed;
      world.Act(self, if ok then Protocol.LockShard else LockFails);
    }

    lemma HandleIsOpen()
      requires Coupled() && (Me().phase.AwaitingShard? || HoldsShard(Me().phase))
      ensures handle.Some?
      ensures HoldsShard(Me().phase) ==> world.state.files[handle.value].lock == Some(self)
    {
      ReachableIsInvariant(world.state);
      assert WriterOk(world.state, self);
    }

    method Unlock(record: Record, verdict: Verdict) returns (ok: bool)
      requires At(Unlocking(record, verdict))
      modifies world
      ensures At(if ok && verdict.Retry? then AwaitingDirectory(record) else Idle)
      ensures ok && verdict.Retry? ==> Unrecorded(old(Me()))
      ensures !(ok && verdict.Retry?) ==> Recorded(old(Me()), record, ok && verdict.Acknowledge?)
      ensures world.patience <= old(world.patience)
      ensures Undone(old(Mine()), old(world.faults), !ok)
    {
      hide Reachable;
      HandleIsOpen();
      Wait(Unlocking(record, verdict));
      var failed := world.Fault(false);
      ok := !failed;
      world.Act(self, Protocol.Unlock(ok));
    }

    /** Appends under the shard lock, with the file's size read under that lock; unlocks in the end. */
    method Append(record: Record) returns (ok: bool)
      requires At(Appending(record, currentSize, 0))
      modifies world
      ensures At(Idle) && Recorded(old(Me()), record, ok) && world.patience <= old(world.patience)
      ensures Undone(old(Mine()), old(world.faults), !ok)
    {
      hide Reachable;
      var written, complete := WriteAll(record, currentSize);
      if !complete {
        if 0 < written < |record.line| {
          ghost var outcome := RestoreLineBoundary(record, currentSize, written);
        }
        var unlocked := Unlock(record, Fail);
        return false;
      }
      ok := Unlock(record, Acknowledge);
    }

    /** The size under the lock, which decides what happens to the line. */
    method StatShard(record: Record, ghost probed: Option<nat>) returns (verdict: Option<Verdict>)
      requires At(Sizing(record, probed)) && handle.Some?
      modifies this`currentSize, world`state, world`deeds, world`faults
      ensures At(if verdict.Some? then Unlocking(record, verdict.value) else Appending(record, currentSize, 0))
      ensures Unrecorded(old(Me()))
      ensures verdict.Some? ==> !verdict.value.Acknowledge?
      ensures var size := |old(world.state.files[handle.value].bytes)|;
              && (verdict == Some(Retry) ==> size > 0 && size + |record.line| > world.state.limit)
              && (verdict.None? ==> currentSize == size && (size == 0 || size + |record.line| <= world.state.limit))
      ensures verdict == Some(Retry) && probed.Some? ==> |old(world.state.files[handle.value].bytes)| > probed.value
      ensures Undone(old(Mine()), old(world.faults), verdict == Some(Fail))
    {
      hide Reachable;
      HandleIsOpen();
      FullMeansGrown();
      var failed := world.Fault(false);
      world.Act(self, Stat(!failed));
      if failed {
        return Some(Fail);
      }
      currentSize := |world.state.files[handle.value].bytes|;
      verdict := if currentSize > 0 && currentSize + |record.line| > world.state.limit then Some(Retry) else None;
    }

    /** One look at the open shard under its lock: append if there is room, give up on an error, or retry. */
    method TryShard(record: Record, ghost probed: Option<nat>) returns (verdict: Verdict)
      requires At(AwaitingShard(record, probed)) && handle.Some?
      modifies this`currentSize, world
      ensures At(if verdict.Retry? then AwaitingDirectory(record) else Idle)
      ensures verdict.Retry? ==> Unrecorded(old(Me()))
      ensures !verdict.Retry? ==> Recorded(old(Me()), record, verdict.Acknowledge?)
      ensures world.patience <= old(world.patience)
      ensures verdict.Retry? && probed.Some? && |old(world.state.files[handle.value].bytes)| <= probed.value ==>
                world.patience < old(world.patience)
      ensures Undone(old(Mine()), old(world.faults), verdict.Fail?)
    {
      hide Reachable, NoGrowth, Next, Retained;
      ghost var before := world.state;
      var locked := LockShard(record, probed);
      if !locked {
        return Fail;
      }
      if world.patience == old(world.patience) {
        SizesDidNotGrow(before, world.state, handle.value);
      }
      verdict := StoreOrRetry(record, probed);
    }

    /** What follows under the lock. */
    method StoreOrRetry(record: Record, ghost probed: Option<nat>) returns (verdict: Verdict)
      requires At(Sizing(record, probed)) && handle.Some?
      modifies this`currentSize, world
      ensures At(if verdict.Retry? then AwaitingDirectory(record) else Idle)
      ensures verdict.Retry? ==> Unrecorded(old(Me()))
      ensures !verdict.Retry? ==> Recorded(old(Me()), record, verdict.Acknowledge?)
      ensures world.patience <= old(world.patience)
      ensures verdict.Retry? && probed.Some? ==> |old(world.state.files[handle.value].bytes)| > probed.value
      ensures Undone(old(Mine()), old(world.faults), verdict.Fail?)
    {
      hide Reachable, NoGrowth, Next, Rely;
      var full := StatShard(record, probed);
      if full.Some? {
        var unlocked := Unlock(record, full.value);
        return if unlocked then full.value else Fail;
      }
      var stored := Append(record);
      if stored {
        currentSize := currentSize + |record.line|;
      }
      return if stored then Acknowledge else Fail;
    }

    lemma SizesDidNotGrow(s: State, s': State, n: Inode)
      requires NoGrowth(s, s') && n < |s.files|
      ensures n < |s'.files| && |s'.files[n].bytes| <= |s.files[n].bytes|
    {
    }

    lemma FullMeansGrown()
      requires Coupled() && Me().phase.Sizing? && handle.Some?
      ensures var size := |world.state.files[handle.value].bytes|;
              Me().phase.probed.Some? && size > 0 && size + |Me().phase.record.line| > world.state.limit ==> size > Me().phase.probed.value
    {
      ReachableIsInvariant(world.state);
      assert WriterOk(world.state, self);
    }

    /**
     One event, from start to finish, whatever the other writers do meanwhile. `rotations` counts
     the rotations it took: more than one only if other writers made files grow.
     */
    method Write(day: int, line: string, today: int) returns (ok: bool, ghost rotations: nat)
      requires Valid() && IsLine(line)
      modifies this, world
      ensures Valid() && closed == old(closed)
      ensures old(closed) ==> !ok && Unrecorded(old(Me()))
      ensures !old(closed) ==>
                var record := Record(self, old(Me()).next, day, line);
                Recorded(old(Me()).(next := old(Me()).next + 1), record, ok)
      ensures world.patience <= old(world.patience)
      ensures rotations <= 1 + old(world.patience) - world.patience
      ensures world.faults >= old(world.faults) && (ok <==> !old(closed) && world.faults == old(world.faults))
      ensures RetainedFor(old(Mine()), old(retentionAppliedTo), day, today)
      ensures old(closed) ==> Mine() == old(Mine())
    {
      hide Reachable, Next, Rely, NoGrowth, At, Coupled, Retained;
      rotations := 0;
      NothingRetained(day, today);
      if closed {
        NothingRecorded();
        return false, 0;
      }
      ghost var begun: Writer;
      var record: Record;
      record, begun := Begin(day, line);
      while true
        invariant At(if handle.Some? && currentDate == Some(day)
                     then AwaitingShard(record, if rotations == 0 then None else Some(currentSize))
                     else AwaitingDirectory(record))
        invariant !closed && Unrecorded(begun) && world.patience <= old(world.patience)
        invariant rotations > 0 ==> currentDate == Some(day) && Paid(rotations, old(world.patience))
        invariant world.faults == old(world.faults)
        invariant RetainedFor(old(Mine()), old(retentionAppliedTo), day, today)
        decreases old(world.patience) + 2 - rotations
      {
        if handle.None? || currentDate != Some(day) {
          ok := RotateOn(record, today, old(Mine()), old(retentionAppliedTo));
          rotations := 1;
          if !ok {
            return;
          }
        }
        var verdict := TryShard(record, if rotations == 0 then None else Some(currentSize));
        if !verdict.Retry? {
          return verdict.Acknowledge?, rotations;
        }
        ok := RotateOn(record, today, old(Mine()), old(retentionAppliedTo));
        rotations := rotations + 1;
        if !ok {
          return;
        }
      }
    }

    lemma NothingRecorded()
      requires Valid()
      ensures Unrecorded(Me())
    {
    }

    method Begin(day: int, line: string) returns (record: Record, ghost begun: Writer)
      requires Valid() && IsLine(line) && !closed
      modifies world
      ensures record == Record(self, old(Me()).next, day, line)
      ensures At(if handle.Some? && currentDate == Some(day) then AwaitingShard(record, None) else AwaitingDirectory(record))
      ensures begun == old(Me()).(next := old(Me()).next + 1) && Unrecorded(begun)
      ensures world.patience == old(world.patience)
      ensures Undone(old(Mine()), old(world.faults), false)
    {
      record, begun := Record(self, world.state.writers[self].next, day, line), Me().(next := Me().next + 1);
      world.Act(self, Protocol.Begin(day, line));
    }

    lemma HandleIsForToday()
      requires Coupled() && Me().phase.AwaitingShard?
      ensures handle.Some? && currentDate == Some(Me().phase.record.day)
    {
      ReachableIsInvariant(world.state);
      assert WriterOk(world.state, self);
    }

    /** Each rotation beyond the first is paid for by growth; the last one may still be fresh. */
    ghost predicate Paid(rotations: nat, patience: nat)
      reads this, world
    {
      && world.patience <= patience
      && rotations <= 1 + patience - world.patience
      && handle.Some? && handle.value < |world.state.files|
      && (rotations <= patience - world.patience || |world.state.files[handle.value].bytes| <= currentSize)
    }

    /** Terminal and idempotent. */
    method Close() returns (ok: bool)
      requires Valid()
      modifies this, world
      ensures Valid() && closed
      ensures Unrecorded(old(Me())) && handle.None?
      ensures Undone(old(Mine()), old(world.faults), !ok) && (old(handle).None? ==> ok)
    {
      hide Reachable;
      ok := true;
      if !closed {
        if handle.Some? {
          var failed := world.Fault(false);
          ok := !failed;
        }
        world.Act(self, Protocol.Close);
        closed := true;
        handle, currentDate, currentSize := None, None, 0;
      }
    }
  }
}
