/** What is remembered of every attempt, over any run, and where its record can be. */
module Histories {
  import opened Wrappers
  import opened Shards
  import opened Protocol
  import opened ProtocolInvariant
  import opened ProtocolTheorems

  /** The writer has attempted this record: it was acknowledged, has failed, or is being written. */
  ghost predicate Knows(w: Writer, record: Record) {
    record in w.acked || record in w.failed || (HasRecord(w.phase) && w.phase.record == record)
  }

  // One step

  /** What a step does to a writer's attempts: it begins one, goes on with it, or ends it. */
  predicate Turns(w: Writer, w': Writer, p: Proc) {
    if w'.next != w.next then
      && w'.next == w.next + 1 && w'.acked == w.acked && w'.failed == w.failed
      && !HasRecord(w.phase)
      && HasRecord(w'.phase) && w'.phase.record.writer == p && w'.phase.record.ticket == w.next
    else if HasRecord(w.phase) == HasRecord(w'.phase) then
      && w'.acked == w.acked && w'.failed == w.failed
      && (HasRecord(w.phase) ==> w'.phase.record == w.phase.record)
    else
      && HasRecord(w.phase)
      && if w'.failed == w.failed then w'.acked == w.acked + [w.phase.record]
         else w'.acked == w.acked && w'.failed == w.failed + [w.phase.record]
  }

  /** No attempt is forgotten, and the only new one has the next ticket. */
  lemma TurningRemembers(w: Writer, w': Writer, p: Proc)
    requires Turns(w, w', p)
    ensures w.acked <= w'.acked && w.next <= w'.next
    ensures forall record :: Knows(w, record) ==> Knows(w', record)
    ensures forall record :: Knows(w', record) && !Knows(w, record) ==>
              HasRecord(w'.phase) && record == w'.phase.record && record.writer == p && record.ticket == w.next < w'.next
  {
  }

  /** A step settles at most the record being written, in the file that is open. */
  ghost predicate Settling(s: State, s': State, p: Proc)
    requires p < |s.writers|
  {
    && |s.files| <= |s'.files|
    && (forall n :: |s.files| <= n < |s'.files| ==> s'.files[n].segments == [])
    && forall n :: 0 <= n < |s.files| ==> SettlesAt(s.files[n].segments, s'.files[n].segments, s.writers[p], n)
  }

  ghost predicate SettlesAt(before: seq<Segment>, after: seq<Segment>, w: Writer, n: Inode) {
    || after == before
    || (&& |after| == |before| + 1 && after[..|before|] == before
        && (w.phase.Appending? || w.phase.Repairing?) && w.handle == Some(n)
        && after[|before|].record == w.phase.record)
  }

  ghost predicate Extends(s: State, s': State, p: Proc) {
    && p < |s.writers| && |s'.writers| == |s.writers|
    && (forall q :: 0 <= q < |s.writers| && q != p ==> s'.writers[q] == s.writers[q])
    && Turns(s.writers[p], s'.writers[p], p)
    && Settling(s, s', p)
  }

  lemma LookingForAShardExtends(s: State, p: Proc, e: Event)
    requires Next(s, p, e).Some? && (e.LockDirectory? || e.CloseHandle? || e.Discover? || e.Probe? || e.SkipRetention?)
    ensures Extends(s, Next(s, p, e).value, p)
  {
    hide OpenStep, StartRetentionStep, RemoveStep, FinishRetentionStep, UnlockDirectoryStep, LockShardStep;
    hide TransferStep, UnlockStep, TransferFailsStep, FinishWriteStep, RepairStep, BeginStep, LockFailsStep;
    hide StatStep, CloseStep, CrashStep;
  }

  lemma OpeningAShardExtends(s: State, p: Proc, e: Event)
    requires Next(s, p, e).Some? && (e.Open? || e.StartRetention? || e.Remove? || e.FinishRetention? || e.UnlockDirectory?)
    ensures Extends(s, Next(s, p, e).value, p)
  {
    hide LockDirectoryStep, CloseHandleStep, DiscoverStep, ProbeStep, SkipRetentionStep, LockShardStep;
    hide TransferStep, UnlockStep, TransferFailsStep, FinishWriteStep, RepairStep, BeginStep, LockFailsStep;
    hide StatStep, CloseStep, CrashStep;
  }

  lemma HoldingAShardExtends(s: State, p: Proc, e: Event)
    requires Next(s, p, e).Some? && (e.LockShard? || e.Transfer? || e.Unlock?)
    ensures Extends(s, Next(s, p, e).value, p)
  {
    hide LockDirectoryStep, CloseHandleStep, DiscoverStep, ProbeStep, SkipRetentionStep, OpenStep;
    hide StartRetentionStep, RemoveStep, FinishRetentionStep, UnlockDirectoryStep, TransferFailsStep;
    hide FinishWriteStep, RepairStep, BeginStep, LockFailsStep, StatStep, CloseStep, CrashStep;
  }

  lemma EndOfAppendExtends(s: State, p: Proc, e: Event)
    requires Next(s, p, e).Some? && (e.TransferFails? || e.FinishWrite? || e.Repair?)
    ensures Extends(s, Next(s, p, e).value, p)
  {
    hide LockDirectoryStep, CloseHandleStep, DiscoverStep, ProbeStep, SkipRetentionStep, OpenStep;
    hide StartRetentionStep, RemoveStep, FinishRetentionStep, UnlockDirectoryStep, LockShardStep;
    hide TransferStep, UnlockStep, BeginStep, LockFailsStep, StatStep, CloseStep, CrashStep;
  }

  lemma OtherStepExtends(s: State, p: Proc, e: Event)
    requires Next(s, p, e).Some? && (e.Begin? || e.LockFails? || e.Stat? || e.Close?)
    ensures Extends(s, Next(s, p, e).value, p)
  {
    hide LockDirectoryStep, CloseHandleStep, DiscoverStep, ProbeStep, SkipRetentionStep, OpenStep;
    hide StartRetentionStep, RemoveStep, FinishRetentionStep, UnlockDirectoryStep, LockShardStep;
    hide TransferStep, UnlockStep, TransferFailsStep, FinishWriteStep, RepairStep, CrashStep;
  }

  lemma CrashTurns(s: State, p: Proc)
    requires p < |s.writers| && CrashStep(s, p).Some?
    ensures var s' := CrashStep(s, p).value;
            && |s'.writers| == |s.writers| && Turns(s.writers[p], s'.writers[p], p)
            && forall q :: 0 <= q < |s.writers| && q != p ==> s'.writers[q] == s.writers[q]
  {
  }

  lemma CrashSettles(s: State, p: Proc)
    requires p < |s.writers| && CrashStep(s, p).Some?
    ensures Settling(s, CrashStep(s, p).value, p)
  {
    var s', w := CrashStep(s, p).value, s.writers[p];
    assert s'.files == Abandoned(s, p).files;
    if HoldsShard(w.phase) {
      assert s'.files == s.files[w.handle.value := s'.files[w.handle.value]];
    }
  }

  lemma CrashExtends(s: State, p: Proc)
    requires p < |s.writers| && CrashStep(s, p).Some?
    ensures Extends(s, CrashStep(s, p).value, p)
  {
    hide CrashStep, Turns, Settling;
    CrashTurns(s, p);
    CrashSettles(s, p);
  }

  lemma CrashIsAStep(s: State, p: Proc)
    requires Next(s, p, Crash).Some?
    ensures p < |s.writers| && CrashStep(s, p) == Next(s, p, Crash)
  {
  }

  lemma StepExtends(s: State, p: Proc, e: Event)
    requires Next(s, p, e).Some?
    ensures Extends(s, Next(s, p, e).value, p)
  {
    hide Next, Extends;
    if e.LockDirectory? || e.CloseHandle? || e.Discover? || e.Probe? || e.SkipRetention? {
      LookingForAShardExtends(s, p, e);
    } else if e.Open? || e.StartRetention? || e.Remove? || e.FinishRetention? || e.UnlockDirectory? {
      OpeningAShardExtends(s, p, e);
    } else if e.LockShard? || e.Transfer? || e.Unlock? {
      HoldingAShardExtends(s, p, e);
    } else if e.TransferFails? || e.FinishWrite? || e.Repair? {
      EndOfAppendExtends(s, p, e);
    } else if e.Crash? {
      CrashIsAStep(s, p);
      CrashExtends(s, p);
    } else {
      OtherStepExtends(s, p, e);
    }
  }

  // Every run

  /** The writer's attempts have different tickets. */
  ghost predicate TicketsTell(w: Writer, p: Proc) {
    && (forall record :: Knows(w, record) ==> record.writer == p && record.ticket < w.next)
    && (forall a, b :: Knows(w, a) && Knows(w, b) && a.ticket == b.ticket ==> a == b)
  }

  /** What is in the files has been attempted. */
  ghost predicate IsAttempted(s: State, segment: Segment) {
    segment.record.writer < |s.writers| && Knows(s.writers[segment.record.writer], segment.record)
  }

  ghost predicate Ledger(s: State) {
    && (forall p :: 0 <= p < |s.writers| ==> TicketsTell(s.writers[p], p))
    && (forall n, i :: 0 <= n < |s.files| && 0 <= i < |s.files[n].segments| ==> IsAttempted(s, s.files[n].segments[i]))
  }

  lemma StepKeepsTickets(w: Writer, w': Writer, p: Proc)
    requires TicketsTell(w, p) && Turns(w, w', p)
    ensures TicketsTell(w', p)
  {
    hide Turns, Knows;
    TurningRemembers(w, w', p);
  }

  lemma AttemptInHand(w: Writer, p: Proc)
    requires HasRecord(w.phase) && TicketsTell(w, p)
    ensures Knows(w, w.phase.record) && w.phase.record.writer == p
  {
  }

  lemma StepKeepsLedger(s: State, s': State, p: Proc)
    requires Ledger(s) && Extends(s, s', p)
    ensures Ledger(s')
  {
    hide Turns, Knows, TicketsTell;
    StepKeepsTickets(s.writers[p], s'.writers[p], p);
    TurningRemembers(s.writers[p], s'.writers[p], p);
    forall n, i | 0 <= n < |s'.files| && 0 <= i < |s'.files[n].segments| ensures IsAttempted(s', s'.files[n].segments[i]) {
      assert n < |s.files| && SettlesAt(s.files[n].segments, s'.files[n].segments, s.writers[p], n);
      if i < |s.files[n].segments| {
        assert s'.files[n].segments[i] == s.files[n].segments[i] && IsAttempted(s, s.files[n].segments[i]);
      } else {
        AttemptInHand(s.writers[p], p);
      }
    }
  }

  lemma {:induction false} RunKeepsLedger(states: seq<State>, steps: seq<Step>, i: nat)
    requires IsRun(states, steps) && i < |states| && Ledger(states[0])
    ensures Ledger(states[i])
  {
    hide Next, Ledger, Extends;
    if i > 0 {
      RunKeepsLedger(states, steps, i - 1);
      assert Next(states[i - 1], steps[i - 1].proc, steps[i - 1].event) == Some(states[i]);
      StepExtends(states[i - 1], steps[i - 1].proc, steps[i - 1].event);
      StepKeepsLedger(states[i - 1], states[i], steps[i - 1].proc);
    }
  }

  /** In every reachable state, each writer's attempts have different tickets, and nothing else is in the files. */
  lemma ReachableLedger(s: State)
    requires Reachable(s)
    ensures Ledger(s)
  {
    var states, steps, limit, writers, horizon :|
      IsRun(states, steps) && states[0] == Init(limit, writers, horizon) && s == states[|steps|];
    RunKeepsLedger(states, steps, |steps|);
  }

  // From one state to a later one

  /** The writers can get from one state to the other. */
  ghost predicate Leads(s: State, s': State) {
    exists states, steps :: IsRun(states, steps) && states[0] == s && states[|steps|] == s'
  }

  /** What stays: attempts, acknowledgements, homes of files, and what has been settled in them. */
  ghost predicate Preserved(s: State, s': State) {
    && |s'.writers| == |s.writers| && |s'.files| >= |s.files| && s'.horizon >= s.horizon
    && (forall q :: 0 <= q < |s.writers| ==> WriterPreserved(s.writers[q], s'.writers[q]))
    && (forall n :: 0 <= n < |s.files| ==>
          s'.files[n].home == s.files[n].home && s.files[n].segments <= s'.files[n].segments)
  }

  ghost predicate WriterPreserved(w: Writer, w': Writer) {
    && w.acked <= w'.acked && w.next <= w'.next
    && forall record :: Knows(w, record) ==> Knows(w', record)
  }

  lemma StepPreserves(s: State, p: Proc, e: Event)
    requires Next(s, p, e).Some?
    ensures Preserved(s, Next(s, p, e).value)
  {
    hide Next, Turns, Knows;
    var s' := Next(s, p, e).value;
    StepExtends(s, p, e);
    HomesStay(s, p, e);
    TurningRemembers(s.writers[p], s'.writers[p], p);
    forall n | 0 <= n < |s.files| ensures s.files[n].segments <= s'.files[n].segments {
      assert SettlesAt(s.files[n].segments, s'.files[n].segments, s.writers[p], n);
    }
  }

  lemma PreservedOn(s: State, s': State, s'': State)
    requires Preserved(s, s') && Preserved(s', s'')
    ensures Preserved(s, s'')
  {
    hide Knows;
    forall q | 0 <= q < |s.writers| ensures WriterPreserved(s.writers[q], s''.writers[q]) {
      assert WriterPreserved(s.writers[q], s'.writers[q]) && WriterPreserved(s'.writers[q], s''.writers[q]);
    }
  }

  lemma {:induction false} RunPreserves(states: seq<State>, steps: seq<Step>, i: nat)
    requires IsRun(states, steps) && i < |states|
    ensures Preserved(states[0], states[i])
  {
    hide Next, WriterPreserved;
    if i == 0 {
      NothingChanges(states[0]);
    } else {
      RunPreserves(states, steps, i - 1);
      assert Next(states[i - 1], steps[i - 1].proc, steps[i - 1].event) == Some(states[i]);
      StepPreserves(states[i - 1], steps[i - 1].proc, steps[i - 1].event);
      PreservedOn(states[0], states[i - 1], states[i]);
    }
  }

  lemma NothingChanges(s: State)
    ensures Preserved(s, s)
  {
    hide Knows;
  }

  /** No step of anybody, however many there are, takes back what is there. */
  lemma LaterStatesPreserve(s: State, s': State)
    requires Leads(s, s')
    ensures Preserved(s, s')
  {
    hide Preserved;
    var states, steps :| IsRun(states, steps) && states[0] == s && states[|steps|] == s';
    RunPreserves(states, steps, |steps|);
  }

  lemma RunsJoin(states: seq<State>, steps: seq<Step>, later: seq<State>, more: seq<Step>)
    requires IsRun(states, steps) && IsRun(later, more) && states[|steps|] == later[0]
    ensures IsRun(states + later[1..], steps + more)
  {
    hide Next;
    var states', steps' := states + later[1..], steps + more;
    forall i | 0 <= i < |steps'| ensures Next(states'[i], steps'[i].proc, steps'[i].event) == Some(states'[i + 1]) {
      if i < |steps| {
        assert Next(states[i], steps[i].proc, steps[i].event) == Some(states[i + 1]);
      } else {
        var j := i - |steps|;
        assert Next(later[j], more[j].proc, more[j].event) == Some(later[j + 1]);
        assert states'[i] == later[j] && states'[i + 1] == later[j + 1];
      }
    }
  }

  lemma LaterStatesAreReachable(s: State, s': State)
    requires Reachable(s) && Leads(s, s')
    ensures Reachable(s')
  {
    hide Next;
    var states: seq<State>, steps: seq<Step>, limit, writers, horizon :|
      IsRun(states, steps) && states[0] == Init(limit, writers, horizon) && s == states[|steps|];
    var later: seq<State>, more: seq<Step> :| IsRun(later, more) && later[0] == s && later[|more|] == s';
    RunsJoin(states, steps, later, more);
    var states', steps' := states + later[1..], steps + more;
    assert states'[0] == Init(limit, writers, horizon) && states'[|steps'|] == s';
  }

  // One attempt, one file

  /**
   The attempt with this ticket is bound to file `n`: its record is being written there, or nothing
   more can be written of it, and it is settled nowhere else.
   */
  ghost predicate BoundTo(s: State, p: Proc, ticket: nat, n: Inode) {
    && p < |s.writers|
    && ticket < s.writers[p].next
    && InHand(s.writers[p], ticket, n)
    && forall m, i :: 0 <= m < |s.files| && 0 <= i < |s.files[m].segments| && m != n ==>
         !OfAttempt(s.files[m].segments[i], p, ticket)
  }

  predicate OfAttempt(segment: Segment, p: Proc, ticket: nat) {
    segment.record.writer == p && segment.record.ticket == ticket
  }

  predicate InHand(w: Writer, ticket: nat, n: Inode) {
    HasRecord(w.phase) && w.phase.record.ticket == ticket ==>
      || ((w.phase.Appending? || w.phase.Repairing?) && w.handle == Some(n))
      || (w.phase.Unlocking? && !w.phase.verdict.Retry?)
  }

  lemma InHandStays(s: State, p: Proc, e: Event, ticket: nat, n: Inode)
    requires Next(s, p, e).Some? && ticket < s.writers[p].next && InHand(s.writers[p], ticket, n)
    ensures InHand(Next(s, p, e).value.writers[p], ticket, n)
  {
    hide Highest, SizeOf;
  }

  lemma StepKeepsBound(s: State, q: Proc, e: Event, p: Proc, ticket: nat, n: Inode)
    requires Next(s, q, e).Some? && Ledger(s) && BoundTo(s, p, ticket, n)
    ensures BoundTo(Next(s, q, e).value, p, ticket, n)
  {
    hide Next, Turns, Knows, TicketsTell, InHand;
    var s' := Next(s, q, e).value;
    StepExtends(s, q, e);
    TurningRemembers(s.writers[q], s'.writers[q], q);
    if p == q { InHandStays(s, p, e, ticket, n); }
    forall m, i | 0 <= m < |s'.files| && 0 <= i < |s'.files[m].segments| && m != n
      ensures !OfAttempt(s'.files[m].segments[i], p, ticket)
    {
      assert m < |s.files| && SettlesAt(s.files[m].segments, s'.files[m].segments, s.writers[q], m);
      if i < |s.files[m].segments| {
        assert s'.files[m].segments[i] == s.files[m].segments[i];
      } else {
        AttemptInHand(s.writers[q], q);
        if q == p { BoundElsewhere(s.writers[q], ticket, n, m); }
      }
    }
  }

  lemma BoundElsewhere(w: Writer, ticket: nat, n: Inode, m: Inode)
    requires InHand(w, ticket, n) && m != n
    ensures (w.phase.Appending? || w.phase.Repairing?) && w.handle == Some(m) ==> w.phase.record.ticket != ticket
  {
  }

  lemma {:induction false} RunKeepsBound(states: seq<State>, steps: seq<Step>, i: nat, p: Proc, ticket: nat, n: Inode)
    requires IsRun(states, steps) && i < |states| && Ledger(states[0]) && BoundTo(states[0], p, ticket, n)
    ensures BoundTo(states[i], p, ticket, n)
  {
    hide Next, Ledger, BoundTo;
    if i > 0 {
      RunKeepsBound(states, steps, i - 1, p, ticket, n);
      RunKeepsLedger(states, steps, i - 1);
      assert Next(states[i - 1], steps[i - 1].proc, steps[i - 1].event) == Some(states[i]);
      StepKeepsBound(states[i - 1], steps[i - 1].proc, steps[i - 1].event, p, ticket, n);
    }
  }

  /** Whatever is in a file is the record of some attempt, the one in progress included. */
  lemma StandingIsKnown(s: State, n: Inode, i: nat)
    requires Reachable(s) && n < |s.files| && i < |Present(s, n)|
    ensures var record := Present(s, n)[i].record; record.writer < |s.writers| && Knows(s.writers[record.writer], record)
  {
    hide Reachable, Inv, TicketsTell;
    ReachableIsInvariant(s);
    ReachableLedger(s);
    FinishedOrInProgress(s, n, i);
    if i < |s.files[n].segments| { assert IsAttempted(s, s.files[n].segments[i]); }
  }

  lemma StandingIsBound(s: State, n: Inode, i: nat, p: Proc, ticket: nat)
    requires Reachable(s) && Stands(s, n, i, p, ticket)
    ensures BoundTo(s, p, ticket, n)
  {
    hide Reachable, Inv, Knows;
    ReachableIsInvariant(s);
    ReachableLedger(s);
    StandingIsKnown(s, n, i);
    FinishedOrInProgress(s, n, i);
    forall m, j | 0 <= m < |s.files| && 0 <= j < |s.files[m].segments| && m != n
      ensures !OfAttempt(s.files[m].segments[j], p, ticket)
    {
      FinishedOrInProgress(s, m, j);
    }
    if i < |s.files[n].segments| { SettledIsNotWritten(s, p, ticket); }
  }

  lemma SettledIsNotWritten(s: State, p: Proc, ticket: nat)
    requires Inv(s) && p < |s.writers| && ticket in s.writers[p].places
    ensures HasRecord(s.writers[p].phase) && s.writers[p].phase.record.ticket == ticket ==>
              s.writers[p].phase.Unlocking? && !s.writers[p].phase.verdict.Retry?
  {
    hide HistoryOk, TopOk;
    assert WriterOk(s, p);
  }

  /** An attempt that has left something in one file never leaves anything in another, however long one waits. */
  lemma AttemptsStayInOneFile(s: State, n: Inode, i: nat, s': State, m: Inode, j: nat, p: Proc, ticket: nat)
    requires Reachable(s) && Leads(s, s') && Stands(s, n, i, p, ticket) && Stands(s', m, j, p, ticket)
    ensures m == n
  {
    hide Next, BoundTo, Ledger, Inv, Stands;
    ReachableLedger(s);
    StandingIsBound(s, n, i, p, ticket);
    var states, steps :| IsRun(states, steps) && states[0] == s && states[|steps|] == s';
    RunKeepsBound(states, steps, |steps|, p, ticket, n);
    LaterStatesAreReachable(s, s');
    BoundMeansThere(s', m, j, p, ticket, n);
  }

  lemma BoundMeansThere(s: State, m: Inode, j: nat, p: Proc, ticket: nat, n: Inode)
    requires Reachable(s) && Stands(s, m, j, p, ticket) && BoundTo(s, p, ticket, n)
    ensures m == n
  {
    hide Reachable, Inv;
    ReachableIsInvariant(s);
    FinishedOrInProgress(s, m, j);
  }
}
