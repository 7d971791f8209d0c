/** Traces: how events are numbered and counted, and what becomes of them on disk. */
module Traces {
  import opened Wrappers
  import opened Shards
  import opened Protocol
  import opened ProtocolInvariant
  import opened ProtocolTheorems
  import opened Histories
  import opened ShardWriter
  import Calendar
  import EventNames
  import Configurations
  import Masking
  import Output
  import Payload
  import Sanitizers

  // Accounting, on values

  /** What came of one call: no usable name, stored, or dropped by the writer. */
  datatype Outcome = Refused | Stored | Lost

  /** `stored` and `lost` are the sequence numbers of the acknowledged and of the dropped events. */
  datatype Account = Account(sequence: nat, stored: seq<nat>, lost: seq<nat>)

  /** The number is taken before the writer is asked, and never given back. */
  function After(account: Account, outcome: Outcome): Account {
    var number := account.sequence + 1;
    match outcome
    case Refused => account
    case Stored => Account(number, account.stored + [number], account.lost)
    case Lost => Account(number, account.stored, account.lost + [number])
  }

  predicate Increasing(numbers: seq<nat>) {
    forall i, j :: 0 <= i < j < |numbers| ==> numbers[i] < numbers[j]
  }

  /** Stored and lost events share out the numbers from 1 on, so a gap in the log is a dropped event. */
  ghost predicate Balanced(account: Account) {
    && account.sequence == |account.stored| + |account.lost|
    && Increasing(account.stored) && Increasing(account.lost)
    && (forall n :: n in account.stored ==> n !in account.lost)
    && (forall n: nat :: 1 <= n <= account.sequence <==> n in account.stored || n in account.lost)
  }

  lemma IncreasingGrows(numbers: seq<nat>, n: nat)
    requires Increasing(numbers) && forall m :: m in numbers ==> m < n
    ensures Increasing(numbers + [n]) && n !in numbers
  {
    assert forall i :: 0 <= i < |numbers| ==> numbers[i] in numbers;
  }

  lemma AfterBalances(account: Account, outcome: Outcome)
    requires Balanced(account)
    ensures Balanced(After(account, outcome))
  {
    var number, after := account.sequence + 1, After(account, outcome);
    assert forall n :: n in account.stored || n in account.lost ==> n < number;
    IncreasingGrows(account.stored, number);
    IncreasingGrows(account.lost, number);
    forall n: nat ensures 1 <= n <= after.sequence <==> n in after.stored || n in after.lost {
      if n == number && !outcome.Refused? { assert n in after.stored || n in after.lost; }
    }
  }

  /** All traces of one tracer. They share the counter of dropped events. */
  datatype Ledger = Ledger(accounts: seq<Account>, dropped: nat)

  datatype Call = Call(trace: nat, outcome: Outcome)

  function Apply(ledger: Ledger, call: Call): Ledger {
    if call.trace >= |ledger.accounts| then ledger
    else Ledger(ledger.accounts[call.trace := After(ledger.accounts[call.trace], call.outcome)],
                ledger.dropped + if call.outcome.Lost? then 1 else 0)
  }

  function ApplyAll(ledger: Ledger, calls: seq<Call>): Ledger {
    if calls == [] then ledger else Apply(ApplyAll(ledger, calls[..|calls| - 1]), calls[|calls| - 1])
  }

  function NewLedger(traces: nat): Ledger {
    Ledger(seq(traces, _ => Account(0, [], [])), 0)
  }

  function TotalLost(accounts: seq<Account>): nat {
    if accounts == [] then 0 else TotalLost(accounts[..|accounts| - 1]) + |accounts[|accounts| - 1].lost|
  }

  lemma {:induction false} TotalLostChanges(accounts: seq<Account>, i: nat, account: Account)
    requires i < |accounts|
    ensures TotalLost(accounts[i := account]) == TotalLost(accounts) - |accounts[i].lost| + |account.lost|
  {
    var last := |accounts| - 1;
    if i < last {
      TotalLostChanges(accounts[..last], i, account);
      assert accounts[i := account][..last] == accounts[..last][i := account];
    } else {
      assert accounts[i := account][..last] == accounts[..last];
    }
  }

  lemma {:induction false} NothingLostYet(traces: nat)
    ensures TotalLost(NewLedger(traces).accounts) == 0
  {
    if traces > 0 {
      NothingLostYet(traces - 1);
      assert NewLedger(traces).accounts[..traces - 1] == NewLedger(traces - 1).accounts;
    }
  }

  /**
   Over every run of calls on any number of traces, in any interleaving: each trace's numbers are
   shared out between stored and dropped events, and the tracer's counter is the sum of the drops.
   */
  lemma {:induction false} EveryRunBalances(traces: nat, calls: seq<Call>)
    ensures var ledger := ApplyAll(NewLedger(traces), calls);
            && |ledger.accounts| == traces
            && (forall i :: 0 <= i < traces ==> Balanced(ledger.accounts[i]))
            && ledger.dropped == TotalLost(ledger.accounts)
  {
    if calls == [] {
      NothingLostYet(traces);
    } else {
      var before, call := ApplyAll(NewLedger(traces), calls[..|calls| - 1]), calls[|calls| - 1];
      EveryRunBalances(traces, calls[..|calls| - 1]);
      if call.trace < traces {
        var after := After(before.accounts[call.trace], call.outcome);
        AfterBalances(before.accounts[call.trace], call.outcome);
        TotalLostChanges(before.accounts, call.trace, after);
      }
    }
  }

  /** A dropped event leaves a gap: between two neighbours in the log, exactly the lost numbers are missing. */
  lemma GapsAreTheLostEvents(account: Account, i: nat, n: nat)
    requires Balanced(account) && i + 1 < |account.stored|
    ensures account.stored[i] < n < account.stored[i + 1] ==> n in account.lost
    ensures account.stored[i + 1] == account.stored[i] + 1 <==>
              forall lost :: lost in account.lost ==> !(account.stored[i] < lost < account.stored[i + 1])
  {
    var from, to := account.stored[i], account.stored[i + 1];
    forall m | from < m < to ensures m in account.lost && m !in account.stored {
      assert from in account.stored && to in account.stored;
      NothingBetweenNeighbours(account.stored, i, m);
    }
    if to != from + 1 {
      assert from + 1 in account.lost;
    }
  }

  lemma NothingBetweenNeighbours(numbers: seq<nat>, i: nat, n: nat)
    requires Increasing(numbers) && i + 1 < |numbers| && numbers[i] < n < numbers[i + 1]
    ensures n !in numbers
  {
    forall k | 0 <= k < |numbers| ensures numbers[k] != n {
      assert k < i ==> numbers[k] < numbers[i];
      assert k > i + 1 ==> numbers[i + 1] < numbers[k];
    }
  }

  // The trace object

  type UtcTime = t: Calendar.Instant | Calendar.IsInstant(t)
    witness Calendar.Instant(Calendar.Date(1970, 1, 1), 0, 0, 0, 0)

  /** What the clocks say when an event is recorded: the wall clock, and the time since the trace began. */
  datatype Moment = Moment(at: UtcTime, elapsed: int)

  /** `utcDate` and the timestamp of the record are both printed from the wall clock. */
  function UtcDay(moment: Moment): int {
    Calendar.DayNumber(moment.at.date)
  }

  function TimestampOf(moment: Moment): string {
    Calendar.Timestamp(moment.at)
  }

  /** A record is filed under the date that its timestamp begins with, and under no other. */
  lemma RecordsAreFiledByTimestamp(m: Moment, date: Calendar.Date)
    requires Calendar.IsShardDate(date)
    ensures UtcDay(m) == Calendar.DayNumber(date) <==> Calendar.Format(date) <= TimestampOf(m)
  {
    hide Calendar.Format, Calendar.DayNumber;
    Calendar.DayNumberOrder(m.at.date, date);
    Calendar.FormatIsFixedWidth(m.at.date, date);
    TimestampsBeginWithTheDate(m);
    if Calendar.Format(date) <= TimestampOf(m) {
      assert Calendar.Format(date) == TimestampOf(m)[..10];
    }
  }

  lemma TimestampsBeginWithTheDate(m: Moment)
    ensures Calendar.Format(m.at.date) <= TimestampOf(m)
    ensures |Calendar.Format(m.at.date)| == 10 && TimestampOf(m)[..10] == Calendar.Format(m.at.date)
  {
    hide Calendar.Format;
    Calendar.FormatIsFixedWidth(m.at.date, m.at.date);
  }

  datatype TraceEvent = TraceEvent(traceId: string, name: string, number: nat, moment: Moment, data: Output.Out)

  datatype Reason = Unencodable | TooLarge

  /** The JSON encoder: it may fail, but a line that it yields ends with its only newline. */
  datatype Encoder = Encoder(
    record: TraceEvent -> Option<string>, degraded: (TraceEvent, Reason) -> Option<string>, maxRecordBytes: nat)

  ghost predicate YieldsLines(encoder: Encoder) {
    && (forall event :: encoder.record(event).Some? ==> IsLine(encoder.record(event).value))
    && (forall event, reason :: encoder.degraded(event, reason).Some? ==> IsLine(encoder.degraded(event, reason).value))
  }

  /** `encodeLine`. The degraded record stands in for one that is too large, however long it is itself. */
  function EncodeLine(encoder: Encoder, event: TraceEvent): Option<string> {
    var line := if encoder.record(event).Some? then encoder.record(event) else encoder.degraded(event, Unencodable);
    if line.None? then None
    else if |line.value| > encoder.maxRecordBytes then encoder.degraded(event, TooLarge)
    else line
  }

  /**
   The line that is written for an event: its full record if that is within the limit; a degraded one
   if the full record is over it, or cannot be encoded.
   */
  ghost predicate IsEncoded(encoder: Encoder, event: TraceEvent, line: string) {
    var full, unencodable := encoder.record(event), encoder.degraded(event, Unencodable);
    || (full == Some(line) && |line| <= encoder.maxRecordBytes)
    || (full.None? && unencodable == Some(line) && |line| <= encoder.maxRecordBytes)
    || (&& encoder.degraded(event, TooLarge) == Some(line)
        && if full.Some? then |full.value| > encoder.maxRecordBytes
           else unencodable.Some? && |unencodable.value| > encoder.maxRecordBytes)
  }

  ghost predicate IsDegraded(encoder: Encoder, event: TraceEvent, line: string) {
    exists reason :: encoder.degraded(event, reason) == Some(line)
  }

  /** Exactly which line is written; one over the limit is never a full record. */
  lemma EncodedExactly(encoder: Encoder, event: TraceEvent, line: string)
    ensures EncodeLine(encoder, event) == Some(line) <==> IsEncoded(encoder, event, line)
    ensures IsEncoded(encoder, event, line) ==> |line| <= encoder.maxRecordBytes || IsDegraded(encoder, event, line)
    ensures encoder.record(event).Some? && |encoder.record(event).value| <= encoder.maxRecordBytes ==>
              EncodeLine(encoder, event) == encoder.record(event)
  {
  }

  /** If degraded records are within the limit, so is whatever is written. */
  ghost predicate DegradedFit(encoder: Encoder) {
    forall event, reason :: encoder.degraded(event, reason).Some? ==>
      |encoder.degraded(event, reason).value| <= encoder.maxRecordBytes
  }

  lemma LinesKeepTheLimit(encoder: Encoder, event: TraceEvent)
    requires DegradedFit(encoder) && EncodeLine(encoder, event).Some?
    ensures |EncodeLine(encoder, event).value| <= encoder.maxRecordBytes
  {
    EncodedExactly(encoder, event, EncodeLine(encoder, event).value);
  }

  /** What lies under a sensitive key or field reaches no byte of the encoded line. */
  lemma SecretsStayOutOfTheLine(
    configuration: Configurations.Configuration, pairs: Masking.Pairing, h: Payload.Heap, h': Payload.Heap,
    root: Payload.CellId, root': Payload.CellId, encoder: Encoder, event: TraceEvent)
    requires Masking.HeapsAlike(configuration, pairs, h, h') && (root, root') in pairs
    ensures EncodeLine(encoder, event.(data := Sanitizers.Sanitized(configuration, h, root)))
         == EncodeLine(encoder, event.(data := Sanitizers.Sanitized(configuration, h', root')))
  {
    Masking.MaskingIsNonInterference(configuration, pairs, h, h', root, root');
  }

  // What is told of a trace

  /** An event that was handed to the shard writer, whatever came of it, and the ticket that the writer gave it. */
  datatype Attempted = Attempted(event: TraceEvent, ticket: nat)

  /** A trace as far as the log knows it: whose writer it uses, and all that it has handed over. */
  datatype Story = Story(traceId: string, writer: Proc, encoder: Encoder, sequence: nat, attempts: seq<Attempted>)

  function RecordOf(story: Story, attempt: Attempted): Record
    requires EncodeLine(story.encoder, attempt.event).Some?
  {
    Record(story.writer, attempt.ticket, UtcDay(attempt.event.moment), EncodeLine(story.encoder, attempt.event).value)
  }

  /** The writer remembers all attempts of the trace; later ones carry larger numbers and larger tickets. */
  ghost predicate Told(story: Story, w: Writer) {
    && (forall a :: 0 <= a < |story.attempts| ==> IsTold(story, story.attempts[a], w))
    && (forall a, b :: 0 <= a < b < |story.attempts| ==>
          && story.attempts[a].event.number < story.attempts[b].event.number
          && story.attempts[a].ticket < story.attempts[b].ticket)
  }

  ghost predicate IsTold(story: Story, attempt: Attempted, w: Writer) {
    && attempt.event.traceId == story.traceId
    && attempt.event.number <= story.sequence
    && attempt.ticket < w.next
    && EncodeLine(story.encoder, attempt.event).Some?
    && Knows(w, RecordOf(story, attempt))
  }

  /** What is told stays true, whatever the writer does next, a crash included. */
  lemma TellingStays(story: Story, w: Writer, w': Writer, sequence: nat)
    requires Told(story, w) && WriterPreserved(w, w') && story.sequence <= sequence
    ensures Told(story.(sequence := sequence), w')
  {
    hide EncodeLine, Knows;
    var later := story.(sequence := sequence);
    forall a | 0 <= a < |story.attempts| ensures IsTold(later, story.attempts[a], w') {
      assert IsTold(story, story.attempts[a], w);
      assert RecordOf(later, story.attempts[a]) == RecordOf(story, story.attempts[a]);
    }
  }

  /** The trace hands over one more event, under its next number and the writer's next ticket. */
  lemma TellingGrows(story: Story, w: Writer, w': Writer, attempt: Attempted)
    requires Told(story, w) && WriterPreserved(w, w') && attempt.ticket == w.next < w'.next
    requires attempt.event.traceId == story.traceId && attempt.event.number == story.sequence + 1
    requires EncodeLine(story.encoder, attempt.event).Some? && Knows(w', RecordOf(story, attempt))
    ensures Told(story.(sequence := story.sequence + 1, attempts := story.attempts + [attempt]), w')
  {
    hide EncodeLine, Knows;
    TellingStays(story, w, w', story.sequence + 1);
    var later := story.(sequence := story.sequence + 1);
    var longer := later.(attempts := story.attempts + [attempt]);
    forall a | 0 <= a < |longer.attempts| ensures IsTold(longer, longer.attempts[a], w') {
      assert RecordOf(longer, longer.attempts[a]) == RecordOf(story, longer.attempts[a]);
      if a < |story.attempts| { assert IsTold(later, story.attempts[a], w'); }
    }
    forall a | 0 <= a < |story.attempts|
      ensures story.attempts[a].event.number < attempt.event.number && story.attempts[a].ticket < attempt.ticket
    {
      assert IsTold(story, story.attempts[a], w);
    }
  }

  /** The stored events are acknowledged records of the writer: `positions` says which, in order. */
  ghost predicate Kept(
    story: Story, acked: seq<Record>, events: seq<TraceEvent>, positions: seq<nat>, stored: seq<nat>)
  {
    && |events| == |positions| == |stored|
    && (forall i :: 0 <= i < |events| ==> IsKept(story, acked, events[i], positions[i], stored[i]))
    && Increasing(positions)
  }

  predicate IsKept(story: Story, acked: seq<Record>, event: TraceEvent, position: nat, number: nat) {
    && position < |acked|
    && event.number == number
    && event.traceId == story.traceId
    && Attempted(event, acked[position].ticket) in story.attempts
    && EncodeLine(story.encoder, event) == Some(acked[position].line)
    && acked[position].day == UtcDay(event.moment)
  }

  lemma KeptStaysKept(
    story: Story, later: Story, acked: seq<Record>, acked': seq<Record>, events: seq<TraceEvent>, positions: seq<nat>,
    stored: seq<nat>)
    requires Kept(story, acked, events, positions, stored) && acked <= acked'
    requires later.traceId == story.traceId && later.encoder == story.encoder && story.attempts <= later.attempts
    ensures Kept(later, acked', events, positions, stored)
  {
    hide EncodeLine;
    forall i | 0 <= i < |events| ensures IsKept(later, acked', events[i], positions[i], stored[i]) {
      assert IsKept(story, acked, events[i], positions[i], stored[i]);
    }
  }

  lemma KeptGrows(
    story: Story, later: Story, acked: seq<Record>, record: Record, events: seq<TraceEvent>, event: TraceEvent,
    positions: seq<nat>, stored: seq<nat>)
    requires Kept(story, acked, events, positions, stored)
    requires later.traceId == story.traceId && later.encoder == story.encoder && story.attempts <= later.attempts
    requires Attempted(event, record.ticket) in later.attempts
    requires event.traceId == story.traceId
    requires EncodeLine(story.encoder, event) == Some(record.line) && record.day == UtcDay(event.moment)
    ensures Kept(later, acked + [record], events + [event], positions + [|acked|], stored + [event.number])
  {
    hide EncodeLine;
    KeptStaysKept(story, later, acked, acked + [record], events, positions, stored);
    forall position | position in positions ensures position < |acked| {
      var i :| 0 <= i < |positions| && positions[i] == position;
      assert IsKept(story, acked, events[i], positions[i], stored[i]);
    }
    IncreasingGrows(positions, |acked|);
  }

  class Metrics {
    var dropped: nat

    constructor ()
      ensures dropped == 0
    {
      dropped := 0;
    }

    method RecordDroppedEvent()
      modifies this
      ensures dropped == old(dropped) + 1
    {
      dropped := dropped + 1;
    }
  }

  /** One trace, writing through a shard writer that other traces may use as well. */
  class Trace {
    const traceId: string
    const writer: JSONLFileWriter
    const metrics: Metrics
    const sanitizer: Sanitizers.Sanitizer
    const encoder: Encoder
    const classes: EventNames.Classes
    const failOnError: bool

    var sequence: nat
    ghost var account: Account
    /** The stored events, and where the writer's list of acknowledged records has them. */
    ghost var events: seq<TraceEvent>
    ghost var positions: seq<nat>
    ghost var attempts: seq<Attempted>

    constructor (
      traceId: string, writer: JSONLFileWriter, metrics: Metrics, sanitizer: Sanitizers.Sanitizer, encoder: Encoder,
      classes: EventNames.Classes, failOnError: bool)
      requires writer.Valid() && YieldsLines(encoder) && encoder.maxRecordBytes == sanitizer.configuration.maxRecordBytes
      ensures Valid() && account == Account(0, [], []) && this.metrics == metrics && this.writer == writer
    {
      this.traceId, this.writer, this.metrics := traceId, writer, metrics;
      this.sanitizer, this.encoder := sanitizer, encoder;
      this.classes, this.failOnError := classes, failOnError;
      sequence, account, events, positions, attempts := 0, Account(0, [], []), [], [], [];
    }

    ghost predicate Valid()
      reads this, writer, writer.world
    {
      && writer.Valid()
      && YieldsLines(encoder)
      && encoder.maxRecordBytes == sanitizer.configuration.maxRecordBytes
      && sequence == account.sequence
      && Balanced(account)
      && Told(ItsStory(), writer.Me())
      && Kept(ItsStory(), writer.Me().acked, events, positions, account.stored)
    }

    ghost function ItsStory(): Story
      reads this, writer
    {
      Story(traceId, writer.self, encoder, sequence, attempts)
    }

    /** The event that a call records: its number is the next one, its payload is sanitized. */
    ghost function EventOf(name: string, heap: Payload.Heap, root: Payload.CellId, moment: Moment, number: nat): TraceEvent
      requires EventNames.Normalize(classes, name).Some?
    {
      TraceEvent(traceId, EventNames.Normalize(classes, name).value, number, moment,
                 Sanitizers.Sanitized(sanitizer.configuration, heap, root))
    }

    /**
     One event, as `EventContext` handles it under the trace's lock. The payload is a map in a heap,
     or nil; `today` is the wall clock that retention uses. The number advances exactly when there is
     a usable name, and it is the sanitized payload that is handed over.
     */
    method EventContext(name: string, heap: Payload.Heap, root: Payload.CellId, moment: Moment, today: int)
      returns (failed: bool, ghost outcome: Outcome)
      requires Valid()
      requires root in heap ==> heap[root].node.StringMap?
      modifies this, metrics, writer, writer.world
      ensures Valid()
      ensures outcome.Refused? <==> EventNames.Normalize(classes, name).None?
      ensures account == After(old(account), outcome)
      ensures metrics.dropped == old(metrics.dropped) + if outcome.Lost? then 1 else 0
      ensures failed <==> outcome.Refused? || (outcome.Lost? && failOnError)
      ensures outcome.Stored? <==>
                && EventNames.Normalize(classes, name).Some?
                && HandedOver(EventOf(name, heap, root, moment, account.sequence))
                && writer.world.faults == old(writer.world.faults)
      ensures writer.RetainedFor(old(writer.Mine()), old(writer.retentionAppliedTo), UtcDay(moment), today)
      ensures events == old(events) + if outcome.Stored? then [EventOf(name, heap, root, moment, account.sequence)] else []
      ensures EventNames.Normalize(classes, name).Some? ==>
                var event := EventOf(name, heap, root, moment, account.sequence);
                attempts == old(attempts) + if HandedOver(event) then [Attempted(event, old(writer.Me().next))] else []
      ensures EventNames.Normalize(classes, name).Some? ==>
                var event := EventOf(name, heap, root, moment, account.sequence);
                && Some(event.name) == EventNames.Normalize(classes, name)
                && (EventNames.Sound(classes) ==> EventNames.Accepted(classes, event.name))
                && event.traceId == traceId && event.number == account.sequence && event.moment == moment
                && event.data == Sanitizers.Sanitized(sanitizer.configuration, heap, root)
      ensures WriterPreserved(old(writer.Me()), writer.Me()) && writer.closed == old(writer.closed)
    {
      hide EventNames.Accepted, EventNames.Sound, Retained;
      hide EventNames.Normalize, Sanitizers.Sanitized, YieldsLines, EncodeLine, Balanced, Kept, Told, Knows, writer.Valid, UtcDay;
      writer.NothingRetained(UtcDay(moment), today);
      var normalizedName := EventNames.Normalize(classes, name);
      if normalizedName.None? {
        return true, Refused;
      }
      if EventNames.Sound(classes) { EventNames.NormalizedIsAccepted(classes, name); }
      var normalizedData := sanitizer.Sanitize(heap, root);
      sequence := sequence + 1;
      var event := TraceEvent(traceId, normalizedName.value, sequence, moment, normalizedData);
      ghost var past := Past();
      var ok, record := Write(event, today);
      outcome := if ok then Stored else Lost;
      Book(past, record, event, outcome);
      if !ok {
        metrics.RecordDroppedEvent();
        return failOnError, outcome;
      }
      return false, outcome;
    }

    /** Enters the event that has just been written, or lost, into the trace's own history. */
    ghost method Book(past: Writer, record: Record, event: TraceEvent, outcome: Outcome)
      requires writer.Valid() && YieldsLines(encoder) && Balanced(account) && !outcome.Refused?
      requires encoder.maxRecordBytes == sanitizer.configuration.maxRecordBytes
      requires sequence == account.sequence + 1 && event.number == sequence && event.traceId == traceId
      requires var before := ItsStory().(sequence := account.sequence);
               Told(before, past) && Kept(before, past.acked, events, positions, account.stored)
      requires WriterPreserved(past, writer.Me())
      requires HandedOver(event) ==>
                 && record == Record(writer.self, past.next, UtcDay(event.moment), EncodeLine(encoder, event).value)
                 && past.next < writer.Me().next && Knows(writer.Me(), record)
      requires outcome.Stored? ==> HandedOver(event)
      requires writer.Me().acked == if outcome.Stored? then past.acked + [record] else past.acked
      modifies this`account, this`events, this`positions, this`attempts
      ensures Valid()
      ensures account == After(old(account), outcome)
      ensures events == old(events) + if outcome.Stored? then [event] else []
      ensures attempts == old(attempts) + if HandedOver(event) then [Attempted(event, past.next)] else []
    {
      hide YieldsLines, EncodeLine, Balanced, Kept, Told, Knows, WriterPreserved, writer.Valid, UtcDay;
      AfterBalances(account, outcome);
      var before, now := ItsStory().(sequence := account.sequence), Past();
      if HandedOver(event) {
        TellingGrows(before, past, now, Attempted(event, past.next));
        attempts := attempts + [Attempted(event, past.next)];
      } else {
        TellingStays(before, past, now, sequence);
      }
      if outcome.Stored? {
        KeptGrows(before, ItsStory(), past.acked, record, events, event, positions, account.stored);
        positions := positions + [|past.acked|];
        events := events + [event];
      } else {
        KeptStaysKept(before, ItsStory(), past.acked, past.acked, events, positions, account.stored);
      }
      account := After(account, outcome);
    }

    /** The event comes to the writer: it can be encoded, and the writer is open. */
    ghost predicate HandedOver(event: TraceEvent)
      reads this, writer
    {
      EncodeLine(encoder, event).Some? && !writer.closed
    }

    ghost function Past(): (past: Writer)
      requires writer.Valid()
      reads writer, writer.world
      ensures past == writer.Me()
    {
      writer.Me()
    }

    /** Encodes the event and hands it to the shard writer; an event that cannot be encoded is not written. */
    method Write(event: TraceEvent, today: int) returns (ok: bool, ghost record: Record)
      requires writer.Valid() && YieldsLines(encoder)
      modifies writer, writer.world
      ensures writer.Valid() && writer.closed == old(writer.closed)
      ensures WriterPreserved(old(writer.Me()), writer.Me())
      ensures writer.world.faults >= old(writer.world.faults)
      ensures ok <==> HandedOver(event) && writer.world.faults == old(writer.world.faults)
      ensures writer.RetainedFor(old(writer.Mine()), old(writer.retentionAppliedTo), UtcDay(event.moment), today)
      ensures HandedOver(event) ==>
                && record == Record(writer.self, old(writer.Me().next), UtcDay(event.moment), EncodeLine(encoder, event).value)
                && writer.Me().next == old(writer.Me().next) + 1 && Knows(writer.Me(), record)
      ensures HandedOver(event) ==>
                && IsEncoded(encoder, event, record.line)
                && (|record.line| <= encoder.maxRecordBytes || IsDegraded(encoder, event, record.line))
      ensures !HandedOver(event) ==> writer.Me().next == old(writer.Me().next)
      ensures writer.Me().acked == if ok then old(writer.Me().acked) + [record] else old(writer.Me().acked)
    {
      hide Retained;
      writer.NothingRetained(UtcDay(event.moment), today);
      var line := EncodeLine(encoder, event);
      if line.None? {
        return false, Record(0, 0, 0, "");
      }
      EncodedExactly(encoder, event, line.value);
      record := Record(writer.self, writer.world.state.writers[writer.self].next, UtcDay(event.moment), line.value);
      ghost var rotations: nat;
      ok, rotations := writer.Write(UtcDay(event.moment), line.value, today);
    }

    /** Calls on other traces that share the writer leave this one valid. */
    twostate lemma StaysValid()
      requires old(Valid()) && unchanged(this) && writer.Valid()
      requires WriterPreserved(old(writer.Me()), writer.Me())
      ensures Valid()
    {
      hide EncodeLine, Balanced, Kept, Told, Knows;
      TellingStays(ItsStory(), old(writer.Me()), writer.Me(), sequence);
      KeptStaysKept(ItsStory(), ItsStory(), old(writer.Me().acked), writer.Me().acked, events, positions, account.stored);
    }

    /**
     End to end: of two stored events of one date, the one with the smaller number comes first when
     that date's shards are read by index, whatever other traces and other processes have written.
     */
    lemma StoredEventsAreInOrderOnDisk(i: nat, j: nat)
      requires Valid() && i < j < |events| && UtcDay(events[i].moment) == UtcDay(events[j].moment)
      ensures events[i].number < events[j].number
      ensures exists a: Location, b: Location ::
                && IsStored(i, a) && IsStored(j, b)
                && (Linked(writer.world.state, a.inode) && Linked(writer.world.state, b.inode) ==>
                      Earlier(writer.world.state, a, b))
    {
      var s, p := writer.world.state, writer.self;
      var a := StoredAt(i);
      var b := StoredAt(j);
      TicketsAscend(s, p, positions[i], positions[j]);
      AttemptsInOrder(s, p, writer.Me().acked[positions[i]].ticket, writer.Me().acked[positions[j]].ticket);
    }

    /** The encoded event is a whole record at that place of a file of its own date. */
    ghost predicate IsStored(i: nat, place: Location)
      requires i < |events|
      reads this, writer, writer.world
    {
      var s := writer.world.state;
      && place.inode < |s.files| && place.at < |s.files[place.inode].segments|
      && s.files[place.inode].segments[place.at].Whole?
      && EncodeLine(encoder, events[i]) == Some(s.files[place.inode].segments[place.at].record.line)
      && s.files[place.inode].home.day == UtcDay(events[i].moment)
    }

    lemma StoredAt(i: nat) returns (place: Location)
      requires Valid() && i < |events|
      ensures IsStored(i, place)
      ensures i < |positions| && positions[i] < |writer.Me().acked|
      ensures var record := writer.Me().acked[positions[i]];
              record.ticket in writer.Me().places && place == writer.Me().places[record.ticket]
    {
      assert IsKept(ItsStory(), writer.Me().acked, events[i], positions[i], account.stored[i]);
      place := AcknowledgedPlace(writer.world.state, writer.self, positions[i]);
    }
  }
}
