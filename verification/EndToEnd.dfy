/**
 From `Trace` through the shared log directory to the reader: which events are shown.

 The reader takes no lock. It lists the directory once and then reads one file after the other,
 while any writers go on writing, rotating, expiring shards and crashing.
 */
module EndToEnd {
  import opened Wrappers
  import opened Lex
  import opened Shards
  import opened Protocol
  import opened ProtocolInvariant
  import opened ProtocolTheorems
  import opened Histories
  import opened Traces
  import opened Timelines
  import opened TornLines
  import Calendar
  import Configurations
  import Sets

  // Stories

  /** What is told of a trace stays true in all later states, that of its own writer's death included. */
  lemma StoriesStayTold(story: Story, s: State, s': State)
    requires story.writer < |s.writers| && Told(story, s.writers[story.writer]) && Leads(s, s')
    ensures story.writer < |s'.writers| && Told(story, s'.writers[story.writer])
  {
    hide Told, WriterPreserved, Leads;
    LaterStatesPreserve(s, s');
    assert WriterPreserved(s.writers[story.writer], s'.writers[story.writer]);
    TellingStays(story, s.writers[story.writer], s'.writers[story.writer], story.sequence);
    assert story.(sequence := story.sequence) == story;
  }

  /** From its first step on, an event belongs to the story, even if its writer dies in the middle of it. */
  lemma BeginningIsTold(story: Story, s: State, event: TraceEvent)
    requires story.writer < |s.writers| && Told(story, s.writers[story.writer])
    requires event.traceId == story.traceId && event.number == story.sequence + 1
    requires EncodeLine(story.encoder, event).Some?
    requires Next(s, story.writer, Begin(UtcDay(event.moment), EncodeLine(story.encoder, event).value)).Some?
    ensures var s' := Next(s, story.writer, Begin(UtcDay(event.moment), EncodeLine(story.encoder, event).value)).value;
            var attempt := Attempted(event, s.writers[story.writer].next);
            && story.writer < |s'.writers|
            && Told(story.(sequence := story.sequence + 1, attempts := story.attempts + [attempt]), s'.writers[story.writer])
  {
    hide Told, EncodeLine, UtcDay;
    var begin := Begin(UtcDay(event.moment), EncodeLine(story.encoder, event).value);
    var s' := Next(s, story.writer, begin).value;
    StepPreserves(s, story.writer, begin);
    TellingGrows(story, s.writers[story.writer], s'.writers[story.writer], Attempted(event, s.writers[story.writer].next));
  }

  /** The event has been acknowledged. */
  ghost predicate Acknowledged(story: Story, s: State, a: nat) {
    && a < |story.attempts| && story.writer < |s.writers|
    && exists k :: 0 <= k < |s.writers[story.writer].acked|
                   && s.writers[story.writer].acked[k].ticket == story.attempts[a].ticket
  }

  /** The events that a trace counts as stored are the acknowledged ones of its story. */
  lemma StoredEventsAreAcknowledged(trace: Trace, i: nat) returns (a: nat)
    requires trace.Valid() && i < |trace.events|
    ensures var s, story := trace.writer.world.state, trace.ItsStory();
            && story.writer < |s.writers| && Told(story, s.writers[story.writer])
            && Acknowledged(story, s, a) && story.attempts[a].event == trace.events[i]
  {
    hide EncodeLine, Balanced, Told, Reachable;
    var story, acked := trace.ItsStory(), trace.writer.Me().acked;
    assert IsKept(story, acked, trace.events[i], trace.positions[i], trace.account.stored[i]);
    a :| 0 <= a < |story.attempts| && story.attempts[a] == Attempted(trace.events[i], acked[trace.positions[i]].ticket);
  }

  // Readings

  /**
   A reading: at `start` the reader lists the directory, and it finds file `f` of its list as it is
   at moment `f`. By `end`, it is over.
   */
  datatype Reading = Reading(start: State, shards: seq<Shard>, moments: seq<State>, end: State)

  ghost predicate IsReading(r: Reading) {
    && Reachable(r.start) && Leads(r.start, r.end)
    && |r.moments| == |r.shards|
    && (forall f :: 0 <= f < |r.moments| ==> Leads(r.start, r.moments[f]) && Leads(r.moments[f], r.end))
    && (forall f, g :: 0 <= f < g < |r.moments| ==> Leads(r.moments[f], r.moments[g]))
    && (forall f, g :: 0 <= f < g < |r.shards| ==> r.shards[f] != r.shards[g])
  }

  /** A file that has been removed since the listing cannot be read. */
  function FileAt(s: State, shard: Shard): LogFile {
    if shard in s.dir && s.dir[shard] < |s.files| then Readable(s.files[s.dir[shard]].bytes) else Unreadable
  }

  function FilesRead(r: Reading): (files: seq<LogFile>)
    requires |r.moments| == |r.shards|
    ensures |files| == |r.shards|
  {
    seq(|r.shards|, f requires 0 <= f < |r.shards| => FileAt(r.moments[f], r.shards[f]))
  }

  function TimelineOf(r: Reading, traceId: string, parse: Parser): seq<TimelineEvent>
    requires |r.moments| == |r.shards|
  {
    StableSort(Collected(FilesRead(r), traceId, parse))
  }

  /** Where file `f` is found, and what is in it. */
  lemma FileFound(r: Reading, f: nat) returns (n: Inode)
    requires IsReading(r) && f < |r.shards| && FilesRead(r)[f].Readable?
    ensures var s := r.moments[f];
            && Reachable(s) && r.shards[f] in s.dir && n == s.dir[r.shards[f]] < |s.files|
            && s.files[n].home == r.shards[f]
            && FilesRead(r)[f].content == s.files[n].bytes
            && SegmentsOk(Present(s, n)) && Lines(s.files[n].bytes) == ShardLines(Present(s, n))
  {
    hide Reachable, Leads, Lines, ShardLines;
    var s := r.moments[f];
    LaterStatesAreReachable(r.start, s);
    n := s.dir[r.shards[f]];
    ShardsAreFiles(s);
    FilesAreTheirSegments(s, n);
  }

  /** Every shard in the directory is a file, and every file that has not expired is in the directory. */
  lemma ShardsAreFiles(s: State)
    requires Reachable(s)
    ensures forall shard :: shard in s.dir ==> s.dir[shard] < |s.files| && s.files[s.dir[shard]].home == shard
    ensures forall n :: 0 <= n < |s.files| && s.files[n].home.day >= s.horizon ==> Linked(s, n)
  {
    ReachableIsInvariant(s);
    forall n | 0 <= n < |s.files| && s.files[n].home.day >= s.horizon ensures Linked(s, n) {
      assert FileOk(s, n);
    }
  }

  // What is assumed of JSON, and of others

  /** Whatever is written is an object on a line of its own. */
  ghost predicate WritersWriteObjects(s: State) {
    forall p, record :: 0 <= p < |s.writers| && Knows(s.writers[p], record) ==> IsObjectLine(record.line)
  }

  /** What the decoder accepts, if it begins like an object, is one. */
  ghost predicate AcceptsOnlyObjects(parse: Parser) {
    forall token :: token != "" && token[0] == '{' && parse(token).Some? ==> Scanner(Start, token) == Done
  }

  /** The decoded line is this event. */
  predicate Shows(shown: TimelineEvent, event: TraceEvent) {
    && shown.traceId == event.traceId
    && shown.sequence == event.number
    && shown.timestamp == TimestampOf(event.moment)
    && shown.event == event.name
  }

  /** The decoder reads back what the encoder wrote, and the line quotes the trace ID as a JSON string. */
  ghost predicate ReadsBack(encoder: Encoder, parse: Parser, event: TraceEvent) {
    EncodeLine(encoder, event).Some? && IsTraceId(event.traceId) ==>
      var token := Token(EncodeLine(encoder, event).value);
      && parse(token).Some?
      && Shows(parse(token).value, event)
      && exists before, after :: token == before + Quoted(event.traceId) + after
  }

  /** So it does for every event of the trace. */
  ghost predicate Faithful(story: Story, parse: Parser) {
    forall a :: 0 <= a < |story.attempts| ==> ReadsBack(story.encoder, parse, story.attempts[a].event)
  }

  ghost predicate IsAttempt(story: Story, record: Record) {
    exists a :: 0 <= a < |story.attempts| && IsRecordOf(story, a, record)
  }

  ghost predicate IsRecordOf(story: Story, a: nat, record: Record)
    requires a < |story.attempts|
  {
    EncodeLine(story.encoder, story.attempts[a].event).Some? && RecordOf(story, story.attempts[a]) == record
  }

  /** Nobody else uses the trace's ID: of all that has ever been attempted, only its own records decode to it. */
  ghost predicate NobodyElse(story: Story, s: State, parse: Parser) {
    forall p, record :: 0 <= p < |s.writers| && Knows(s.writers[p], record) && DecodesTo(parse, Token(record.line), story.traceId)
      ==> IsAttempt(story, record)
  }

  /** A trace whose ID the command line accepts, its story told, and a reading of the directory. */
  ghost predicate Setting(story: Story, r: Reading, parse: Parser) {
    && IsReading(r)
    && story.writer < |r.end.writers| && Told(story, r.end.writers[story.writer])
    && IsTraceId(story.traceId) && Faithful(story, parse)
    && WritersWriteObjects(r.end) && AcceptsOnlyObjects(parse)
  }

  // What is in a file that is read

  /** What is in a file at a moment of the reading has been attempted by its end. */
  lemma PresentRecordsAreKnown(r: Reading, f: nat, n: Inode)
    requires IsReading(r) && f < |r.moments| && n < |r.moments[f].files|
    ensures forall i :: 0 <= i < |Present(r.moments[f], n)| ==>
              var record := Present(r.moments[f], n)[i].record;
              record.writer < |r.end.writers| && Knows(r.end.writers[record.writer], record)
  {
    hide Reachable, Leads, Present, Knows;
    var s := r.moments[f];
    LaterStatesAreReachable(r.start, s);
    LaterStatesPreserve(s, r.end);
    forall i | 0 <= i < |Present(s, n)|
      ensures var record := Present(s, n)[i].record;
              record.writer < |r.end.writers| && Knows(r.end.writers[record.writer], record)
    {
      StandingIsKnown(s, n, i);
      assert WriterPreserved(s.writers[Present(s, n)[i].record.writer], r.end.writers[Present(s, n)[i].record.writer]);
    }
  }

  lemma PresentIsKnown(r: Reading, f: nat, n: Inode)
    requires IsReading(r) && f < |r.moments| && n < |r.moments[f].files| && WritersWriteObjects(r.end)
    ensures forall i :: 0 <= i < |Present(r.moments[f], n)| ==>
              var record := Present(r.moments[f], n)[i].record;
              record.writer < |r.end.writers| && Knows(r.end.writers[record.writer], record)
    ensures ObjectLines(Present(r.moments[f], n))
  {
    hide Reachable, Leads, Present, Knows, IsObjectLine;
    PresentRecordsAreKnown(r, f, n);
  }

  /** The record with an attempt's ticket is the attempt's. */
  lemma TicketsIdentify(story: Story, r: Reading, a: nat, record: Record)
    requires IsReading(r) && a < |story.attempts| && story.writer < |r.end.writers|
    requires Told(story, r.end.writers[story.writer]) && Knows(r.end.writers[story.writer], record)
    requires record.ticket == story.attempts[a].ticket
    ensures IsRecordOf(story, a, record)
  {
    hide Reachable, Leads, Knows, EncodeLine;
    LaterStatesAreReachable(r.start, r.end);
    ReachableLedger(r.end);
    assert IsTold(story, story.attempts[a], r.end.writers[story.writer]);
    assert TicketsTell(r.end.writers[story.writer], story.writer);
  }

  /** No line of the file up to line `k` is too long for the reader. */
  predicate Reaches(s: State, n: Inode, k: nat)
    requires n < |s.files|
  {
    Scannable(Lines(s.files[n].bytes), k)
  }

  /**
   The attempt can be seen: when file `f` is read, segment `i` of it is the attempt's full record,
   finished or not, acknowledged or not, with or without its newline; no fragment stands in front of
   it, nothing is glued to it, and no line up to its own is too long.
   */
  ghost predicate Visible(r: Reading, f: nat, i: nat, p: Proc, ticket: nat) {
    && f < |r.shards| && f < |r.moments|
    && r.shards[f] in r.moments[f].dir
    && var s, n := r.moments[f], r.moments[f].dir[r.shards[f]];
       && Stands(s, n, i, p, ticket)
       && StandsAlone(Present(s, n), i)
       && Reaches(s, n, LineAt(Present(s, n), i))
  }

  // Nothing else is shown

  /** A line that the reader decodes to the trace is the record of a visible attempt. */
  lemma DecodedLineIsAnAttempt(story: Story, r: Reading, parse: Parser, f: nat, k: nat) returns (a: nat, i: nat)
    requires Setting(story, r, parse) && NobodyElse(story, r.end, parse) && f < |r.shards|
    requires var tokens := TokensOf(FilesRead(r)[f]); k < |tokens| && DecodesTo(parse, tokens[k], story.traceId)
    ensures a < |story.attempts| && Visible(r, f, i, story.writer, story.attempts[a].ticket)
    ensures k == LineAt(Present(r.moments[f], r.moments[f].dir[r.shards[f]]), i)
    ensures Shows(parse(TokensOf(FilesRead(r)[f])[k]).value, story.attempts[a].event)
  {
    hide Told, Lines, ShardLines, Token, Scanner, StandsAlone, LineAt, ObjectLines, Present, Knows, EncodeLine, TooLong;
    hide Leads, Reachable, Shows, WritersWriteObjects;
    var n := FileFound(r, f);
    var s := r.moments[f];
    ScannedLines(Lines(s.files[n].bytes), k);
    PresentIsKnown(r, f, n);
    i := LinesAreObjectsOnlyIfWhole(Present(s, n), k);
    var record := Present(s, n)[i].record;
    assert IsAttempt(story, record);
    a :| 0 <= a < |story.attempts| && IsRecordOf(story, a, record);
    assert ReadsBack(story.encoder, parse, story.attempts[a].event);
    AttemptsAreOfTheTrace(story, r.end.writers[story.writer], a);
  }

  lemma AttemptsAreOfTheTrace(story: Story, w: Writer, a: nat)
    requires Told(story, w) && a < |story.attempts|
    ensures story.attempts[a].event.traceId == story.traceId && EncodeLine(story.encoder, story.attempts[a].event).Some?
  {
    hide EncodeLine, Knows;
    assert IsTold(story, story.attempts[a], w);
  }

  // Everything else is

  /** A visible attempt is shown. */
  lemma VisibleIsShown(story: Story, r: Reading, parse: Parser, a: nat, f: nat, i: nat) returns (shown: TimelineEvent)
    requires Setting(story, r, parse) && a < |story.attempts| && Visible(r, f, i, story.writer, story.attempts[a].ticket)
    ensures shown in TimelineOf(r, story.traceId, parse) && Shows(shown, story.attempts[a].event)
  {
    hide Told, Lines, ShardLines, Token, Scanner, StandsAlone, LineAt, ObjectLines, Present, Knows, EncodeLine, TooLong;
    hide Leads, Reachable, Shows, WritersWriteObjects, Collected, StableSort, Contains, Quoted;
    var s := r.moments[f];
    var n := s.dir[r.shards[f]];
    assert FilesRead(r)[f].Readable?;
    n := FileFound(r, f);
    PresentIsKnown(r, f, n);
    var record := Present(s, n)[i].record;
    TicketsIdentify(story, r, a, record);
    RecordsAreLines(Present(s, n), i);
    AttemptsAreOfTheTrace(story, r.end.writers[story.writer], a);
    assert ReadsBack(story.encoder, parse, story.attempts[a].event);
    var token := Token(record.line);
    var before, after :| token == before + Quoted(story.traceId) + after;
    QuotedIdIsContained(before, story.traceId, after);
    shown := parse(token).value;
    ShownHasTheId(shown, story.attempts[a].event);
    RecordIsInTimeline(FilesRead(r), f, LineAt(Present(s, n), i), story.traceId, parse);
  }

  lemma ShownHasTheId(shown: TimelineEvent, event: TraceEvent)
    requires Shows(shown, event)
    ensures shown.traceId == event.traceId && shown.sequence == event.number
    ensures shown.timestamp == TimestampOf(event.moment)
  {
  }

  lemma ShownIsAnAttempt(story: Story, r: Reading, parse: Parser, shown: TimelineEvent) returns (a: nat, f: nat, i: nat)
    requires Setting(story, r, parse) && NobodyElse(story, r.end, parse)
    requires shown in TimelineOf(r, story.traceId, parse)
    ensures a < |story.attempts| && Visible(r, f, i, story.writer, story.attempts[a].ticket)
    ensures Shows(shown, story.attempts[a].event)
  {
    hide TokensOf, FoundIn, StableSort, Setting, NobodyElse, Visible, Shows, FilesRead;
    RightNumberOfFiles(story, r, parse);
    var files := FilesRead(r);
    SortedMembers(Collected(files, story.traceId, parse));
    var j := FoundComesFromToken(AllTokens(files), story.traceId, parse, shown);
    var k: nat;
    f, k := TokenPosition(files, j);
    a, i := DecodedLineIsAnAttempt(story, r, parse, f, k);
  }

  lemma RightNumberOfFiles(story: Story, r: Reading, parse: Parser)
    requires Setting(story, r, parse)
    ensures IsReading(r) && |r.moments| == |r.shards| && |FilesRead(r)| == |r.shards|
  {
    hide Leads, Reachable;
  }

  lemma NumbersTellAttempts(story: Story, w: Writer, a: nat, b: nat)
    requires Told(story, w) && a < |story.attempts| && b < |story.attempts|
    ensures story.attempts[a].event.number < story.attempts[b].event.number <==> a < b
    ensures story.attempts[a].ticket == story.attempts[b].ticket <==> a == b
  {
    hide Knows, EncodeLine;
  }

  /**
   Exactly what is shown. While others write, rotate, crash and expire, an event that the trace has
   handed over is in its timeline if and only if its record is visible in one of the files read.
   */
  lemma ShownExactly(story: Story, r: Reading, parse: Parser, a: nat)
    requires Setting(story, r, parse) && NobodyElse(story, r.end, parse) && a < |story.attempts|
    ensures (exists shown :: shown in TimelineOf(r, story.traceId, parse) && Shows(shown, story.attempts[a].event))
            <==> exists f, i :: Visible(r, f, i, story.writer, story.attempts[a].ticket)
  {
    hide Setting, NobodyElse, Visible, Shows, TimelineOf;
    RightNumberOfFiles(story, r, parse);
    if shown :| shown in TimelineOf(r, story.traceId, parse) && Shows(shown, story.attempts[a].event) {
      var b, f, i := ShownIsAnAttempt(story, r, parse, shown);
      ShownHasTheId(shown, story.attempts[a].event);
      ShownHasTheId(shown, story.attempts[b].event);
      StoryIsTold(story, r, parse);
      NumbersTellAttempts(story, r.end.writers[story.writer], a, b);
      NumbersTellAttempts(story, r.end.writers[story.writer], b, a);
    }
    if f: nat, i: nat :| Visible(r, f, i, story.writer, story.attempts[a].ticket) {
      var shown := VisibleIsShown(story, r, parse, a, f, i);
    }
  }

  lemma StoryIsTold(story: Story, r: Reading, parse: Parser)
    requires Setting(story, r, parse)
    ensures story.writer < |r.end.writers| && Told(story, r.end.writers[story.writer])
  {
    hide Told, IsReading;
  }

  // Once

  /** The attempt that is found in two places of the files read is found in one. */
  lemma VisibleOnce(r: Reading, f: nat, i: nat, g: nat, j: nat, p: Proc, ticket: nat)
    requires IsReading(r) && Visible(r, f, i, p, ticket) && Visible(r, g, j, p, ticket) && f <= g
    ensures f == g && i == j
  {
    hide Leads, Reachable, Present, StandsAlone, Reaches, Preserved;
    var s, s' := r.moments[f], r.moments[g];
    var n, m := s.dir[r.shards[f]], s'.dir[r.shards[g]];
    LaterStatesAreReachable(r.start, s);
    LaterStatesAreReachable(r.start, s');
    if f == g {
      AttemptsLeaveAtMostOneTrace(s, n, i, m, j, p, ticket);
    } else {
      AttemptsStayInOneFile(s, n, i, s', m, j, p, ticket);
      ShardsAreFiles(s);
      ShardsAreFiles(s');
      HomesArePreserved(s, s', n);
      assert false;
    }
  }

  lemma HomesArePreserved(s: State, s': State, n: Inode)
    requires Leads(s, s') && n < |s.files|
    ensures n < |s'.files| && s'.files[n].home == s.files[n].home
  {
    hide Leads, WriterPreserved;
    LaterStatesPreserve(s, s');
  }

  /** Two lines that the reader decodes to the trace carry different numbers, wherever they lie. */
  lemma DifferentLinesDifferentNumbers(story: Story, r: Reading, parse: Parser, i: nat, j: nat)
    requires Setting(story, r, parse) && NobodyElse(story, r.end, parse)
    requires var tokens := AllTokens(FilesRead(r));
             && i < j < |tokens|
             && DecodesTo(parse, tokens[i], story.traceId) && DecodesTo(parse, tokens[j], story.traceId)
    ensures var tokens := AllTokens(FilesRead(r));
            parse(tokens[i]).value.sequence != parse(tokens[j]).value.sequence
  {
    hide TokensOf, Setting, NobodyElse, Visible, Shows, FilesRead, Present, LineAt;
    RightNumberOfFiles(story, r, parse);
    StoryIsTold(story, r, parse);
    var files := FilesRead(r);
    var f, k := TokenPosition(files, i);
    var g, l := TokenPosition(files, j);
    var a, x := DecodedLineIsAnAttempt(story, r, parse, f, k);
    var b, y := DecodedLineIsAnAttempt(story, r, parse, g, l);
    ShownHasTheId(parse(TokensOf(files[f])[k]).value, story.attempts[a].event);
    ShownHasTheId(parse(TokensOf(files[g])[l]).value, story.attempts[b].event);
    NumbersTellAttempts(story, r.end.writers[story.writer], a, b);
    NumbersTellAttempts(story, r.end.writers[story.writer], b, a);
    if a == b {
      if f <= g {
        VisibleOnce(r, f, x, g, y, story.writer, story.attempts[a].ticket);
      } else {
        VisibleOnce(r, g, y, f, x, story.writer, story.attempts[a].ticket);
      }
      assert false;
    }
  }

  // What has been acknowledged

  /** The place of an acknowledged event. */
  ghost predicate IsAt(story: Story, s: State, a: nat, place: Location) {
    && a < |story.attempts| && story.writer < |s.writers|
    && story.attempts[a].ticket in s.writers[story.writer].places
    && place == s.writers[story.writer].places[story.attempts[a].ticket]
  }

  lemma AcknowledgedIsAt(story: Story, s: State, a: nat) returns (place: Location)
    requires Reachable(s) && Acknowledged(story, s, a)
    ensures IsAt(story, s, a, place)
    ensures Attempt(s, place.inode, place.at, story.writer, story.attempts[a].ticket)
    ensures s.files[place.inode].segments[place.at].Whole?
  {
    hide Reachable;
    var k :| 0 <= k < |s.writers[story.writer].acked| && s.writers[story.writer].acked[k].ticket == story.attempts[a].ticket;
    place := AcknowledgedPlace(s, story.writer, k);
  }

  /** The record stands right behind a fragment that a crash or a failed repair has left. */
  predicate IsSpoiled(s: State, place: Location) {
    place.inode < |s.files| && BehindFragment(s.files[place.inode].segments, place.at)
  }

  /** The reader comes to the place: it has the shard on its list and finds it still there, and no line up to it is too long. */
  ghost predicate Reached(r: Reading, place: Location) {
    exists f :: ReachedIn(r, f, place)
  }

  ghost predicate ReachedIn(r: Reading, f: nat, place: Location) {
    && f < |r.shards| && f < |r.moments|
    && r.shards[f] in r.moments[f].dir && r.moments[f].dir[r.shards[f]] == place.inode
    && place.inode < |r.moments[f].files| && place.at <= |Present(r.moments[f], place.inode)|
    && Reaches(r.moments[f], place.inode, LineAt(Present(r.moments[f], place.inode), place.at))
  }

  /** If the shard was listed and has not expired, the reader finds it there. */
  lemma UnexpiredIsFound(r: Reading, f: nat, n: Inode)
    requires IsReading(r) && f < |r.shards| && n < |r.start.files| && r.shards[f] == r.start.files[n].home
    requires r.shards[f].day >= r.moments[f].horizon
    ensures r.shards[f] in r.moments[f].dir && r.moments[f].dir[r.shards[f]] == n
  {
    hide Leads, Reachable;
    LaterStatesAreReachable(r.start, r.moments[f]);
    HomesArePreserved(r.start, r.moments[f], n);
    ShardsAreFiles(r.moments[f]);
  }

  /** So such a place is reached exactly if no line up to its own is too long. */
  lemma UnexpiredIsReachedExactly(r: Reading, f: nat, place: Location)
    requires IsReading(r) && f < |r.shards|
    requires place.inode < |r.start.files| && place.at < |r.start.files[place.inode].segments|
    requires r.shards[f] == r.start.files[place.inode].home && r.shards[f].day >= r.moments[f].horizon
    ensures place.inode < |r.moments[f].files| && place.at <= |Present(r.moments[f], place.inode)|
    ensures Reached(r, place)
            <==> Reaches(r.moments[f], place.inode, LineAt(Present(r.moments[f], place.inode), place.at))
  {
    hide Leads, Reachable, InProgress, Reaches, LineAt, WriterPreserved;
    var n := place.inode;
    LaterStatesPreserve(r.start, r.moments[f]);
    UnexpiredIsFound(r, f, n);
    if g: nat :| ReachedIn(r, g, place) {
      LaterStatesAreReachable(r.start, r.moments[g]);
      HomesArePreserved(r.start, r.moments[g], n);
      ShardsAreFiles(r.moments[g]);
    }
    if Reaches(r.moments[f], n, LineAt(Present(r.moments[f], n), place.at)) {
      assert ReachedIn(r, f, place);
    }
  }

  // When no line is too long

  /** Room for some fragments and a record behind them. */
  function Room(limit: nat, fragments: nat): (room: nat)
    ensures room >= limit
  {
    if fragments == 0 then limit else limit + Room(limit, fragments - 1)
  }

  lemma {:induction false} RoomIsProportional(limit: nat, fragments: nat)
    ensures Room(limit, fragments) == limit * (1 + fragments)
  {
    if fragments > 0 {
      RoomIsProportional(limit, fragments - 1);
      assert limit * (1 + fragments) == limit + limit * fragments;
    }
  }

  lemma {:induction false} RoomGrows(limit: nat, a: nat, b: nat)
    requires a <= b
    ensures Room(limit, a) <= Room(limit, b)
  {
    if a > 0 { RoomGrows(limit, a - 1, b - 1); }
  }

  /** A line is no longer than its fragments and the record behind them. */
  lemma {:induction false} LinesAreBounded(segments: seq<Segment>, limit: nat, k: nat)
    requires SegmentsOk(segments) && segments != [] && k < |ShardLines(segments)|
    requires forall i :: 0 <= i < |segments| ==> |segments[i].record.line| <= limit
    ensures |DropNewline(ShardLines(segments)[k])| < Room(limit, DanglingCount(segments[..|segments| - 1]))
    ensures ShardLines(segments)[k] != ""
    decreases |segments|
  {
    hide Written, ShardLines, DanglingCount, DropNewline;
    LinesFromFront(segments);
    PiecesAreBounded(segments[0], limit);
    DanglingInFront(segments);
    if |segments| > 1 {
      var rest := segments[1..];
      if segments[0].Dangling? {
        LinesAreBounded(rest, limit, k);
        if k == 0 { DropsBehind(Written(segments[0]), ShardLines(rest)[0]); }
      } else if k > 0 {
        LinesAreBounded(rest, limit, k - 1);
      }
    }
  }

  lemma PiecesAreBounded(segment: Segment, limit: nat)
    requires SegmentOk(segment) && |segment.record.line| <= limit
    ensures Written(segment) != "" && |DropNewline(Written(segment))| < limit
    ensures segment.Dangling? ==> |Written(segment)| < limit
  {
  }

  lemma DropsBehind(first: string, rest: string)
    requires rest != ""
    ensures |DropNewline(first + rest)| == |first| + |DropNewline(rest)|
  {
  }

  lemma DanglingInFront(segments: seq<Segment>)
    requires segments != []
    ensures |segments| > 1 ==>
              DanglingCount(segments[..|segments| - 1])
              == DanglingCount(segments[1..][..|segments| - 2]) + if segments[0].Dangling? then 1 else 0
  {
    if |segments| > 1 { assert segments[..|segments| - 1][1..] == segments[1..][..|segments| - 2]; }
  }

  lemma {:induction false} OneFileOfAll(files: seq<File>, n: nat)
    requires n < |files|
    ensures DanglingCount(files[n].segments) <= TotalDangling(files)
  {
    hide DanglingCount;
    if n < |files| - 1 { OneFileOfAll(files[..|files| - 1], n); }
  }

  lemma {:induction false} DanglingInPrefix(segments: seq<Segment>, more: seq<Segment>)
    requires |more| <= 1 && segments + more != []
    ensures DanglingCount((segments + more)[..|segments + more| - 1]) <= DanglingCount(segments)
  {
    hide DanglingCount;
    if more == [] {
      var front, last := segments[..|segments| - 1], segments[|segments| - 1];
      DanglingCountGrows(front, last);
      assert segments + more == segments && segments == front + [last];
    } else {
      assert (segments + more)[..|segments + more| - 1] == segments;
    }
  }

  /** All that has ever been attempted is within this many bytes. */
  ghost predicate RecordsKeepTo(s: State, limit: nat) {
    forall p, record :: 0 <= p < |s.writers| && Knows(s.writers[p], record) ==> |record.line| <= limit
  }

  /**
   If records are short enough, no line hides another: with `k` crashes and failed repairs so far, a
   line may hold `k` fragments and a record, and if so much is within the reader's cap, every line of
   every file is.
   */
  lemma ShortRecordsHideNothing(r: Reading, f: nat, n: Inode, limit: nat, k: nat)
    requires IsReading(r) && f < |r.moments| && n < |r.moments[f].files| && k < |Lines(r.moments[f].files[n].bytes)|
    requires RecordsKeepTo(r.end, limit) && limit * (1 + r.moments[f].accidents) <= MAX_LINE_BYTES
    ensures Reaches(r.moments[f], n, k)
  {
    hide Leads, Reachable, Present, Knows, Lines, ShardLines, DanglingCount, TotalDangling, TooLong;
    var s := r.moments[f];
    LaterStatesAreReachable(r.start, s);
    FilesAreTheirSegments(s, n);
    AccidentsAreTheDanglingFragments(s);
    OneFileOfAll(s.files, n);
    PresentKeepsTo(r, f, n, limit);
    NoLinesWithoutSegments(Present(s, n));
    FragmentsInFront(s, n);
    ShortLinesFit(Present(s, n), limit, s.accidents);
  }

  lemma ShortLinesFit(segments: seq<Segment>, limit: nat, fragments: nat)
    requires SegmentsOk(segments) && segments != [] && DanglingCount(segments[..|segments| - 1]) <= fragments
    requires forall i :: 0 <= i < |segments| ==> |segments[i].record.line| <= limit
    requires limit * (1 + fragments) <= MAX_LINE_BYTES
    ensures forall j :: 0 <= j < |ShardLines(segments)| ==> !TooLong(ShardLines(segments)[j])
  {
    hide ShardLines, DanglingCount, DropNewline;
    var d := DanglingCount(segments[..|segments| - 1]);
    RoomGrows(limit, d, fragments);
    RoomIsProportional(limit, fragments);
    forall j | 0 <= j < |ShardLines(segments)| ensures !TooLong(ShardLines(segments)[j]) {
      LinesAreBounded(segments, limit, j);
    }
  }

  lemma FragmentsInFront(s: State, n: Inode)
    requires n < |s.files| && Present(s, n) != []
    ensures DanglingCount(Present(s, n)[..|Present(s, n)| - 1]) <= DanglingCount(s.files[n].segments)
  {
    hide DanglingCount;
    DanglingInPrefix(s.files[n].segments, InProgress(s, n));
  }

  lemma PresentKeepsTo(r: Reading, f: nat, n: Inode, limit: nat)
    requires IsReading(r) && f < |r.moments| && n < |r.moments[f].files| && RecordsKeepTo(r.end, limit)
    ensures forall i :: 0 <= i < |Present(r.moments[f], n)| ==> |Present(r.moments[f], n)[i].record.line| <= limit
  {
    hide Leads, Reachable, Present, Knows;
    PresentRecordsAreKnown(r, f, n);
  }

  /** So nothing is missing but what has expired and what stands behind a fragment. */
  lemma ShortRecordsAreReached(r: Reading, f: nat, place: Location, limit: nat)
    requires IsReading(r) && f < |r.shards|
    requires place.inode < |r.start.files| && place.at < |r.start.files[place.inode].segments|
    requires r.shards[f] == r.start.files[place.inode].home && r.shards[f].day >= r.moments[f].horizon
    requires !r.start.files[place.inode].segments[place.at].Dangling?
    requires RecordsKeepTo(r.end, limit) && limit * (1 + r.moments[f].accidents) <= MAX_LINE_BYTES
    ensures Reached(r, place)
  {
    hide Leads, Reachable, Lines, ShardLines, LineAt, Knows, InProgress, Reaches, WriterPreserved;
    var s, n := r.moments[f], place.inode;
    UnexpiredIsReachedExactly(r, f, place);
    LaterStatesAreReachable(r.start, s);
    LaterStatesPreserve(r.start, s);
    FilesAreTheirSegments(s, n);
    assert s.files[n].segments[place.at] == r.start.files[n].segments[place.at];
    assert Present(s, n)[place.at] == s.files[n].segments[place.at];
    var before := SegmentEndsItsLine(Present(s, n), place.at);
    ShortRecordsHideNothing(r, f, n, limit, LineAt(Present(s, n), place.at));
  }

  /** With the default limit, up to 31 fragments in the whole directory are harmless to the records around them. */
  lemma DefaultRecordsAreShort(accidents: nat)
    ensures Configurations.DEFAULT_MAX_RECORD_BYTES * (1 + accidents) <= MAX_LINE_BYTES <==> accidents <= 31
  {
  }

  /** A trace whose degraded records are within its limit hands over nothing longer. */
  lemma StoriesKeepTo(story: Story, w: Writer, a: nat)
    requires Told(story, w) && a < |story.attempts| && DegradedFit(story.encoder)
    ensures EncodeLine(story.encoder, story.attempts[a].event).Some?
    ensures |RecordOf(story, story.attempts[a]).line| <= story.encoder.maxRecordBytes
  {
    hide EncodeLine, DegradedFit, Knows;
    AttemptsAreOfTheTrace(story, w, a);
    LinesKeepTheLimit(story.encoder, story.attempts[a].event);
  }

  /** What was settled at the start is settled at any moment of the reading, behind the same segment. */
  lemma SettledStays(r: Reading, f: nat, place: Location, p: Proc, ticket: nat)
    requires IsReading(r) && f < |r.moments| && Attempt(r.start, place.inode, place.at, p, ticket)
    ensures var s, n := r.moments[f], place.inode;
            && Stands(s, n, place.at, p, ticket)
            && Present(s, n)[place.at] == r.start.files[n].segments[place.at]
            && (BehindFragment(Present(s, n), place.at) <==> IsSpoiled(r.start, place))
  {
    hide Leads, Reachable, WriterPreserved, InProgress;
    LaterStatesPreserve(r.start, r.moments[f]);
    var before, after := r.start.files[place.inode].segments, r.moments[f].files[place.inode].segments;
    assert before <= after;
    assert forall i :: 0 <= i < |before| ==> Present(r.moments[f], place.inode)[i] == before[i];
  }

  /**
   An event that had been acknowledged when the reading began is visible exactly if the reader comes
   to its place and no fragment stands right in front of it.
   */
  lemma AcknowledgedIsVisibleExactly(story: Story, r: Reading, a: nat, place: Location)
    requires IsReading(r) && Acknowledged(story, r.start, a) && IsAt(story, r.start, a, place)
    ensures (exists f, i :: Visible(r, f, i, story.writer, story.attempts[a].ticket))
            <==> Reached(r, place) && !IsSpoiled(r.start, place)
  {
    hide Leads, Reachable, Present, Reaches, LineAt;
    var p, ticket := story.writer, story.attempts[a].ticket;
    var at := AcknowledgedIsAt(story, r.start, a);
    if f: nat, i: nat :| Visible(r, f, i, p, ticket) {
      var s := r.moments[f];
      LaterStatesAreReachable(r.start, s);
      SettledStays(r, f, place, p, ticket);
      AttemptsLeaveAtMostOneTrace(s, place.inode, place.at, s.dir[r.shards[f]], i, p, ticket);
      assert ReachedIn(r, f, place);
    }
    if Reached(r, place) && !IsSpoiled(r.start, place) {
      var f :| ReachedIn(r, f, place);
      SettledStays(r, f, place, p, ticket);
      assert Visible(r, f, place.at, p, ticket);
    }
  }

  // How many can be missing

  /** The places of all unterminated fragments. */
  ghost function FragmentsIn(segments: seq<Segment>, n: Inode, from: nat): set<Location> {
    if segments == [] then {}
    else (if segments[0].Dangling? then {Location(n, from)} else {}) + FragmentsIn(segments[1..], n, from + 1)
  }

  ghost function Fragments(files: seq<File>): set<Location> {
    if files == [] then {}
    else Fragments(files[..|files| - 1]) + FragmentsIn(files[|files| - 1].segments, |files| - 1, 0)
  }

  lemma {:induction false} FragmentsInAreCounted(segments: seq<Segment>, n: Inode, from: nat)
    ensures |FragmentsIn(segments, n, from)| <= DanglingCount(segments)
    ensures forall i :: 0 <= i < |segments| && segments[i].Dangling? ==> Location(n, from + i) in FragmentsIn(segments, n, from)
  {
    if segments != [] {
      FragmentsInAreCounted(segments[1..], n, from + 1);
      forall i | 0 <= i < |segments| && segments[i].Dangling? ensures Location(n, from + i) in FragmentsIn(segments, n, from) {
        if i > 0 { assert segments[1..][i - 1] == segments[i] && Location(n, from + 1 + (i - 1)) == Location(n, from + i); }
      }
    }
  }

  lemma {:induction false} FragmentsAreCounted(files: seq<File>)
    ensures |Fragments(files)| <= TotalDangling(files)
    ensures forall n: nat, i: nat :: n < |files| && i < |files[n].segments| && files[n].segments[i].Dangling? ==>
              Location(n, i) in Fragments(files)
  {
    hide FragmentsIn, DanglingCount;
    if files != [] {
      var last := |files| - 1;
      FragmentsAreCounted(files[..last]);
      FragmentsInAreCounted(files[last].segments, last, 0);
      forall n: nat, i: nat | n < |files| && i < |files[n].segments| && files[n].segments[i].Dangling?
        ensures Location(n, i) in Fragments(files)
      {
        if n < last { assert files[..last][n] == files[n]; } else { assert Location(last, 0 + i) == Location(n, i); }
      }
    }
  }

  /** The acknowledged event stands behind a fragment. */
  ghost predicate Spoiled(story: Story, s: State, a: nat) {
    && Acknowledged(story, s, a)
    && story.attempts[a].ticket in s.writers[story.writer].places
    && IsSpoiled(s, s.writers[story.writer].places[story.attempts[a].ticket])
  }

  ghost function SpoiledEvents(story: Story, s: State): set<nat> {
    set a: nat | 0 <= a < |story.attempts| && Spoiled(story, s, a)
  }

  /** Each crash or failed repair in the middle of a record costs the trace at most one acknowledged event. */
  lemma AtMostOneEventPerAccident(story: Story, s: State, later: Writer)
    requires Reachable(s) && Told(story, later)
    ensures |SpoiledEvents(story, s)| <= s.accidents
  {
    hide Told, Spoiled, FragmentBefore, Fragments, TotalDangling, Reachable;
    var spoiled := SpoiledEvents(story, s);
    AccidentsAreTheDanglingFragments(s);
    FragmentsAreCounted(s.files);
    forall a | a in spoiled ensures FragmentBefore(story, s, a) in Fragments(s.files) {
      FragmentIsThere(story, s, a);
    }
    forall a, b | a in spoiled && b in spoiled && FragmentBefore(story, s, a) == FragmentBefore(story, s, b) ensures a == b {
      FragmentsDiffer(story, s, later, a, b);
    }
    Sets.InjectionBounds(spoiled, map a | a in spoiled :: FragmentBefore(story, s, a), Fragments(s.files));
  }

  /** The fragment in front of a spoiled event. */
  ghost function FragmentBefore(story: Story, s: State, a: nat): Location
    requires Spoiled(story, s, a)
  {
    var place := s.writers[story.writer].places[story.attempts[a].ticket];
    Location(place.inode, place.at - 1)
  }

  lemma FragmentIsThere(story: Story, s: State, a: nat)
    requires Spoiled(story, s, a)
    ensures FragmentBefore(story, s, a) in Fragments(s.files)
  {
    hide Fragments;
    FragmentsAreCounted(s.files);
  }

  lemma FragmentsDiffer(story: Story, s: State, later: Writer, a: nat, b: nat)
    requires Reachable(s) && Told(story, later)
    requires Spoiled(story, s, a) && Spoiled(story, s, b)
    requires FragmentBefore(story, s, a) == FragmentBefore(story, s, b)
    ensures a == b
  {
    hide Told, Reachable;
    var x := AcknowledgedIsAt(story, s, a);
    var y := AcknowledgedIsAt(story, s, b);
    assert x == y;
    NumbersTellAttempts(story, later, a, b);
  }

  /** The events that had been acknowledged when the reading began, that the reader comes to, and that are not shown. */
  ghost function Missing(story: Story, r: Reading, timeline: seq<TimelineEvent>): set<nat> {
    set a: nat | 0 <= a < |story.attempts| && IsMissing(story, r, timeline, a)
  }

  ghost predicate IsReached(story: Story, r: Reading, a: nat) {
    exists place :: IsAt(story, r.start, a, place) && Reached(r, place)
  }

  ghost predicate IsMissing(story: Story, r: Reading, timeline: seq<TimelineEvent>, a: nat) {
    && Acknowledged(story, r.start, a)
    && IsReached(story, r, a)
    && !exists shown :: shown in timeline && Shows(shown, story.attempts[a].event)
  }

  /** An event that had been acknowledged when the reading began is in the timeline exactly under that condition. */
  lemma AcknowledgedIsShownExactly(story: Story, r: Reading, parse: Parser, a: nat, place: Location)
    requires Setting(story, r, parse) && NobodyElse(story, r.end, parse)
    requires Acknowledged(story, r.start, a) && IsAt(story, r.start, a, place)
    ensures (exists shown :: shown in TimelineOf(r, story.traceId, parse) && Shows(shown, story.attempts[a].event))
            <==> Reached(r, place) && !IsSpoiled(r.start, place)
  {
    hide Setting, NobodyElse, Visible, Shows, TimelineOf, Reached, IsSpoiled, IsAt;
    RightNumberOfFiles(story, r, parse);
    ShownExactly(story, r, parse, a);
    AcknowledgedIsVisibleExactly(story, r, a, place);
  }

  /**
   Of the events that had been acknowledged when the reading began and that the reader comes to,
   exactly those are missing that stand right behind a fragment, and so at most one for each crash
   or failed repair before.
   */
  lemma OnlySpoiledAreMissing(story: Story, r: Reading, parse: Parser)
    requires Setting(story, r, parse) && NobodyElse(story, r.end, parse)
    ensures |r.moments| == |r.shards|
    ensures var missing := Missing(story, r, TimelineOf(r, story.traceId, parse));
            && (forall a :: a in missing <==> Spoiled(story, r.start, a) && IsReached(story, r, a))
            && |missing| <= r.start.accidents
  {
    hide Setting, NobodyElse, TimelineOf, Shows, Told, Reached, IsSpoiled, Reachable, Leads;
    RightNumberOfFiles(story, r, parse);
    StoryIsTold(story, r, parse);
    var missing, spoiled := Missing(story, r, TimelineOf(r, story.traceId, parse)), SpoiledEvents(story, r.start);
    forall a: nat ensures a in missing <==> Spoiled(story, r.start, a) && IsReached(story, r, a) {
      if place :| Acknowledged(story, r.start, a) && IsAt(story, r.start, a, place) && Reached(r, place) {
        AcknowledgedIsShownExactly(story, r, parse, a, place);
      }
    }
    AtMostOneEventPerAccident(story, r.start, r.end.writers[story.writer]);
    assert missing <= spoiled;
    Sets.SubsetIsSmaller(missing, spoiled);
  }

  // The clock

  /** Between any two events of the trace that are shown, the wall clock did not run backwards. */
  ghost predicate ClockHeld(story: Story, shown: set<TimelineEvent>) {
    forall e, f, a, b ::
      e in shown && f in shown && IsShownAs(story, e, a) && IsShownAs(story, f, b) && a < b ==>
        Calendar.Microseconds(story.attempts[a].event.moment.at) <= Calendar.Microseconds(story.attempts[b].event.moment.at)
  }

  ghost predicate IsShownAs(story: Story, e: TimelineEvent, a: int) {
    0 <= a < |story.attempts| && Shows(e, story.attempts[a].event)
  }

  lemma TimestampsInOrder(m: Moment, n: Moment)
    ensures AtMost(TimestampOf(m), TimestampOf(n)) <==> Calendar.Microseconds(m.at) <= Calendar.Microseconds(n.at)
  {
    hide Calendar.Timestamp, Calendar.Microseconds, Less;
    Calendar.TimestampOrderIsTimeOrder(m.at, n.at);
    Calendar.TimestampOrderIsTimeOrder(n.at, m.at);
    Trichotomy(TimestampOf(m), TimestampOf(n));
  }

  /** The order of the timestamp strings is the order of the clock readings behind them. */
  lemma ClockNeverBackIsClockHeld(story: Story, w: Writer, found: seq<TimelineEvent>)
    requires Told(story, w)
    requires forall e :: e in found ==> exists a :: IsShownAs(story, e, a)
    ensures ClockNeverBack(found) <==> ClockHeld(story, set e | e in found)
  {
    hide Told, AtMost, TimestampOf, Calendar.Microseconds;
    var shown := set e | e in found;
    if ClockNeverBack(found) {
      forall e, f, a, b | e in shown && f in shown && IsShownAs(story, e, a) && IsShownAs(story, f, b) && a < b
        ensures Calendar.Microseconds(story.attempts[a].event.moment.at)
             <= Calendar.Microseconds(story.attempts[b].event.moment.at)
      {
        NumbersTellAttempts(story, w, a, b);
        TimestampsInOrder(story.attempts[a].event.moment, story.attempts[b].event.moment);
      }
    }
    if ClockHeld(story, shown) {
      forall e, f | e in found && f in found && e.sequence < f.sequence ensures AtMost(e.timestamp, f.timestamp) {
        var a :| IsShownAs(story, e, a);
        var b :| IsShownAs(story, f, b);
        NumbersTellAttempts(story, w, a, b);
        assert e in shown && f in shown;
        TimestampsInOrder(story.attempts[a].event.moment, story.attempts[b].event.moment);
      }
    }
  }

  // The whole way

  lemma NumbersAreDistinct(story: Story, r: Reading, parse: Parser)
    requires Setting(story, r, parse) && NobodyElse(story, r.end, parse)
    ensures |r.moments| == |r.shards|
    ensures DistinctSequences(Collected(FilesRead(r), story.traceId, parse))
  {
    hide Setting, NobodyElse, AllTokens, FilesRead, FoundIn, DistinctSequences;
    RightNumberOfFiles(story, r, parse);
    var tokens := AllTokens(FilesRead(r));
    forall i, j | 0 <= i < j < |tokens| && DecodesTo(parse, tokens[i], story.traceId) && DecodesTo(parse, tokens[j], story.traceId)
      ensures parse(tokens[i]).value.sequence != parse(tokens[j]).value.sequence
    {
      DifferentLinesDifferentNumbers(story, r, parse, i, j);
    }
    FoundAreDistinct(tokens, story.traceId, parse);
  }

  lemma EverythingShownIsTheTraces(story: Story, r: Reading, parse: Parser)
    requires Setting(story, r, parse) && NobodyElse(story, r.end, parse)
    ensures |r.moments| == |r.shards|
    ensures forall shown :: shown in TimelineOf(r, story.traceId, parse) ==> exists a :: IsShownAs(story, shown, a)
  {
    hide Setting, NobodyElse, TimelineOf, Shows, Visible;
    RightNumberOfFiles(story, r, parse);
    forall shown | shown in TimelineOf(r, story.traceId, parse) ensures exists a :: IsShownAs(story, shown, a) {
      var a, f, i := ShownIsAnAttempt(story, r, parse, shown);
      assert IsShownAs(story, shown, a);
    }
  }

  lemma TimelineIsInClockOrder(story: Story, r: Reading, parse: Parser)
    requires Setting(story, r, parse) && NobodyElse(story, r.end, parse)
    ensures |r.moments| == |r.shards|
    ensures var timeline := TimelineOf(r, story.traceId, parse);
            && DistinctSequences(timeline)
            && (InSequenceOrder(timeline) <==> ClockHeld(story, set e | e in timeline))
  {
    hide Setting, NobodyElse, StableSort, Collected, Told, FilesRead, IsShownAs, DistinctSequences, InSequenceOrder, ClockNeverBack;
    hide ClockHeld;
    NumbersAreDistinct(story, r, parse);
    EverythingShownIsTheTraces(story, r, parse);
    StoryIsTold(story, r, parse);
    var found := Collected(FilesRead(r), story.traceId, parse);
    SortedMembers(found);
    DistinctInAnyOrder(found);
    TimelineIsInSequenceOrder(found);
    forall e | e in found ensures exists a :: IsShownAs(story, e, a) {
      assert e in TimelineOf(r, story.traceId, parse);
    }
    ClockNeverBackIsClockHeld(story, r.end.writers[story.writer], found);
    assert (set e | e in found) == set e | e in StableSort(found);
  }

  /**
   The timeline of a trace whose ID nobody else uses, read while others write: it shows exactly the
   visible events of the trace, acknowledged or not, and nothing else, each number once. Of the
   events acknowledged before that the reader comes to, at most one is missing for each crash or
   failed repair before. The order is that of the numbers exactly if the clock did not run
   backwards between the events shown.
   */
  lemma TimelineOfTrace(story: Story, r: Reading, parse: Parser)
    requires Setting(story, r, parse) && NobodyElse(story, r.end, parse)
    ensures |r.moments| == |r.shards|
    ensures var timeline := TimelineOf(r, story.traceId, parse);
            && (forall a :: 0 <= a < |story.attempts| ==>
                  ((exists shown :: shown in timeline && Shows(shown, story.attempts[a].event))
                   <==> exists f, i :: Visible(r, f, i, story.writer, story.attempts[a].ticket)))
            && (forall shown :: shown in timeline ==> exists a :: IsShownAs(story, shown, a))
            && DistinctSequences(timeline)
            && |Missing(story, r, timeline)| <= r.start.accidents
            && (InSequenceOrder(timeline) <==> ClockHeld(story, set e | e in timeline))
  {
    hide Setting, NobodyElse, TimelineOf, Shows, Visible, IsMissing, DistinctSequences, InSequenceOrder, ClockHeld, IsShownAs;
    forall a | 0 <= a < |story.attempts|
      ensures |r.moments| == |r.shards|
      ensures (exists shown :: shown in TimelineOf(r, story.traceId, parse) && Shows(shown, story.attempts[a].event))
              <==> exists f, i :: Visible(r, f, i, story.writer, story.attempts[a].ticket)
    {
      RightNumberOfFiles(story, r, parse);
      ShownExactly(story, r, parse, a);
    }
    OnlySpoiledAreMissing(story, r, parse);
    EverythingShownIsTheTraces(story, r, parse);
    TimelineIsInClockOrder(story, r, parse);
  }
}
