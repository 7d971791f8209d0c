/** The command-line reader: it reassembles the timeline of one trace from the shards. */
module Timelines {
  import opened Wrappers
  import opened Lex
  import opened Shards

  datatype TimelineEvent = TimelineEvent(
    timestamp: string, traceId: string, parentTraceId: string, event: string, sequence: nat, elapsed: Option<real>)

  /** The JSON decoder on one line: `None` is an error. */
  type Parser = string -> Option<TimelineEvent>

  /** A log file as the reader finds it. */
  datatype LogFile = Unreadable | Readable(content: string)

  const MAX_LINE_BYTES := 8 * 1024 * 1024

  // Scanning

  function DropNewline(line: string): string {
    if line != "" && line[|line| - 1] == '\n' then line[..|line| - 1] else line
  }

  /** The scanner's token: no newline, and no carriage return before it. */
  function Token(line: string): string {
    var text := DropNewline(line);
    if text != "" && text[|text| - 1] == '\r' then text[..|text| - 1] else text
  }

  /** Of a line the token has all but its end: a newline, or a carriage return and a newline. */
  lemma TokensAreLinesWithoutEnds(text: string)
    requires text == "" || (text[|text| - 1] != '\n' && text[|text| - 1] != '\r')
    ensures Token(text) == text && Token(text + "\n") == text && Token(text + "\r\n") == text
  {
    assert (text + "\n")[..|text|] == text;
    assert (text + "\r\n")[..|text| + 1] == text + "\r" && (text + "\r")[..|text|] == text;
  }

  /** The scanner's buffer must hold the line and its newline. */
  predicate TooLong(line: string) {
    |DropNewline(line)| >= MAX_LINE_BYTES
  }

  /** A line is within the cap if it has fewer than 8 MiB, its newline aside. */
  lemma LongestLines(text: string)
    requires text == "" || text[|text| - 1] != '\n'
    ensures TooLong(text) <==> |text| >= 8388608
    ensures TooLong(text + "\n") <==> |text| >= 8388608
  {
    assert (text + "\n")[..|text|] == text;
  }

  /** The tokens up to the first line that is too long, and whether there is one. */
  function Scan(lines: seq<string>): (seq<string>, bool) {
    if lines == [] then ([], false)
    else if TooLong(lines[0]) then ([], true)
    else ([Token(lines[0])] + Scan(lines[1..]).0, Scan(lines[1..]).1)
  }

  // Finding

  /** What one line adds: the event, if it is one of the trace. */
  function Found(token: string, traceId: string, parse: Parser): seq<TimelineEvent> {
    if Contains(token, traceId) && parse(token).Some? && parse(token).value.traceId == traceId
    then [parse(token).value] else []
  }

  function FoundIn(tokens: seq<string>, traceId: string, parse: Parser): seq<TimelineEvent> {
    if tokens == [] then []
    else FoundIn(tokens[..|tokens| - 1], traceId, parse) + Found(tokens[|tokens| - 1], traceId, parse)
  }

  /** Lines that mention the trace and cannot be decoded. */
  function Malformed(tokens: seq<string>, traceId: string, parse: Parser): nat {
    if tokens == [] then 0
    else
      var last := tokens[|tokens| - 1];
      Malformed(tokens[..|tokens| - 1], traceId, parse) + if Contains(last, traceId) && parse(last).None? then 1 else 0
  }

  // Counting lines

  /** The lines that mention the trace. */
  function Mentioning(tokens: seq<string>, traceId: string): set<nat> {
    set i: nat | i < |tokens| && Contains(tokens[i], traceId)
  }

  /** Those of them that cannot be decoded. */
  function Undecodable(tokens: seq<string>, traceId: string, parse: Parser): set<nat> {
    set i: nat | i < |tokens| && Contains(tokens[i], traceId) && parse(tokens[i]).None?
  }

  /** Those that decode to the trace. */
  function Own(tokens: seq<string>, traceId: string, parse: Parser): set<nat> {
    set i: nat | i < |tokens| && Contains(tokens[i], traceId) && parse(tokens[i]).Some? && parse(tokens[i]).value.traceId == traceId
  }

  /** Those that decode to another trace. */
  function Foreign(tokens: seq<string>, traceId: string, parse: Parser): set<nat> {
    set i: nat | i < |tokens| && Contains(tokens[i], traceId) && parse(tokens[i]).Some? && parse(tokens[i]).value.traceId != traceId
  }

  lemma OneMoreIndex(before: set<nat>, after: set<nat>, n: nat, more: bool)
    requires n !in before && forall i: nat :: i in after <==> i in before || (more && i == n)
    ensures |after| == |before| + if more then 1 else 0
  {
    assert after == if more then before + {n} else before;
  }

  /** As many lines are counted as malformed as there are that cannot be decoded. */
  lemma {:induction false} MalformedAreTheUndecodable(tokens: seq<string>, traceId: string, parse: Parser)
    ensures Malformed(tokens, traceId, parse) == |Undecodable(tokens, traceId, parse)|
  {
    hide Contains;
    if tokens != [] {
      var last := |tokens| - 1;
      MalformedAreTheUndecodable(tokens[..last], traceId, parse);
      OneMoreIndex(Undecodable(tokens[..last], traceId, parse), Undecodable(tokens, traceId, parse), last,
                   Contains(tokens[last], traceId) && parse(tokens[last]).None?);
    }
  }

  /** As many events are found as there are lines that decode to the trace. */
  lemma {:induction false} FoundAreTheOwn(tokens: seq<string>, traceId: string, parse: Parser)
    ensures |FoundIn(tokens, traceId, parse)| == |Own(tokens, traceId, parse)|
  {
    hide Contains, FoundIn, Found;
    FoundOneMore(tokens, traceId, parse);
    if tokens != [] {
      var last := |tokens| - 1;
      FoundAreTheOwn(tokens[..last], traceId, parse);
      OneMoreIndex(Own(tokens[..last], traceId, parse), Own(tokens, traceId, parse), last,
                   Contains(tokens[last], traceId) && DecodesTo(parse, tokens[last], traceId));
    }
  }

  lemma FoundOneMore(tokens: seq<string>, traceId: string, parse: Parser)
    ensures |FoundIn(tokens, traceId, parse)|
         == if tokens == [] then 0
            else |FoundIn(tokens[..|tokens| - 1], traceId, parse)|
                 + if Contains(tokens[|tokens| - 1], traceId) && DecodesTo(parse, tokens[|tokens| - 1], traceId) then 1 else 0
  {
    hide Contains;
  }

  /** Every line that mentions the trace is shown, warned about, or of another trace, and just one of these. */
  lemma MentionsAreSharedOut(tokens: seq<string>, traceId: string, parse: Parser)
    ensures |Mentioning(tokens, traceId)|
         == |FoundIn(tokens, traceId, parse)| + Malformed(tokens, traceId, parse) + |Foreign(tokens, traceId, parse)|
    ensures Mentioning(tokens, traceId)
         == Own(tokens, traceId, parse) + Undecodable(tokens, traceId, parse) + Foreign(tokens, traceId, parse)
  {
    hide Contains, FoundIn, Malformed, Own, Undecodable, Foreign, Mentioning;
    FoundAreTheOwn(tokens, traceId, parse);
    MalformedAreTheUndecodable(tokens, traceId, parse);
    OwnForeignAndUndecodable(tokens, traceId, parse);
    DisjointSizes(Own(tokens, traceId, parse), Undecodable(tokens, traceId, parse), Foreign(tokens, traceId, parse));
  }

  lemma OwnForeignAndUndecodable(tokens: seq<string>, traceId: string, parse: Parser)
    ensures Own(tokens, traceId, parse) !! Undecodable(tokens, traceId, parse)
    ensures Own(tokens, traceId, parse) + Undecodable(tokens, traceId, parse) !! Foreign(tokens, traceId, parse)
    ensures Mentioning(tokens, traceId)
         == Own(tokens, traceId, parse) + Undecodable(tokens, traceId, parse) + Foreign(tokens, traceId, parse)
  {
    hide Contains;
  }

  lemma DisjointSizes(a: set<nat>, b: set<nat>, c: set<nat>)
    requires a !! b && a + b !! c
    ensures |a + b + c| == |a| + |b| + |c|
  {
  }

  /** The files that hold a line over the cap. */
  function WithOverlongLine(files: seq<LogFile>): set<nat> {
    set f: nat | f < |files| && HasOverlongLine(files[f])
  }

  predicate HasOverlongLine(file: LogFile) {
    file.Readable? && exists k :: 0 <= k < |Lines(file.content)| && TooLong(Lines(file.content)[k])
  }

  lemma {:induction false} ScanStopsAtOverlongLines(lines: seq<string>)
    ensures Scan(lines).1 <==> exists k :: 0 <= k < |lines| && TooLong(lines[k])
  {
    hide TooLong, Token;
    if lines != [] && !TooLong(lines[0]) {
      ScanStopsAtOverlongLines(lines[1..]);
      if k :| 0 <= k < |lines| && TooLong(lines[k]) { assert lines[1..][k - 1] == lines[k]; }
      if k :| 0 <= k < |lines[1..]| && TooLong(lines[1..][k]) { assert lines[1..][k] == lines[k + 1]; }
    }
  }

  lemma {:induction false} OverflowingAreThoseWithOverlongLines(files: seq<LogFile>)
    ensures Overflowing(files) == |WithOverlongLine(files)|
  {
    hide Scan, Lines, TooLong;
    if files != [] {
      var last := |files| - 1;
      OverflowingAreThoseWithOverlongLines(files[..last]);
      if files[last].Readable? { ScanStopsAtOverlongLines(Lines(files[last].content)); }
      OneMoreIndex(WithOverlongLine(files[..last]), WithOverlongLine(files), last, HasOverlongLine(files[last]));
    }
  }

  function TokensOf(file: LogFile): seq<string> {
    if file.Unreadable? then [] else Scan(Lines(file.content)).0
  }

  predicate Overflows(file: LogFile) {
    file.Readable? && Scan(Lines(file.content)).1
  }

  function AllTokens(files: seq<LogFile>): seq<string> {
    if files == [] then [] else AllTokens(files[..|files| - 1]) + TokensOf(files[|files| - 1])
  }

  function Overflowing(files: seq<LogFile>): nat {
    if files == [] then 0
    else Overflowing(files[..|files| - 1]) + if Overflows(files[|files| - 1]) then 1 else 0
  }

  lemma {:induction false} FoundInParts(a: seq<string>, b: seq<string>, traceId: string, parse: Parser)
    ensures FoundIn(a + b, traceId, parse) == FoundIn(a, traceId, parse) + FoundIn(b, traceId, parse)
    ensures Malformed(a + b, traceId, parse) == Malformed(a, traceId, parse) + Malformed(b, traceId, parse)
  {
    hide Found, Contains;
    if b == [] {
      assert a + b == a;
    } else {
      var front, last := b[..|b| - 1], b[|b| - 1];
      FoundInParts(a, front, traceId, parse);
      assert (a + b)[..|a + b| - 1] == a + front && (a + b)[|a + b| - 1] == last;
      assert FoundIn(b, traceId, parse) == FoundIn(front, traceId, parse) + Found(last, traceId, parse);
    }
  }

  // Sorting

  /** The comparison that the source passes to `sort.SliceStable`. */
  predicate Sooner(a: TimelineEvent, b: TimelineEvent) {
    if a.timestamp != b.timestamp then Less(a.timestamp, b.timestamp) else a.sequence < b.sequence
  }

  predicate Sorted(events: seq<TimelineEvent>) {
    forall i, j :: 0 <= i < j < |events| ==> !Sooner(events[j], events[i])
  }

  predicate SameKey(a: TimelineEvent, b: TimelineEvent) {
    a.timestamp == b.timestamp && a.sequence == b.sequence
  }

  /** The events with the key of `one`, in their order. */
  function Peers(events: seq<TimelineEvent>, one: TimelineEvent): seq<TimelineEvent> {
    if events == [] then []
    else (if SameKey(events[0], one) then [events[0]] else []) + Peers(events[1..], one)
  }

  /** A stable sort: sorted, the same events, and events with equal keys in their old order. */
  ghost predicate IsStableSort(sorted: seq<TimelineEvent>, events: seq<TimelineEvent>) {
    && Sorted(sorted)
    && |sorted| == |events|
    && forall one :: Peers(sorted, one) == Peers(events, one)
  }

  function Insert(sorted: seq<TimelineEvent>, e: TimelineEvent): (r: seq<TimelineEvent>)
    ensures |r| == |sorted| + 1
    ensures multiset(r) == multiset(sorted) + multiset{e}
  {
    if sorted == [] then [e]
    else
      var last := |sorted| - 1;
      assert sorted == sorted[..last] + [sorted[last]];
      if Sooner(e, sorted[last]) then Insert(sorted[..last], e) + [sorted[last]] else sorted + [e]
  }

  function StableSort(events: seq<TimelineEvent>): (r: seq<TimelineEvent>)
    ensures |r| == |events|
    ensures multiset(r) == multiset(events)
  {
    if events == [] then []
    else
      var last := |events| - 1;
      assert events == events[..last] + [events[last]];
      Insert(StableSort(events[..last]), events[last])
  }

  lemma SoonerIsAnOrder(a: TimelineEvent, b: TimelineEvent, c: TimelineEvent)
    ensures !(Sooner(a, b) && Sooner(b, a))
    ensures SameKey(a, b) <==> !Sooner(a, b) && !Sooner(b, a)
    ensures Sooner(a, b) && Sooner(b, c) ==> Sooner(a, c)
    ensures !Sooner(a, b) && !Sooner(b, c) ==> !Sooner(a, c)
  {
    hide Less;
    Trichotomy(a.timestamp, b.timestamp);
    Trichotomy(b.timestamp, c.timestamp);
    Trichotomy(a.timestamp, c.timestamp);
    if Less(a.timestamp, b.timestamp) && Less(b.timestamp, c.timestamp) {
      Transitive(a.timestamp, b.timestamp, c.timestamp);
    }
    if Less(b.timestamp, a.timestamp) && Less(c.timestamp, b.timestamp) {
      Transitive(c.timestamp, b.timestamp, a.timestamp);
    }
  }

  lemma {:induction false} PeersOfConcat(a: seq<TimelineEvent>, b: seq<TimelineEvent>, one: TimelineEvent)
    ensures Peers(a + b, one) == Peers(a, one) + Peers(b, one)
  {
    hide Peers, SameKey;
    PeersFromFront(a, one);
    if a == [] {
      assert a + b == b;
    } else {
      PeersOfConcat(a[1..], b, one);
      PeersFromFront(a + b, one);
      assert (a + b)[1..] == a[1..] + b;
    }
  }

  lemma PeersFromFront(events: seq<TimelineEvent>, one: TimelineEvent)
    ensures Peers(events, one)
         == if events == [] then []
            else (if SameKey(events[0], one) then [events[0]] else []) + Peers(events[1..], one)
  {
  }

  lemma {:induction false} NoPeers(events: seq<TimelineEvent>, one: TimelineEvent)
    ensures Peers(events, one) == [] <==> forall e :: e in events ==> !SameKey(e, one)
  {
    if events != [] { NoPeers(events[1..], one); }
  }

  lemma {:induction false} InsertKeepsSorted(sorted: seq<TimelineEvent>, e: TimelineEvent)
    requires Sorted(sorted)
    ensures Sorted(Insert(sorted, e))
    ensures forall one :: Peers(Insert(sorted, e), one) == Peers(sorted, one) + Peers([e], one)
  {
    hide Less;
    if sorted == [] {
      assert sorted + [e] == [e];
    } else {
      var last := |sorted| - 1;
      assert sorted == sorted[..last] + [sorted[last]];
      if Sooner(e, sorted[last]) {
        InsertKeepsSorted(sorted[..last], e);
        InsertedBeforeLast(sorted, e);
      } else {
        forall i | 0 <= i < |sorted| ensures !Sooner(e, sorted[i]) {
          SoonerIsAnOrder(e, sorted[last], sorted[i]);
        }
        forall one ensures Peers(sorted + [e], one) == Peers(sorted, one) + Peers([e], one) {
          PeersOfConcat(sorted, [e], one);
        }
      }
    }
  }

  lemma InsertedBeforeLast(sorted: seq<TimelineEvent>, e: TimelineEvent)
    requires sorted != [] && Sorted(sorted) && Sooner(e, sorted[|sorted| - 1])
    requires var front := sorted[..|sorted| - 1];
             Sorted(Insert(front, e)) && forall one :: Peers(Insert(front, e), one) == Peers(front, one) + Peers([e], one)
    ensures Sorted(Insert(sorted, e))
    ensures forall one :: Peers(Insert(sorted, e), one) == Peers(sorted, one) + Peers([e], one)
  {
    hide Less, Sooner, SameKey, Peers;
    var front, last := sorted[..|sorted| - 1], sorted[|sorted| - 1];
    var inserted := Insert(front, e);
    assert sorted == front + [last];
    forall i | 0 <= i < |inserted| ensures !Sooner(last, inserted[i]) {
      SoonerIsAnOrder(e, last, e);
      assert inserted[i] in multiset(inserted);
      if inserted[i] in multiset(front) {
        var k :| 0 <= k < |front| && front[k] == inserted[i];
        assert sorted[k] == front[k];
      }
    }
    forall one ensures Peers(inserted + [last], one) == Peers(sorted, one) + Peers([e], one) {
      PeersOfConcat(inserted, [last], one);
      PeersOfConcat(front, [last], one);
      OnlyOneHasPeers(Peers(front, one), e, last, one);
    }
  }

  lemma OnlyOneHasPeers(front: seq<TimelineEvent>, a: TimelineEvent, b: TimelineEvent, one: TimelineEvent)
    requires Sooner(a, b)
    ensures front + Peers([a], one) + Peers([b], one) == front + Peers([b], one) + Peers([a], one)
  {
    SoonerIsAnOrder(a, b, a);
    assert Peers([a], one) == (if SameKey(a, one) then [a] else []) + Peers([], one);
    assert Peers([b], one) == (if SameKey(b, one) then [b] else []) + Peers([], one);
  }

  lemma {:induction false} StableSortIsStable(events: seq<TimelineEvent>)
    ensures IsStableSort(StableSort(events), events)
  {
    if events != [] {
      var front, last := events[..|events| - 1], events[|events| - 1];
      StableSortIsStable(front);
      InsertKeepsSorted(StableSort(front), last);
      assert events == front + [last];
      forall one ensures Peers(StableSort(events), one) == Peers(events, one) {
        PeersOfConcat(front, [last], one);
      }
    }
  }

  /** There is only one stable sort, so it does not matter how the library sorts. */
  lemma {:induction false} StableSortIsUnique(a: seq<TimelineEvent>, b: seq<TimelineEvent>)
    requires Sorted(a) && Sorted(b) && forall one :: Peers(a, one) == Peers(b, one)
    ensures a == b
  {
    hide Sooner, SameKey;
    if a == [] {
      if b != [] { HeadIsPeer(b); }
    } else {
      HeadIsPeer(a);
      NoPeers(b, a[0]);
      HeadIsPeer(b);
      NoPeers(a, b[0]);
      var e :| e in b && SameKey(e, a[0]);
      var f :| f in a && SameKey(f, b[0]);
      HeadsHaveOneKey(a, b, e, f);
      assert Peers(a, a[0]) == Peers(b, a[0]) && Peers(b, a[0]) == Peers(b, b[0]) by { PeersByKey(b, a[0], b[0]); }
      forall one ensures Peers(a[1..], one) == Peers(b[1..], one) {
        PeersOfTail(a, one);
        PeersOfTail(b, one);
      }
      StableSortIsUnique(a[1..], b[1..]);
      assert a == [a[0]] + a[1..] && b == [b[0]] + b[1..];
    }
  }

  lemma HeadIsPeer(events: seq<TimelineEvent>)
    requires events != []
    ensures Peers(events, events[0]) != [] && Peers(events, events[0])[0] == events[0]
  {
  }

  lemma PeersOfTail(events: seq<TimelineEvent>, one: TimelineEvent)
    requires events != []
    ensures Peers(events[1..], one)
            == if SameKey(events[0], one) then Peers(events, one)[1..] else Peers(events, one)
  {
  }

  lemma HeadsHaveOneKey(a: seq<TimelineEvent>, b: seq<TimelineEvent>, e: TimelineEvent, f: TimelineEvent)
    requires a != [] && b != [] && Sorted(a) && Sorted(b)
    requires e in b && SameKey(e, a[0]) && f in a && SameKey(f, b[0])
    ensures SameKey(a[0], b[0])
  {
    SoonerIsAnOrder(a[0], b[0], a[0]);
    assert !Sooner(e, b[0]) && !Sooner(f, a[0]);
  }

  lemma {:induction false} PeersByKey(events: seq<TimelineEvent>, one: TimelineEvent, two: TimelineEvent)
    requires SameKey(one, two)
    ensures Peers(events, one) == Peers(events, two)
  {
    if events != [] { PeersByKey(events[1..], one, two); }
  }

  // The method

  /** The found events before sorting, in the order of the files. */
  function Collected(files: seq<LogFile>, traceId: string, parse: Parser): seq<TimelineEvent> {
    FoundIn(AllTokens(files), traceId, parse)
  }

  /** `findEvents`: the timeline, and the number of lines to warn about. */
  method FindEvents(files: seq<LogFile>, traceId: string, parse: Parser)
    returns (events: seq<TimelineEvent>, malformed: nat)
    ensures IsStableSort(events, Collected(files, traceId, parse))
    ensures events == StableSort(Collected(files, traceId, parse))
    ensures malformed == |Undecodable(AllTokens(files), traceId, parse)| + |WithOverlongLine(files)|
  {
    events, malformed := [], 0;
    for i := 0 to |files|
      invariant events == FoundIn(AllTokens(files[..i]), traceId, parse)
      invariant malformed == Malformed(AllTokens(files[..i]), traceId, parse) + Overflowing(files[..i])
    {
      assert files[..i + 1][..i] == files[..i];
      var found, bad := FindInFile(files[i], traceId, parse);
      FoundInParts(AllTokens(files[..i]), TokensOf(files[i]), traceId, parse);
      events, malformed := events + found, malformed + bad;
    }
    assert files[..|files|] == files;
    MalformedAreTheUndecodable(AllTokens(files), traceId, parse);
    OverflowingAreThoseWithOverlongLines(files);
    StableSortIsStable(events);
    events := StableSort(events);
  }

  /** Scans one file. A file that cannot be opened is skipped, and so is the rest behind a line that is too long. */
  method FindInFile(file: LogFile, traceId: string, parse: Parser) returns (events: seq<TimelineEvent>, malformed: nat)
    ensures events == FoundIn(TokensOf(file), traceId, parse)
    ensures malformed == |Undecodable(TokensOf(file), traceId, parse)| + if HasOverlongLine(file) then 1 else 0
    ensures malformed == Malformed(TokensOf(file), traceId, parse) + if Overflows(file) then 1 else 0
  {
    hide Lines, Scan, Contains, TooLong;
    events, malformed := [], 0;
    MalformedAreTheUndecodable(TokensOf(file), traceId, parse);
    if file.Unreadable? {
      return;
    }
    ScanStopsAtOverlongLines(Lines(file.content));
    var tokens, tooLong := Scan(Lines(file.content)).0, Scan(Lines(file.content)).1;
    for i := 0 to |tokens|
      invariant events == FoundIn(tokens[..i], traceId, parse)
      invariant malformed == Malformed(tokens[..i], traceId, parse)
    {
      assert tokens[..i + 1][..i] == tokens[..i];
      var line := tokens[i];
      if !Contains(line, traceId) {
        continue;
      }
      var event := parse(line);
      if event.None? {
        malformed := malformed + 1;
      } else if event.value.traceId == traceId {
        events := events + [event.value];
      }
    }
    assert tokens[..|tokens|] == tokens;
    if tooLong {
      malformed := malformed + 1;
    }
  }

  // What the timeline shows

  predicate DistinctSequences(events: seq<TimelineEvent>) {
    forall i, j :: 0 <= i < j < |events| ==> events[i].sequence != events[j].sequence
  }

  /** The wall clock never ran backwards from one event to a later one. */
  predicate ClockNeverBack(events: seq<TimelineEvent>) {
    forall e, f :: e in events && f in events && e.sequence < f.sequence ==> AtMost(e.timestamp, f.timestamp)
  }

  predicate InSequenceOrder(events: seq<TimelineEvent>) {
    forall i, j :: 0 <= i < j < |events| ==> events[i].sequence < events[j].sequence
  }

  lemma SortedMembers(events: seq<TimelineEvent>)
    ensures forall e :: e in StableSort(events) <==> e in events
  {
    forall e ensures e in StableSort(events) <==> e in events {
      assert e in multiset(StableSort(events)) <==> e in multiset(events);
    }
  }

  lemma {:induction false} DistinctInAnyOrder(events: seq<TimelineEvent>)
    requires DistinctSequences(events)
    ensures DistinctSequences(StableSort(events))
  {
    var sorted := StableSort(events);
    forall i, j | 0 <= i < j < |sorted| ensures sorted[i].sequence != sorted[j].sequence {
      if sorted[i].sequence == sorted[j].sequence {
        SortedMembers(events);
        assert sorted[i] in events && sorted[j] in events;
        var m :| 0 <= m < |events| && events[m] == sorted[i];
        var n :| 0 <= n < |events| && events[n] == sorted[j];
        assert m == n;
        TwiceInMultiset(sorted, i, j);
        OnceInMultiset(events, m);
      }
    }
  }

  lemma TwiceInMultiset(events: seq<TimelineEvent>, i: nat, j: nat)
    requires i < j < |events| && events[i] == events[j]
    ensures multiset(events)[events[i]] >= 2
  {
    assert events == events[..j] + [events[j]] + events[j + 1..];
    assert events[..j][i] == events[i];
    assert events[i] in multiset(events[..j]);
  }

  lemma OnceInMultiset(events: seq<TimelineEvent>, m: nat)
    requires m < |events| && DistinctSequences(events)
    ensures multiset(events)[events[m]] <= 1
  {
    var before, after := events[..m], events[m + 1..];
    assert events == before + [events[m]] + after;
    assert events[m] !in before && events[m] !in after;
  }

  lemma SortedIsInSequenceOrder(found: seq<TimelineEvent>, sorted: seq<TimelineEvent>)
    requires ClockNeverBack(found) && Sorted(sorted) && DistinctSequences(sorted)
    requires forall e :: e in sorted <==> e in found
    ensures InSequenceOrder(sorted)
  {
    hide Less;
    forall i, j | 0 <= i < j < |sorted| ensures sorted[i].sequence < sorted[j].sequence {
      assert sorted[i] in found && sorted[j] in found && !Sooner(sorted[j], sorted[i]);
      Trichotomy(sorted[i].timestamp, sorted[j].timestamp);
    }
  }

  lemma SequenceOrderIsClockOrder(found: seq<TimelineEvent>, sorted: seq<TimelineEvent>)
    requires InSequenceOrder(sorted) && Sorted(sorted)
    requires forall e :: e in sorted <==> e in found
    ensures ClockNeverBack(found)
  {
    hide Less;
    forall e, f | e in found && f in found && e.sequence < f.sequence ensures AtMost(e.timestamp, f.timestamp) {
      var i :| 0 <= i < |sorted| && sorted[i] == e;
      var j :| 0 <= j < |sorted| && sorted[j] == f;
      assert i < j && !Sooner(f, e);
      Trichotomy(e.timestamp, f.timestamp);
    }
  }

  /**
   Whatever the shards, the timeline of a trace is in sequence order exactly when the wall clock
   never ran backwards between its events.
   */
  lemma TimelineIsInSequenceOrder(found: seq<TimelineEvent>)
    requires DistinctSequences(found)
    ensures InSequenceOrder(StableSort(found)) <==> ClockNeverBack(found)
  {
    hide Sooner, StableSort, Sorted, InSequenceOrder, ClockNeverBack, DistinctSequences, Peers;
    StableSortIsStable(found);
    SortedMembers(found);
    DistinctInAnyOrder(found);
    if ClockNeverBack(found) {
      SortedIsInSequenceOrder(found, StableSort(found));
    }
    if InSequenceOrder(StableSort(found)) {
      SequenceOrderIsClockOrder(found, StableSort(found));
    }
  }

  lemma HeadIsLeast(events: seq<TimelineEvent>)
    requires InSequenceOrder(events)
    ensures events == [] || events[0] in events
    ensures events != [] ==> forall e :: e in events ==> e == events[0] || events[0].sequence < e.sequence
    ensures events != [] ==> forall e :: e in events[1..] <==> e in events && e != events[0]
  {
  }

  /** In sequence order, a timeline depends only on which events were found, not on the shards they were in. */
  lemma {:induction false} SequenceOrderIsUnique(a: seq<TimelineEvent>, b: seq<TimelineEvent>)
    requires InSequenceOrder(a) && InSequenceOrder(b) && forall e :: e in a <==> e in b
    ensures a == b
  {
    HeadIsLeast(a);
    HeadIsLeast(b);
    if a != [] {
      assert b != [] && a[0] == b[0];
      SequenceOrderIsUnique(a[1..], b[1..]);
      assert a == [a[0]] + a[1..] && b == [b[0]] + b[1..];
    }
  }

  // Nothing is missed

  lemma {:induction false} TokenIsFound(tokens: seq<string>, k: nat, traceId: string, parse: Parser)
    requires k < |tokens| && Contains(tokens[k], traceId)
    requires parse(tokens[k]).Some? && parse(tokens[k]).value.traceId == traceId
    ensures parse(tokens[k]).value in FoundIn(tokens, traceId, parse)
  {
    hide Contains;
    if k < |tokens| - 1 {
      TokenIsFound(tokens[..|tokens| - 1], k, traceId, parse);
    }
  }

  lemma {:induction false} TokensOfFilesAreTokens(files: seq<LogFile>, f: nat, token: string)
    requires f < |files| && token in TokensOf(files[f])
    ensures token in AllTokens(files)
  {
    if f < |files| - 1 {
      TokensOfFilesAreTokens(files[..|files| - 1], f, token);
    }
  }

  /** A record of the trace in any readable shard, with no line before it that is too long, is in the timeline. */
  lemma RecordIsInTimeline(files: seq<LogFile>, f: nat, k: nat, traceId: string, parse: Parser)
    requires f < |files| && files[f].Readable? && k < |Lines(files[f].content)|
    requires forall i :: 0 <= i <= k ==> !TooLong(Lines(files[f].content)[i])
    requires var token := Token(Lines(files[f].content)[k]);
             Contains(token, traceId) && parse(token).Some? && parse(token).value.traceId == traceId
    ensures parse(Token(Lines(files[f].content)[k])).value in StableSort(Collected(files, traceId, parse))
  {
    hide Lines, Token, TooLong, Contains, StableSort;
    var lines := Lines(files[f].content);
    ScannedLines(lines, k);
    TokensOfFilesAreTokens(files, f, Token(lines[k]));
    var n :| 0 <= n < |AllTokens(files)| && AllTokens(files)[n] == Token(lines[k]);
    TokenIsFound(AllTokens(files), n, traceId, parse);
    SortedMembers(Collected(files, traceId, parse));
  }

  /** Without the substring test: every line that decodes to an event of the trace. */
  function Decoded(tokens: seq<string>, traceId: string, parse: Parser): seq<TimelineEvent> {
    if tokens == [] then []
    else
      var last := parse(tokens[|tokens| - 1]);
      Decoded(tokens[..|tokens| - 1], traceId, parse)
      + if last.Some? && last.value.traceId == traceId then [last.value] else []
  }

  /** The substring test loses nothing exactly if each line of the trace spells the ID as it is. */
  lemma {:induction false} PrefilterLosesNothing(tokens: seq<string>, traceId: string, parse: Parser)
    ensures FoundIn(tokens, traceId, parse) == Decoded(tokens, traceId, parse)
            <==> forall token :: token in tokens && parse(token).Some? && parse(token).value.traceId == traceId
                                 ==> Contains(token, traceId)
    ensures |FoundIn(tokens, traceId, parse)| <= |Decoded(tokens, traceId, parse)|
  {
    hide Contains;
    if tokens != [] {
      var front, last := tokens[..|tokens| - 1], tokens[|tokens| - 1];
      PrefilterLosesNothing(front, traceId, parse);
      assert forall token :: token in tokens <==> token in front || token == last;
      var found, decoded := FoundIn(front, traceId, parse), Decoded(front, traceId, parse);
      if FoundIn(tokens, traceId, parse) == Decoded(tokens, traceId, parse) {
        assert |Found(last, traceId, parse)| == |Decoded(tokens, traceId, parse)| - |decoded|;
        assert found == FoundIn(tokens, traceId, parse)[..|found|] && decoded == Decoded(tokens, traceId, parse)[..|decoded|];
      }
    }
  }

  /** Where a token of all files comes from. */
  lemma {:induction false} TokenPosition(files: seq<LogFile>, j: nat) returns (f: nat, k: nat)
    requires j < |AllTokens(files)|
    ensures f < |files| && k < |TokensOf(files[f])| && AllTokens(files)[j] == TokensOf(files[f])[k]
    ensures j == |AllTokens(files[..f])| + k
  {
    var last := |files| - 1;
    if j < |AllTokens(files[..last])| {
      f, k := TokenPosition(files[..last], j);
      assert files[..last][..f] == files[..f];
    } else {
      f, k := last, j - |AllTokens(files[..last])|;
    }
  }

  predicate DecodesTo(parse: Parser, token: string, traceId: string) {
    parse(token).Some? && parse(token).value.traceId == traceId
  }

  lemma {:induction false} FoundComesFromToken(tokens: seq<string>, traceId: string, parse: Parser, e: TimelineEvent)
    returns (k: nat)
    requires e in FoundIn(tokens, traceId, parse)
    ensures k < |tokens| && DecodesTo(parse, tokens[k], traceId) && parse(tokens[k]).value == e
  {
    hide Contains;
    var last := |tokens| - 1;
    if e in FoundIn(tokens[..last], traceId, parse) {
      k := FoundComesFromToken(tokens[..last], traceId, parse, e);
    } else {
      k := last;
    }
  }

  /** If different lines of the trace carry different numbers, so do the events that are found. */
  lemma {:induction false} FoundAreDistinct(tokens: seq<string>, traceId: string, parse: Parser)
    requires forall j, k ::
               0 <= j < k < |tokens| && DecodesTo(parse, tokens[j], traceId) && DecodesTo(parse, tokens[k], traceId) ==>
                 parse(tokens[j]).value.sequence != parse(tokens[k]).value.sequence
    ensures DistinctSequences(FoundIn(tokens, traceId, parse))
  {
    hide Contains;
    if tokens != [] {
      var last := |tokens| - 1;
      FoundAreDistinct(tokens[..last], traceId, parse);
      var found := FoundIn(tokens[..last], traceId, parse);
      forall i | 0 <= i < |found| && DecodesTo(parse, tokens[last], traceId)
        ensures found[i].sequence != parse(tokens[last]).value.sequence
      {
        var k := FoundComesFromToken(tokens[..last], traceId, parse, found[i]);
        assert tokens[k] == tokens[..last][k];
      }
    }
  }

  /** No line up to this one is too long. */
  predicate Scannable(lines: seq<string>, k: nat) {
    k < |lines| && forall i :: 0 <= i <= k ==> !TooLong(lines[i])
  }

  lemma ScannableFromFront(lines: seq<string>, k: nat)
    requires lines != [] && k > 0
    ensures Scannable(lines, k) <==> !TooLong(lines[0]) && Scannable(lines[1..], k - 1)
  {
    hide TooLong;
    if !TooLong(lines[0]) && Scannable(lines[1..], k - 1) {
      forall i | 0 <= i <= k ensures !TooLong(lines[i]) {
        if i > 0 { assert lines[1..][i - 1] == lines[i]; }
      }
    }
  }

  /** What the scanner yields are the lines up to the first that is too long, one token each. */
  lemma {:induction false} ScannedLines(lines: seq<string>, k: nat)
    ensures k < |Scan(lines).0| <==> Scannable(lines, k)
    ensures k < |Scan(lines).0| ==> k < |lines| && Scan(lines).0[k] == Token(lines[k])
  {
    hide TooLong, Token;
    if lines != [] && k > 0 {
      ScannedLines(lines[1..], k - 1);
      ScannableFromFront(lines, k);
    }
  }

  // Trace IDs

  /** The alphabet of `traceIDPattern`. */
  predicate InAlphabet(c: char) {
    'A' <= c <= 'Z' || 'a' <= c <= 'z' || '0' <= c <= '9' || c == '.' || c == '_' || c == ':' || c == '-'
  }

  predicate IsTraceId(s: string) {
    8 <= |s| <= 128 && forall i :: 0 <= i < |s| ==> InAlphabet(s[i])
  }

  /** The pattern by code points: letters, digits, and the four of "-.:_". */
  lemma TraceIdsExactly(s: string)
    ensures IsTraceId(s) <==> 8 <= |s| <= 128 && forall i :: 0 <= i < |s| ==>
              || 65 <= s[i] as int <= 90 || 97 <= s[i] as int <= 122 || 48 <= s[i] as int <= 57
              || s[i] as int == 45 || s[i] as int == 46 || s[i] as int == 58 || s[i] as int == 95
  {
  }

  const HEX := "0123456789abcdef"

  /** One ASCII character of a JSON string, as Go's encoder writes it without HTML escaping: section 7 of RFC 8259. */
  function Escaped(c: char): string
    requires c as int < 0x80
  {
    if c == '"' then "\\\""
    else if c == '\\' then "\\\\"
    else if c as int == 8 then "\\b"
    else if c as int == 12 then "\\f"
    else if c == '\n' then "\\n"
    else if c == '\r' then "\\r"
    else if c == '\t' then "\\t"
    else if c as int < 0x20 then "\\u00" + [HEX[c as int / 16], HEX[c as int % 16]]
    else [c]
  }

  function Quoted(s: string): string
    requires forall i :: 0 <= i < |s| ==> s[i] as int < 0x80
  {
    if s == "" then "" else Escaped(s[0]) + Quoted(s[1..])
  }

  /** What a JSON string stands for: section 7 of RFC 8259, as far as ASCII goes. */
  function Unquoted(s: string): Option<string> {
    if s == "" then Some("")
    else if s[0] == '"' || s[0] as int < 0x20 then None
    else if s[0] != '\\' then Prepended(s[0], Unquoted(s[1..]))
    else if |s| < 2 then None
    else if s[1] == 'u' then
      if |s| < 6 || s[2..4] != "00" || !(s[4] in HEX) || !(s[5] in HEX) then None
      else Prepended((16 * HexDigit(s[4]) + HexDigit(s[5])) as char, Unquoted(s[6..]))
    else
      match s[1]
      case '"' => Prepended('"', Unquoted(s[2..]))
      case '\\' => Prepended('\\', Unquoted(s[2..]))
      case 'b' => Prepended(8 as char, Unquoted(s[2..]))
      case 'f' => Prepended(12 as char, Unquoted(s[2..]))
      case 'n' => Prepended('\n', Unquoted(s[2..]))
      case 'r' => Prepended('\r', Unquoted(s[2..]))
      case 't' => Prepended('\t', Unquoted(s[2..]))
      case _ => None
  }

  function Prepended(c: char, rest: Option<string>): Option<string> {
    if rest.None? then None else Some([c] + rest.value)
  }

  function HexDigit(c: char): (n: nat)
    ensures n < 16
  {
    if '0' <= c <= '9' then c as int - '0' as int else if 'a' <= c <= 'f' then c as int - 'a' as int + 10 else 0
  }

  /** A quoted string stands for what was quoted. */
  lemma {:induction false} QuotingRoundTrips(s: string)
    requires forall i :: 0 <= i < |s| ==> s[i] as int < 0x80
    ensures Unquoted(Quoted(s)) == Some(s)
  {
    if s != "" {
      QuotingRoundTrips(s[1..]);
      EscapeIsUnquoted(s[0], Quoted(s[1..]));
      assert s == [s[0]] + s[1..];
    }
  }

  lemma EscapeIsUnquoted(c: char, rest: string)
    requires c as int < 0x80
    ensures Unquoted(Escaped(c) + rest) == Prepended(c, Unquoted(rest))
  {
    if !NeedsEscape(c) {
      assert ([c] + rest)[1..] == rest;
    } else if |Escaped(c)| == 2 {
      ShortEscapeIsUnquoted(c, rest);
    } else {
      LongEscapeIsUnquoted(c, rest);
    }
  }

  lemma ShortEscapeIsUnquoted(c: char, rest: string)
    requires c as int < 0x80 && |Escaped(c)| == 2
    ensures Unquoted(Escaped(c) + rest) == Prepended(c, Unquoted(rest))
  {
    var s := Escaped(c) + rest;
    assert s[2..] == rest && s[0] == Escaped(c)[0] && s[1] == Escaped(c)[1];
  }

  lemma LongEscapeIsUnquoted(c: char, rest: string)
    requires c as int < 0x20 && |Escaped(c)| == 6
    ensures Unquoted(Escaped(c) + rest) == Prepended(c, Unquoted(rest))
  {
    hide Prepended, Unquoted;
    HexDigits(c as int / 16);
    HexDigits(c as int % 16);
    CodeIsUnquoted(HEX[c as int / 16], HEX[c as int % 16], rest);
  }

  lemma CodeIsUnquoted(h: char, l: char, rest: string)
    requires h in HEX && l in HEX
    ensures Unquoted("\\u00" + [h, l] + rest) == Prepended((16 * HexDigit(h) + HexDigit(l)) as char, Unquoted(rest))
  {
    hide Prepended, HEX, HexDigit;
    var s := "\\u00" + [h, l] + rest;
    assert s[0] == '\\' && s[1] == 'u' && s[2..4] == "00" && s[4] == h && s[5] == l && s[6..] == rest;
  }

  lemma HexDigits(n: nat)
    requires n < 16
    ensures HEX[n] in HEX && HexDigit(HEX[n]) == n
  {
  }

  predicate NeedsEscape(c: char) {
    c == '"' || c == '\\' || (c as int) < 0x20
  }

  /** Quoting leaves exactly those strings alone in which no character needs an escape; trace IDs are among them. */
  lemma {:induction false} QuotingLeavesTraceIdsAlone(s: string)
    requires forall i :: 0 <= i < |s| ==> s[i] as int < 0x80
    ensures |Quoted(s)| >= |s|
    ensures Quoted(s) == s <==> forall i :: 0 <= i < |s| ==> !NeedsEscape(s[i])
    ensures IsTraceId(s) ==> Quoted(s) == s
  {
    if s != "" {
      QuotingLeavesTraceIdsAlone(s[1..]);
      assert s == [s[0]] + s[1..];
      assert NeedsEscape(s[0]) ==> |Escaped(s[0])| > 1;
      if forall i :: 0 <= i < |s| ==> !NeedsEscape(s[i]) {
        assert forall i :: 0 <= i < |s[1..]| ==> s[1..][i] == s[i + 1];
      }
    }
  }

  /** So a record that quotes the ID of its trace somewhere passes the substring test. */
  lemma QuotedIdIsContained(before: string, traceId: string, after: string)
    requires IsTraceId(traceId)
    ensures Contains(before + Quoted(traceId) + after, traceId)
  {
    QuotingLeavesTraceIdsAlone(traceId);
    var line := before + Quoted(traceId) + after;
    assert line[|before|..] == traceId + after;
  }

  // Printing

  /** Event `n` is the last one before `i` that has an elapsed time. */
  predicate IsLatest(events: seq<TimelineEvent>, n: int, i: nat) {
    && 0 <= n < i <= |events| && events[n].elapsed.Some?
    && forall j :: n < j < i ==> events[j].elapsed.None?
  }

  predicate NoneTimed(events: seq<TimelineEvent>, i: nat) {
    i <= |events| && forall j :: 0 <= j < i ==> events[j].elapsed.None?
  }

  /** What is printed behind event `i`: the time since the latest event that has one, never negative. */
  ghost predicate IsDelta(events: seq<TimelineEvent>, i: nat, delta: Option<real>)
    requires i < |events|
  {
    && (delta.Some? <==> events[i].elapsed.Some? && !NoneTimed(events, i))
    && forall n :: IsLatest(events, n, i) && events[i].elapsed.Some? ==>
         var step := events[i].elapsed.value - events[n].elapsed.value;
         delta == Some(if step < 0.0 then 0.0 else step)
  }

  /** The elapsed times of the events that have one. */
  function Times(events: seq<TimelineEvent>): seq<real> {
    if events == [] then []
    else Times(events[..|events| - 1])
         + if events[|events| - 1].elapsed.Some? then [events[|events| - 1].elapsed.value] else []
  }

  lemma LatestOneMore(events: seq<TimelineEvent>, i: nat, next: nat)
    requires i < |events| && next == i + 1
    ensures NoneTimed(events, next) <==> NoneTimed(events, i) && events[i].elapsed.None?
    ensures events[i].elapsed.None? ==> forall n :: IsLatest(events, n, next) ==> IsLatest(events, n, i)
    ensures events[i].elapsed.Some? ==> forall n :: IsLatest(events, n, next) ==> n == i
  {
  }

  lemma TimesOneMore(events: seq<TimelineEvent>, i: nat)
    requires i < |events|
    ensures Times(events[..i + 1]) == Times(events[..i]) + if events[i].elapsed.Some? then [events[i].elapsed.value] else []
  {
    assert events[..i + 1][..i] == events[..i];
  }

  lemma {:induction false} NoneTimedMeansNoTimes(events: seq<TimelineEvent>, i: nat)
    requires i <= |events|
    ensures Times(events[..i]) == [] <==> NoneTimed(events, i)
  {
    if i == 0 {
      assert events[..0] == [];
    } else {
      hide IsLatest, NoneTimed, Times;
      NoneTimedMeansNoTimes(events, i - 1);
      LatestOneMore(events, i - 1, i);
      TimesOneMore(events, i - 1);
    }
  }

  /** The latest event before `i` that has a time has the last one. */
  lemma {:induction false} LatestIsTheLast(events: seq<TimelineEvent>, n: nat, i: nat)
    requires IsLatest(events, n, i)
    ensures var times := Times(events[..i]); times != [] && times[|times| - 1] == events[n].elapsed.value
  {
    hide Times;
    TimesOneMore(events, i - 1);
    if n < i - 1 { LatestIsTheLast(events, n, i - 1); }
  }

  lemma LatestAreTheLast(events: seq<TimelineEvent>, i: nat)
    requires i <= |events|
    ensures Times(events[..i]) == [] <==> NoneTimed(events, i)
    ensures forall n :: IsLatest(events, n, i) ==>
              n < |events| && events[n].elapsed.Some? && Latest(Times(events[..i])) == events[n].elapsed
  {
    hide Times, NoneTimed;
    NoneTimedMeansNoTimes(events, i);
    forall n | IsLatest(events, n, i) ensures Latest(Times(events[..i])) == events[n].elapsed {
      LatestIsTheLast(events, n, i);
    }
  }

  function Delta(before: seq<real>, e: TimelineEvent): Option<real> {
    if e.elapsed.None? || before == [] then None
    else
      var value := e.elapsed.value - before[|before| - 1];
      Some(if value < 0.0 then 0.0 else value)
  }

  /** The loop of `printTimeline`, without the text around the numbers. */
  method PrintTimeline(events: seq<TimelineEvent>) returns (deltas: seq<Option<real>>, total: real)
    ensures |deltas| == |events|
    ensures forall i :: 0 <= i < |events| ==> IsDelta(events, i, deltas[i])
    ensures forall n :: IsLatest(events, n, |events|) ==> total == events[n].elapsed.value
    ensures NoneTimed(events, |events|) ==> total == 0.0
    ensures Sum(deltas) == Climb(Times(events))
  {
    hide Times, Sum, Climb, IsLatest, NoneTimed;
    var previous: Option<real> := None;
    var last := 0.0;
    deltas := [];
    NoTimes();
    for i := 0 to |events|
      invariant |deltas| == i
      invariant forall k :: 0 <= k < i ==> IsDelta(events, k, deltas[k])
      invariant previous == Latest(Times(events[..i])) && last == if previous.None? then 0.0 else previous.value
      invariant Sum(deltas) == Climb(Times(events[..i]))
    {
      LatestAreTheLast(events, i);
      var event := events[i];
      var delta: Option<real> := None;
      if event.elapsed.Some? {
        last := event.elapsed.value;
        if previous.Some? {
          var value := event.elapsed.value - previous.value;
          if value < 0.0 {
            value := 0.0;
          }
          delta := Some(value);
        }
        previous := Some(event.elapsed.value);
      }
      OneMoreTime(events, i);
      SumGrows(deltas, delta);
      deltas := deltas + [delta];
    }
    LatestAreTheLast(events, |events|);
    assert events[..|events|] == events;
    return deltas, last;
  }

  function Latest(times: seq<real>): Option<real> {
    if times == [] then None else Some(times[|times| - 1])
  }

  lemma NoTimes()
    ensures Times([]) == [] && Sum([]) == 0.0 && Climb([]) == 0.0
  {
  }

  lemma OneMoreTime(events: seq<TimelineEvent>, i: nat)
    requires i < |events|
    ensures var times, e := Times(events[..i]), events[i];
            && Times(events[..i + 1]) == times + (if e.elapsed.Some? then [e.elapsed.value] else [])
            && Climb(Times(events[..i + 1]))
               == Climb(times) + if Delta(times, e).Some? then Delta(times, e).value else 0.0
  {
    var times, e := Times(events[..i]), events[i];
    assert times + [] == times;
    assert events[..i + 1][..i] == events[..i];
    if e.elapsed.Some? {
      var more := times + [e.elapsed.value];
      assert more[..|times|] == times;
    }
  }

  lemma SumGrows(deltas: seq<Option<real>>, delta: Option<real>)
    ensures Sum(deltas + [delta]) == Sum(deltas) + if delta.Some? then delta.value else 0.0
  {
    assert (deltas + [delta])[..|deltas|] == deltas;
  }

  function Sum(deltas: seq<Option<real>>): real {
    if deltas == [] then 0.0
    else
      var last := deltas[|deltas| - 1];
      Sum(deltas[..|deltas| - 1]) + if last.Some? then last.value else 0.0
  }

  /** The sum of the steps upwards. */
  function Climb(times: seq<real>): (climb: real)
    ensures climb >= 0.0
  {
    if |times| < 2 then 0.0
    else
      var step := times[|times| - 1] - times[|times| - 2];
      Climb(times[..|times| - 1]) + if step < 0.0 then 0.0 else step
  }

  predicate NeverBack(times: seq<real>) {
    forall i :: 0 < i < |times| ==> times[i - 1] <= times[i]
  }

  /** The printed deltas add up to last minus first exactly if the elapsed times never run backwards. */
  lemma {:induction false} DeltasAddUp(times: seq<real>)
    requires times != []
    ensures Climb(times) >= times[|times| - 1] - times[0]
    ensures Climb(times) == times[|times| - 1] - times[0] <==> NeverBack(times)
  {
    if |times| > 1 {
      var front := times[..|times| - 1];
      DeltasAddUp(front);
      assert NeverBack(times) <==> NeverBack(front) && front[|front| - 1] <= times[|times| - 1];
    }
  }
}
