/** Log shards as files of lines: what a record leaves behind when its append succeeds, fails or is cut short. */
module Shards {

  /** One event on its way to disk. A ticket numbers the attempts of one writer. */
  datatype Record = Record(writer: nat, ticket: nat, day: int, line: string)

  /** One encoded record: a newline at the end and nowhere else. */
  predicate IsLine(line: string) {
    && line != ""
    && line[|line| - 1] == '\n'
    && forall i :: 0 <= i < |line| - 1 ==> line[i] != '\n'
  }

  /**
   What one append left in a shard: the whole record; a fragment closed with a newline; or a
   fragment with nothing after it, because the writer died or its repair failed.
   */
  datatype Segment =
    | Whole(record: Record)
    | Closed(record: Record, kept: nat)
    | Dangling(record: Record, kept: nat)

  predicate SegmentOk(segment: Segment) {
    && IsLine(segment.record.line)
    && (!segment.Whole? ==> 0 < segment.kept < |segment.record.line|)
  }

  function Written(segment: Segment): string
    requires SegmentOk(segment)
  {
    match segment
    case Whole(record) => record.line
    case Closed(record, kept) => record.line[..kept] + "\n"
    case Dangling(record, kept) => record.line[..kept]
  }

  predicate SegmentsOk(segments: seq<Segment>) {
    forall i :: 0 <= i < |segments| ==> SegmentOk(segments[i])
  }

  function Content(segments: seq<Segment>): string
    requires SegmentsOk(segments)
  {
    if segments == [] then ""
    else Content(segments[..|segments| - 1]) + Written(segments[|segments| - 1])
  }

  lemma ContentGrows(segments: seq<Segment>, segment: Segment)
    requires SegmentsOk(segments) && SegmentOk(segment)
    ensures SegmentsOk(segments + [segment])
    ensures Content(segments + [segment]) == Content(segments) + Written(segment)
  {
    assert (segments + [segment])[..|segments|] == segments;
  }

  lemma {:induction false} ContentIsEmptyOnlyWithoutSegments(segments: seq<Segment>)
    requires SegmentsOk(segments)
    ensures |segments| <= |Content(segments)|
  {
    if segments != [] { ContentIsEmptyOnlyWithoutSegments(segments[..|segments| - 1]); }
  }

  // Reading a shard back

  /** The index just behind the first newline, or the end. */
  function LineEnd(text: string): (end: nat)
    ensures end <= |text|
    ensures text != "" ==> end > 0
    ensures forall i :: 0 <= i < end - 1 ==> text[i] != '\n'
    ensures end == |text| || text[end - 1] == '\n'
  {
    if text == "" then 0
    else if text[0] == '\n' then 1
    else 1 + LineEnd(text[1..])
  }

  /** The lines of a text, with their newlines; the last one may lack it. */
  function Lines(text: string): seq<string> {
    if text == "" then [] else [text[..LineEnd(text)]] + Lines(text[LineEnd(text)..])
  }

  /** The lines that a shard shows: a dangling fragment runs into whatever follows it. */
  function ShardLines(segments: seq<Segment>): seq<string>
    requires SegmentsOk(segments)
  {
    if segments == [] then []
    else if segments[0].Dangling? then
      var rest := ShardLines(segments[1..]);
      if rest == [] then [Written(segments[0])] else [Written(segments[0]) + rest[0]] + rest[1..]
    else [Written(segments[0])] + ShardLines(segments[1..])
  }

  lemma {:induction false} ContentFromFront(segments: seq<Segment>)
    requires SegmentsOk(segments) && segments != []
    ensures Content(segments) == Written(segments[0]) + Content(segments[1..])
  {
    hide Written, SegmentOk;
    if |segments| > 1 {
      var front, rest, last := segments[..|segments| - 1], segments[1..], segments[|segments| - 1];
      ContentFromFront(front);
      assert front[1..] == rest[..|rest| - 1] && rest[|rest| - 1] == last;
      assert Content(segments) == Content(front) + Written(last);
      assert Content(rest) == Content(front[1..]) + Written(last);
    } else {
      assert Content(segments[1..]) == "" && Content(segments[..0]) == "";
    }
  }

  lemma {:induction false} LineAtFront(line: string, rest: string)
    requires IsLine(line)
    ensures Lines(line + rest) == [line] + Lines(rest)
  {
    FirstNewline(line, rest);
    assert (line + rest)[..|line|] == line && (line + rest)[|line|..] == rest;
  }

  lemma {:induction false} FirstNewline(line: string, rest: string)
    requires IsLine(line)
    ensures LineEnd(line + rest) == |line|
  {
    if |line| > 1 {
      assert (line + rest)[1..] == line[1..] + rest;
      FirstNewline(line[1..], rest);
    }
  }

  lemma {:induction false} FragmentAtFront(fragment: string, rest: string)
    requires fragment != "" && forall i :: 0 <= i < |fragment| ==> fragment[i] != '\n'
    ensures Lines(fragment + rest) ==
            if rest == "" then [fragment] else [fragment + Lines(rest)[0]] + Lines(rest)[1..]
  {
    hide LineEnd;
    FragmentEnd(fragment, rest);
    if rest == "" {
      assert fragment + rest == fragment;
      assert fragment[..|fragment|] == fragment;
    } else {
      SplitBehind(fragment, rest, LineEnd(rest));
    }
  }

  lemma SplitBehind(s: string, t: string, k: nat)
    requires k <= |t|
    ensures (s + t)[..|s| + k] == s + t[..k]
    ensures (s + t)[|s| + k..] == t[k..]
  {
  }

  lemma {:induction false} FragmentEnd(fragment: string, rest: string)
    requires forall i :: 0 <= i < |fragment| ==> fragment[i] != '\n'
    ensures LineEnd(fragment + rest) == |fragment| + LineEnd(rest)
  {
    if fragment == "" {
      assert fragment + rest == rest;
    } else {
      assert (fragment + rest)[1..] == fragment[1..] + rest;
      FragmentEnd(fragment[1..], rest);
    }
  }

  /** Splitting the bytes of a shard at its newlines gives its segments back, line by line. */
  lemma {:induction false} LinesOfContent(segments: seq<Segment>)
    requires SegmentsOk(segments)
    ensures Lines(Content(segments)) == ShardLines(segments)
  {
    if segments != [] {
      var first := segments[0];
      ContentFromFront(segments);
      LinesOfContent(segments[1..]);
      if first.Dangling? {
        FragmentAtFront(Written(first), Content(segments[1..]));
      } else {
        LineAtFront(Written(first), Content(segments[1..]));
      }
    }
  }

  /** Without dangling fragments, line `i` is what segment `i` wrote. */
  lemma {:induction false} CleanShardLines(segments: seq<Segment>)
    requires SegmentsOk(segments)
    requires forall i :: 0 <= i < |segments| ==> !segments[i].Dangling?
    ensures |ShardLines(segments)| == |segments|
    ensures forall i :: 0 <= i < |segments| ==> ShardLines(segments)[i] == Written(segments[i])
  {
    if segments != [] { CleanShardLines(segments[1..]); }
  }

  // Which line a segment is in

  /** The line that segment `i` is in: a dangling fragment does not end one. */
  function LineAt(segments: seq<Segment>, i: nat): nat
    requires i <= |segments|
  {
    if i == 0 then 0 else LineAt(segments[1..], i - 1) + if segments[0].Dangling? then 0 else 1
  }

  lemma {:induction false} LineAtInFront(segments: seq<Segment>, more: seq<Segment>, i: nat)
    requires i <= |segments|
    ensures LineAt(segments + more, i) == LineAt(segments, i)
  {
    if i > 0 {
      assert (segments + more)[1..] == segments[1..] + more;
      LineAtInFront(segments[1..], more, i - 1);
    }
  }

  /** Right behind a dangling fragment, a segment shares the fragment's line. */
  predicate BehindFragment(segments: seq<Segment>, i: nat) {
    0 < i <= |segments| && segments[i - 1].Dangling?
  }

  /** A first segment without newline goes in front of the next line; any other is a line of its own. */
  lemma LinesFromFront(segments: seq<Segment>)
    requires SegmentsOk(segments) && segments != []
    ensures var first, lines, rest := Written(segments[0]), ShardLines(segments), ShardLines(segments[1..]);
            && lines != [] && (segments[0].Dangling? ==> first != "")
            && (if segments[0].Dangling? && rest != []
                then |lines| == |rest| && lines[0] == first + rest[0] && lines[1..] == rest[1..]
                else lines == [first] + rest)
            && (rest == [] <==> |segments| == 1)
  {
  }

  /**
   A segment that ends a line, the last one in any case, is the end of that line, and all of it
   exactly if no fragment is in front.
   */
  lemma {:induction false} SegmentEndsItsLine(segments: seq<Segment>, i: nat) returns (before: string)
    requires SegmentsOk(segments) && i < |segments| && (!segments[i].Dangling? || i == |segments| - 1)
    ensures LineAt(segments, i) < |ShardLines(segments)|
    ensures ShardLines(segments)[LineAt(segments, i)] == before + Written(segments[i])
    ensures before == "" <==> !BehindFragment(segments, i)
  {
    hide Written, ShardLines;
    LinesFromFront(segments);
    if i == 0 {
      before := "";
    } else {
      before := SegmentEndsItsLine(segments[1..], i - 1);
      assert BehindFragment(segments[1..], i - 1) ==> BehindFragment(segments, i);
      if segments[0].Dangling? && LineAt(segments, i) == 0 {
        OnlyFragmentsInTheFirstLine(segments, i);
        before := Written(segments[0]) + before;
      }
    }
  }

  lemma {:induction false} OnlyFragmentsInTheFirstLine(segments: seq<Segment>, i: nat)
    requires 0 < i <= |segments| && LineAt(segments, i) == 0
    ensures BehindFragment(segments, i)
  {
    if i > 1 { OnlyFragmentsInTheFirstLine(segments[1..], i - 1); }
  }

  // Damage

  function DanglingCount(segments: seq<Segment>): nat {
    if segments == [] then 0
    else DanglingCount(segments[1..]) + if segments[0].Dangling? then 1 else 0
  }

  /** The whole records right behind a dangling fragment: they share its line and cannot be read. */
  function SpoiledCount(segments: seq<Segment>): nat {
    if |segments| < 2 then 0
    else SpoiledCount(segments[1..]) + if segments[0].Dangling? && segments[1].Whole? then 1 else 0
  }

  function WholeCount(segments: seq<Segment>): nat {
    if segments == [] then 0
    else WholeCount(segments[1..]) + if segments[0].Whole? then 1 else 0
  }

  /** The whole records that a reader finds as lines of their own, in order. */
  function Readable(segments: seq<Segment>): seq<Record> {
    if segments == [] then []
    else if segments[0].Whole? then [segments[0].record] + Readable(segments[1..])
    else if segments[0].Dangling? && |segments| > 1 then
      if segments[1].Dangling? then Readable(segments[1..]) else Readable(segments[2..])
    else Readable(segments[1..])
  }

  /** `part` can be obtained from `all` by leaving lines out. */
  predicate Subsequence(part: seq<string>, all: seq<string>) {
    if part == [] then true
    else if all == [] then false
    else if part[0] == all[0] && Subsequence(part[1..], all[1..]) then true
    else Subsequence(part, all[1..])
  }

  function LinesOf(records: seq<Record>): seq<string> {
    seq(|records|, i requires 0 <= i < |records| => records[i].line)
  }

  lemma {:induction false} DanglingCountGrows(segments: seq<Segment>, segment: Segment)
    ensures DanglingCount(segments + [segment]) == DanglingCount(segments) + if segment.Dangling? then 1 else 0
  {
    if segments == [] {
      assert [segment][1..] == [];
    } else {
      DanglingCountGrows(segments[1..], segment);
      assert (segments + [segment])[1..] == segments[1..] + [segment];
    }
  }

  lemma {:induction false} NoDanglingIfNoneCounted(segments: seq<Segment>)
    ensures DanglingCount(segments) == 0 <==> forall i :: 0 <= i < |segments| ==> !segments[i].Dangling?
  {
    if segments != [] {
      NoDanglingIfNoneCounted(segments[1..]);
      assert segments == [segments[0]] + segments[1..];
    }
  }

  /** k dangling fragments spoil at most k whole records, and all others are lines of the shard. */
  lemma {:induction false} DanglingSpoilsAtMostOneEach(segments: seq<Segment>)
    requires SegmentsOk(segments)
    ensures SpoiledCount(segments) <= DanglingCount(segments)
    ensures |Readable(segments)| + SpoiledCount(segments) == WholeCount(segments)
    ensures Subsequence(LinesOf(Readable(segments)), ShardLines(segments))
    ensures segments != [] && segments[0].Dangling? ==>
              Subsequence(LinesOf(Readable(segments)), ShardLines(segments)[1..])
    decreases |segments|
  {
    if segments != [] {
      var rest := segments[1..];
      DanglingSpoilsAtMostOneEach(rest);
      if segments[0].Whole? {
        assert LinesOf(Readable(segments))[1..] == LinesOf(Readable(rest));
      } else if segments[0].Dangling? && |segments| > 1 {
        if !segments[1].Dangling? {
          assert rest[1..] == segments[2..];
          DanglingSpoilsAtMostOneEach(rest[1..]);
          assert ShardLines(rest)[1..] == ShardLines(rest[1..]);
        }
        assert ShardLines(segments)[1..] == ShardLines(rest)[1..];
        SubsequenceSkips(LinesOf(Readable(segments)), ShardLines(segments));
      } else {
        assert ShardLines(segments)[1..] == ShardLines(rest);
        SubsequenceSkips(LinesOf(Readable(segments)), ShardLines(segments));
      }
    }
  }

  lemma SubsequenceSkips(part: seq<string>, all: seq<string>)
    requires all != [] && Subsequence(part, all[1..])
    ensures Subsequence(part, all)
  {
  }

  /** A last segment, whatever it is, spoils nothing. */
  lemma {:induction false} LastSpoilsNothing(segments: seq<Segment>, more: seq<Segment>)
    requires |more| <= 1
    ensures SpoiledCount(segments + more) <= DanglingCount(segments)
  {
    if segments != [] {
      assert (segments + more)[1..] == segments[1..] + more;
      LastSpoilsNothing(segments[1..], more);
    }
  }
}
