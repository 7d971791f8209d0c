/** Why a torn line is never read as a record: what follows a fragment cannot complete it. */
module TornLines {
  import opened Shards
  import opened Timelines

  // Scanning JSON

  /**
   Where a scanner is in a text that should be one JSON object: how many brackets are open, and
   whether it is inside a string, behind a backslash, or right behind a string.
   */
  datatype Mode =
    | Start
    | Outside(depth: nat)
    | InString(depth: nat)
    | Escape(depth: nat)
    | BehindString(depth: nat)
    | Done
    | Broken

  predicate IsSpace(c: char) {
    c == ' ' || c == '\t' || c == '\n' || c == '\r'
  }

  function Bracket(depth: nat, c: char): Mode {
    if c == '{' || c == '[' then Outside(depth + 1)
    else if c == '}' || c == ']' then if depth <= 1 then Done else Outside(depth - 1)
    else Outside(depth)
  }

  /**
   A string is followed by a comma, a colon, a closing bracket or space: sections 4 and 5 of RFC 8259.
   Behind the object anything but a second one is let pass, as decoders trim what they call space.
   */
  function Scanned(mode: Mode, c: char): Mode {
    match mode
    case Start => if c == '{' then Outside(1) else Broken
    case Outside(depth) => if c == '"' then InString(depth) else Bracket(depth, c)
    case InString(depth) => if c == '"' then BehindString(depth) else if c == '\\' then Escape(depth) else mode
    case Escape(depth) => InString(depth)
    case BehindString(depth) =>
      if IsSpace(c) then mode
      else if c == ',' || c == ':' || c == '}' || c == ']' then Bracket(depth, c)
      else Broken
    case Done => if c == '{' then Broken else Done
    case Broken => Broken
  }

  function Scanner(mode: Mode, text: string): Mode {
    if text == "" then mode else Scanned(Scanner(mode, text[..|text| - 1]), text[|text| - 1])
  }

  lemma {:induction false} ScannerInParts(mode: Mode, a: string, b: string)
    ensures Scanner(mode, a + b) == Scanner(Scanner(mode, a), b)
  {
    hide Scanned;
    if b == "" {
      assert a + b == a;
    } else {
      ScannerInParts(mode, a, b[..|b| - 1]);
      assert (a + b)[..|a + b| - 1] == a + b[..|b| - 1];
    }
  }

  /** One object and no more, whose first name does not begin like the text behind a string. */
  predicate IsObject(text: string) {
    && |text| >= 3 && text[0] == '{' && text[1] == '"' && Scanned(BehindString(1), text[2]) == Broken
    && Scanner(Start, text) == Done && Scanner(Start, text[..|text| - 1]) != Done
  }

  /** What the encoder writes: an object and a newline. */
  predicate IsObjectLine(line: string) {
    IsLine(line) && IsObject(line[..|line| - 1])
  }

  lemma ScannerStep(mode: Mode, text: string, k: nat)
    requires 0 < k <= |text|
    ensures Scanner(mode, text[..k]) == Scanned(Scanner(mode, text[..k - 1]), text[k - 1])
    ensures Scanner(mode, text[..0]) == mode
  {
    assert text[..k][..k - 1] == text[..k - 1];
  }

  /** Records begin with a timestamp. */
  lemma RecordsAreObjects()
    ensures IsObjectLine("{\"timestamp\":0}\n")
  {
    hide Scanner;
    var text, line := "{\"timestamp\":0}", "{\"timestamp\":0}\n";
    ScannerStep(Start, text, 1);
    for k := 0 to |text| - 1
      invariant Scanner(Start, text[..k])
             == if k == 0 then Start
                else if k == 1 then Outside(1)
                else if k <= 11 then InString(1)
                else if k == 12 then BehindString(1)
                else Outside(1)
    {
      ScannerStep(Start, text, k + 1);
    }
    assert text[..|text|] == text && line[..|line| - 1] == text;
    ScannerStep(Start, text, |text|);
  }

  // Fragments

  /** No closing bracket that comes next could end the text: something is open, or it is broken. */
  predicate IsOpen(mode: Mode) {
    match mode
    case Outside(depth) => depth >= 1
    case InString(depth) => depth >= 1
    case Escape(depth) => depth >= 1
    case BehindString(depth) => depth >= 1
    case Broken => true
    case _ => false
  }

  lemma {:induction false} DoneStaysOrBreaks(mode: Mode, text: string)
    ensures mode.Done? || mode.Broken? ==> Scanner(mode, text).Done? || Scanner(mode, text).Broken?
    ensures mode.Broken? || (mode.Done? && text != "" && text[0] == '{') ==> Scanner(mode, text).Broken?
  {
    if |text| == 1 {
      assert text[..0] == "";
    } else if text != "" {
      DoneStaysOrBreaks(mode, text[..|text| - 1]);
    }
  }

  /** Before its end, an object is open. */
  lemma {:induction false} PartsAreOpen(text: string, k: nat)
    requires IsObject(text) && 0 < k < |text|
    ensures IsOpen(Scanner(Start, text[..k]))
  {
    PartIsNotDone(text, k);
    if k == 1 {
      assert text[..1][..0] == "" && text[..1][0] == text[0];
    } else {
      assert text[..k][..k - 1] == text[..k - 1];
      PartsAreOpen(text, k - 1);
    }
  }

  lemma PartIsNotDone(text: string, k: nat)
    requires IsObject(text) && k < |text|
    ensures Scanner(Start, text[..k]) != Done
  {
    var front, end := text[..|text| - 1], text[|text| - 1..];
    assert front == text[..k] + front[k..] && text == front + end;
    ScannerInParts(Start, text[..k], front[k..]);
    ScannerInParts(Start, front, end);
    DoneStaysOrBreaks(Scanner(Start, text[..k]), front[k..]);
    DoneStaysOrBreaks(Scanner(Start, front), end);
  }

  /** The mode with more brackets open around it. */
  function Deeper(mode: Mode, depth: nat): Mode {
    match mode
    case Outside(d) => Outside(d + depth)
    case InString(d) => InString(d + depth)
    case Escape(d) => Escape(d + depth)
    case BehindString(d) => BehindString(d + depth)
    case Done => Outside(depth)
    case _ => mode
  }

  lemma StepsNest(mode: Mode, c: char, depth: nat)
    requires IsOpen(mode) && depth >= 1
    ensures Scanned(Deeper(mode, depth), c) == Deeper(Scanned(mode, c), depth)
  {
  }

  lemma {:induction false} ObjectsNest(text: string, k: nat, depth: nat)
    requires IsObject(text) && 0 < k <= |text| && depth >= 1
    ensures Scanner(Outside(depth), text[..k]) == Deeper(Scanner(Start, text[..k]), depth)
  {
    if k == 1 {
      assert text[..1] == "{" && "{"[..0] == "";
    } else {
      hide Scanned, Deeper, IsOpen;
      ObjectsNest(text, k - 1, depth);
      PartsAreOpen(text, k - 1);
      StepsNest(Scanner(Start, text[..k - 1]), text[k - 1], depth);
      assert text[..k][..k - 1] == text[..k - 1] && text[..k][k - 1] == text[k - 1];
    }
  }

  /** An object that begins inside a string breaks off the text behind its own first quote. */
  lemma {:induction false} ObjectsBreakStrings(mode: Mode, text: string, k: nat)
    requires (mode.InString? || mode.Escape?) && mode.depth >= 1 && IsObject(text) && 0 < k <= |text|
    ensures IsOpen(Scanner(mode, text[..k]))
    ensures k == 1 ==> Scanner(mode, text[..k]).InString?
    ensures k == 2 ==> Scanner(mode, text[..k]).BehindString?
    ensures k >= 3 ==> Scanner(mode, text[..k]).Broken?
  {
    assert text[..k][..k - 1] == text[..k - 1] && text[..k][k - 1] == text[k - 1];
    if k == 1 {
      assert text[..1][..0] == "";
    } else {
      ObjectsBreakStrings(mode, text, k - 1);
    }
  }

  /** Whatever is open stays open behind the beginning, or all, of another object. */
  lemma ObjectsCloseNothing(mode: Mode, text: string, k: nat)
    requires IsOpen(mode) && IsObject(text) && 0 < k <= |text|
    ensures IsOpen(Scanner(mode, text[..k]))
  {
    match mode
    case Outside(depth) =>
      ObjectsNest(text, k, depth);
      if k < |text| { PartsAreOpen(text, k); }
      assert text[..|text|] == text;
    case InString(_) => ObjectsBreakStrings(mode, text, k);
    case Escape(_) => ObjectsBreakStrings(mode, text, k);
    case BehindString(_) =>
      assert text[..k] == text[..1] + text[1..k] && text[..1] == "{";
      ScannerInParts(mode, text[..1], text[1..k]);
      assert text[..1][..0] == "" && Scanner(mode, text[..1]) == Broken;
      DoneStaysOrBreaks(Broken, text[1..k]);
    case Broken => DoneStaysOrBreaks(Broken, text[..k]);
  }

  // Lines of a shard

  predicate ObjectLines(segments: seq<Segment>) {
    forall i :: 0 <= i < |segments| ==> IsObjectLine(segments[i].record.line)
  }

  /** All of the record is there, its newline aside. */
  predicate Full(segment: Segment) {
    segment.Whole? || segment.kept == |segment.record.line| - 1
  }

  /** The segment is a full record, nothing is in front of it in its line, and nothing but a newline behind it. */
  predicate StandsAlone(segments: seq<Segment>, i: nat) {
    && i < |segments| && Full(segments[i])
    && !BehindFragment(segments, i)
    && (segments[i].Dangling? ==> i == |segments| - 1)
  }

  lemma NewlinesCloseNothing(mode: Mode)
    requires IsOpen(mode)
    ensures IsOpen(Scanner(mode, "\n"))
  {
    assert "\n"[..0] == "" && Scanner(mode, "\n") == Scanned(mode, '\n');
  }

  /** How much of the record's text the segment holds. */
  function Kept(segment: Segment): nat
    requires SegmentOk(segment)
  {
    if segment.Whole? then |segment.record.line| - 1 else segment.kept
  }

  /** What a segment has written is a front of the record's text, and a newline unless it dangles. */
  lemma WrittenIsAFront(segment: Segment, e: nat)
    requires SegmentOk(segment) && IsObjectLine(segment.record.line) && e <= |Written(segment)|
    ensures var text := segment.record.line[..|segment.record.line| - 1];
            && 0 < Kept(segment) <= |text|
            && Written(segment)[..e]
               == if e <= Kept(segment) then text[..e] else text[..Kept(segment)] + "\n"
  {
    hide Scanner, Scanned;
  }

  /** What one segment adds to its line leaves open what is open. */
  lemma SegmentsCloseNothing(mode: Mode, segment: Segment, e: nat)
    requires IsOpen(mode) && SegmentOk(segment) && IsObjectLine(segment.record.line) && e <= |Written(segment)|
    ensures IsOpen(Scanner(mode, Written(segment)[..e]))
  {
    hide Scanned, IsOpen, Written, Kept, IsObject;
    var text := segment.record.line[..|segment.record.line| - 1];
    WrittenIsAFront(segment, e);
    if 0 < e {
      ObjectsCloseNothing(mode, text, if e <= Kept(segment) then e else Kept(segment));
      if e > Kept(segment) {
        ScannerInParts(mode, text[..Kept(segment)], "\n");
        NewlinesCloseNothing(Scanner(mode, text[..Kept(segment)]));
      }
    }
  }

  lemma {:induction false} LinesCloseNothing(mode: Mode, segments: seq<Segment>, e: nat)
    requires IsOpen(mode) && SegmentsOk(segments) && ObjectLines(segments) && segments != []
    requires e <= |ShardLines(segments)[0]|
    ensures IsOpen(Scanner(mode, ShardLines(segments)[0][..e]))
    decreases |segments|
  {
    hide Scanner, IsOpen, Written, IsObjectLine, ShardLines;
    LinesFromFront(segments);
    var first, line := Written(segments[0]), ShardLines(segments)[0];
    if e <= |first| {
      assert line[..e] == first[..e];
      SegmentsCloseNothing(mode, segments[0], e);
    } else {
      SegmentsCloseNothing(mode, segments[0], |first|);
      LinesCloseNothing(Scanner(mode, first[..|first|]), segments[1..], e - |first|);
      assert first[..|first|] == first && line[..e] == first + ShardLines(segments[1..])[0][..e - |first|];
      ScannerInParts(mode, first, ShardLines(segments[1..])[0][..e - |first|]);
    }
  }

  lemma LinesBeginWithObjects(segments: seq<Segment>)
    requires SegmentsOk(segments) && ObjectLines(segments) && segments != []
    ensures ShardLines(segments)[0] != "" && ShardLines(segments)[0][0] == '{'
    ensures Written(segments[0]) != "" && Written(segments[0])[0] == '{'
  {
    hide Scanner, ShardLines;
    LinesFromFront(segments);
    assert IsObjectLine(segments[0].record.line);
  }

  /** A fragment with something behind it in its line is no object, wherever the line is cut off after that. */
  lemma GluedLinesAreBroken(segments: seq<Segment>, e: nat)
    requires SegmentsOk(segments) && ObjectLines(segments) && |segments| > 1 && segments[0].Dangling?
    requires |Written(segments[0])| < e <= |ShardLines(segments)[0]|
    ensures IsOpen(Scanner(Start, ShardLines(segments)[0][..e]))
  {
    hide Scanned, Scanner, ShardLines, IsOpen;
    LinesFromFront(segments);
    LinesBeginWithObjects(segments[1..]);
    var first, rest := Written(segments[0]), ShardLines(segments[1..])[0];
    var text := segments[0].record.line[..|segments[0].record.line| - 1];
    assert ShardLines(segments)[0][..e] == first + rest[..e - |first|];
    ScannerInParts(Start, first, rest[..e - |first|]);
    assert IsObjectLine(segments[0].record.line);
    if |first| < |text| {
      assert first == text[..|first|];
      PartsAreOpen(text, |first|);
      LinesCloseNothing(Scanner(Start, first), segments[1..], e - |first|);
    } else {
      assert first == text;
      DoneStaysOrBreaks(Done, rest[..e - |first|]);
      BrokenIsOpen();
    }
  }

  lemma NoLinesWithoutSegments(segments: seq<Segment>)
    requires SegmentsOk(segments)
    ensures segments == [] ==> ShardLines(segments) == []
  {
  }

  lemma BrokenIsOpen()
    ensures IsOpen(Broken) && !IsOpen(Done)
  {
  }

  /** The token keeps all up to any character that is neither newline nor carriage return. */
  lemma TokenIsFront(line: string, k: nat)
    requires k < |line| && line[k] != '\n' && line[k] != '\r'
    ensures k < |Token(line)| <= |line| && Token(line) == line[..|Token(line)|]
  {
  }

  /** Alone in its line, what is left of a record is an object exactly if it is full. */
  lemma SegmentIsObjectOnlyIfFull(segment: Segment)
    requires SegmentOk(segment) && IsObjectLine(segment.record.line)
    ensures Scanner(Start, Token(Written(segment))) == Done <==> Full(segment)
    ensures Full(segment) ==> Token(Written(segment)) == Token(segment.record.line)
  {
    hide Scanner, Scanned, Token;
    var text := segment.record.line[..|segment.record.line| - 1];
    if Full(segment) {
      FullTokens(segment);
    } else {
      PartTokens(segment);
      PartsAreOpen(text, |Token(Written(segment))|);
      BrokenIsOpen();
    }
  }

  lemma FullTokens(segment: Segment)
    requires SegmentOk(segment) && IsObjectLine(segment.record.line) && Full(segment)
    ensures var line := segment.record.line;
            Token(Written(segment)) == line[..|line| - 1] && Token(line) == line[..|line| - 1]
  {
    hide Scanner, IsObject;
    var line := segment.record.line;
    ObjectsEndInBrackets(line[..|line| - 1]);
  }

  lemma PartTokens(segment: Segment)
    requires SegmentOk(segment) && IsObjectLine(segment.record.line) && !Full(segment)
    ensures var token, line := Token(Written(segment)), segment.record.line;
            0 < |token| < |line| - 1 && token == line[..|line| - 1][..|token|]
  {
    hide Scanner, Scanned;
    assert Written(segment)[0] == '{';
    TokenIsFront(Written(segment), 0);
  }

  lemma ObjectsEndInBrackets(text: string)
    requires IsObject(text)
    ensures text[|text| - 1] != '\r' && text[|text| - 1] != '\n'
  {
  }

  /**
   Every line of a shard begins like an object, and it is one exactly if it is a single full record,
   with or without its newline. So no line that holds a broken fragment can be decoded.
   */
  lemma {:induction false} LinesAreObjectsOnlyIfWhole(segments: seq<Segment>, k: nat) returns (i: nat)
    requires SegmentsOk(segments) && ObjectLines(segments) && k < |ShardLines(segments)|
    ensures i < |segments| && LineAt(segments, i) == k
    ensures var token := Token(ShardLines(segments)[k]);
            && token != "" && token[0] == '{'
            && (Scanner(Start, token) == Done <==> StandsAlone(segments, i))
            && (StandsAlone(segments, i) ==> token == Token(segments[i].record.line))
  {
    hide Scanner, Written, IsObjectLine, Token, Full, ShardLines, IsOpen;
    NoLinesWithoutSegments(segments);
    LinesFromFront(segments);
    LinesBeginWithObjects(segments);
    var lines, rest := ShardLines(segments), ShardLines(segments[1..]);
    if k == 0 {
      i := 0;
      TokenIsFront(lines[0], 0);
      if segments[0].Dangling? && |segments| > 1 {
        LinesBeginWithObjects(segments[1..]);
        TokenIsFront(lines[0], |Written(segments[0])|);
        GluedLinesAreBroken(segments, |Token(lines[0])|);
        BrokenIsOpen();
      } else {
        SegmentIsObjectOnlyIfFull(segments[0]);
      }
    } else {
      i := LinesAreObjectsOnlyIfWhole(segments[1..], if segments[0].Dangling? then k else k - 1);
      assert segments[1..][i] == segments[i + 1];
      i := i + 1;
    }
  }

  /** And such a record is a line of the shard. */
  lemma RecordsAreLines(segments: seq<Segment>, i: nat)
    requires SegmentsOk(segments) && ObjectLines(segments) && StandsAlone(segments, i)
    ensures LineAt(segments, i) < |ShardLines(segments)|
    ensures Token(ShardLines(segments)[LineAt(segments, i)]) == Token(segments[i].record.line)
    ensures Scanner(Start, Token(segments[i].record.line)) == Done
  {
    hide Scanner, IsObjectLine, Token, ShardLines, Written;
    var before := SegmentEndsItsLine(segments, i);
    assert before + Written(segments[i]) == Written(segments[i]);
    SegmentIsObjectOnlyIfFull(segments[i]);
  }
}
