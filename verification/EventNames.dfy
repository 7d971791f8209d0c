/** Event names: `normalizeEventName`, on arbitrary bytes. */
module EventNames {
  import opened Wrappers
  import opened Utf8

  /** The Unicode tables: `unicode.IsSpace`, and the control, format, private-use and surrogate runes. */
  datatype Classes = Classes(space: Rune -> bool, stripped: Rune -> bool)

  /** All that is used of the tables: visible ASCII characters are in neither class. */
  ghost predicate Sound(classes: Classes) {
    forall r: Rune :: |r| == 1 && 0x21 <= r[0] as int <= 0x7E ==> !classes.space(r) && !classes.stripped(r)
  }

  const MAX_EVENT_NAME_BYTES := 128
  const INVALID_EVENT_NAME := "[INVALID_EVENT_NAME]"

  // The pipeline, on bytes

  function TrimLeft(classes: Classes, s: string): string {
    if RuneLength(s) > 0 && classes.space(FirstRune(s)) then TrimLeft(classes, s[RuneLength(s)..]) else s
  }

  function FirstRune(s: string): Rune
    requires RuneLength(s) > 0
  {
    RuneIsPrefix(s);
    s[..RuneLength(s)]
  }

  predicate EndsInRune(s: string, n: nat) {
    n <= |s| && IsRune(s[|s| - n..])
  }

  /** The length of the well-formed rune that `s` ends in, or 0. */
  function LastRuneLength(s: string): (n: nat)
    ensures n <= |s| && (n > 0 ==> EndsInRune(s, n))
  {
    if EndsInRune(s, 1) then 1
    else if EndsInRune(s, 2) then 2
    else if EndsInRune(s, 3) then 3
    else if EndsInRune(s, 4) then 4
    else 0
  }

  function TrimRight(classes: Classes, s: string): string {
    var n := LastRuneLength(s);
    if n > 0 && classes.space(s[|s| - n..]) then TrimRight(classes, s[..|s| - n]) else s
  }

  function TrimSpace(classes: Classes, s: string): string {
    TrimRight(classes, TrimLeft(classes, s))
  }

  function Strip(classes: Classes, runes: seq<Rune>): seq<Rune> {
    if runes == [] then []
    else (if classes.stripped(runes[0]) then [] else [runes[0]]) + Strip(classes, runes[1..])
  }

  /** `None` is the error: the name is empty. */
  function Normalize(classes: Classes, name: string): Option<string> {
    var trimmed := TrimSpace(classes, name);
    if trimmed == "" then None
    else
      var bounded := Bounded(classes, Cleaned(classes, trimmed));
      Some(if bounded == "" then INVALID_EVENT_NAME else bounded)
  }

  function Cleaned(classes: Classes, trimmed: string): string {
    if !Valid(trimmed) then INVALID_EVENT_NAME
    else
      var visible := TrimSpace(classes, Join(Strip(classes, Runes(trimmed))));
      if visible == "" then INVALID_EVENT_NAME else visible
  }

  function Bounded(classes: Classes, name: string): string {
    if |name| > MAX_EVENT_NAME_BYTES then TrimRight(classes, Truncated(name, MAX_EVENT_NAME_BYTES)) else name
  }

  // The same on runes

  function WithoutLeading(classes: Classes, runes: seq<Rune>): seq<Rune> {
    if runes != [] && classes.space(runes[0]) then WithoutLeading(classes, runes[1..]) else runes
  }

  function WithoutTrailing(classes: Classes, runes: seq<Rune>): (r: seq<Rune>)
    ensures r <= runes
    ensures r == [] || !classes.space(r[|r| - 1])
    ensures runes != [] && !classes.space(runes[0]) ==> r != []
    ensures runes != [] && !classes.space(runes[|runes| - 1]) ==> r == runes
  {
    if runes != [] && classes.space(runes[|runes| - 1]) then WithoutTrailing(classes, runes[..|runes| - 1]) else runes
  }

  lemma {:induction false} TrimLeftOfJoin(classes: Classes, runes: seq<Rune>)
    ensures TrimLeft(classes, Join(runes)) == Join(WithoutLeading(classes, runes))
  {
    if runes != [] {
      RuneAtFront(runes[0], Join(runes[1..]));
      TrimLeftOfJoin(classes, runes[1..]);
    }
  }

  lemma RuneAtEnd(before: string, r: Rune)
    ensures LastRuneLength(before + r) == |r|
    ensures (before + r)[|before|..] == r && (before + r)[..|before|] == before
  {
    var s := before + r;
    RuneIsPrefix(r);
    forall n | 1 <= n < |r| ensures !EndsInRune(s, n) {
      assert s[|s| - n..][0] == r[|r| - n];
    }
    assert s[|s| - |r|..] == r;
  }

  lemma {:induction false} TrimRightOfJoin(classes: Classes, runes: seq<Rune>)
    ensures TrimRight(classes, Join(runes)) == Join(WithoutTrailing(classes, runes))
  {
    if runes == [] {
      assert LastRuneLength("") == 0;
    } else {
      var last := |runes| - 1;
      JoinOfConcat(runes[..last], [runes[last]]);
      assert runes == runes[..last] + [runes[last]];
      assert Join([runes[last]]) == runes[last] + Join([]);
      assert Join(runes) == Join(runes[..last]) + runes[last];
      RuneAtEnd(Join(runes[..last]), runes[last]);
      TrimRightOfJoin(classes, runes[..last]);
    }
  }

  lemma TrimSpaceOfJoin(classes: Classes, runes: seq<Rune>)
    ensures TrimSpace(classes, Join(runes)) == Join(WithoutTrailing(classes, WithoutLeading(classes, runes)))
  {
    TrimLeftOfJoin(classes, runes);
    TrimRightOfJoin(classes, WithoutLeading(classes, runes));
  }

  predicate NoneStripped(classes: Classes, runes: seq<Rune>) {
    forall i :: 0 <= i < |runes| ==> !classes.stripped(runes[i])
  }

  predicate Tidy(classes: Classes, runes: seq<Rune>) {
    && runes != []
    && NoneStripped(classes, runes)
    && !classes.space(runes[0])
    && !classes.space(runes[|runes| - 1])
  }

  lemma {:induction false} StripRemovesTheStripped(classes: Classes, runes: seq<Rune>)
    ensures NoneStripped(classes, Strip(classes, runes))
    ensures NoneStripped(classes, runes) ==> Strip(classes, runes) == runes
  {
    if runes != [] {
      StripRemovesTheStripped(classes, runes[1..]);
      if NoneStripped(classes, runes) {
        assert NoneStripped(classes, runes[1..]);
        assert runes == [runes[0]] + runes[1..];
      }
    }
  }

  lemma {:induction false} WithoutLeadingIsSuffix(classes: Classes, runes: seq<Rune>)
    ensures var r := WithoutLeading(classes, runes);
            && (r == [] || !classes.space(r[0]))
            && (NoneStripped(classes, runes) ==> NoneStripped(classes, r))
  {
    if runes != [] && classes.space(runes[0]) {
      WithoutLeadingIsSuffix(classes, runes[1..]);
    }
  }

  /** What is trimmed at both ends is empty or tidy. */
  lemma TrimmedIsTidy(classes: Classes, runes: seq<Rune>)
    requires NoneStripped(classes, runes)
    ensures var r := WithoutTrailing(classes, WithoutLeading(classes, runes)); r == [] || Tidy(classes, r)
  {
    WithoutLeadingIsSuffix(classes, runes);
  }

  /** Visible ASCII text is one rune per byte. */
  lemma {:induction false} VisibleAscii(s: string)
    requires forall i :: 0 <= i < |s| ==> 0x21 <= s[i] as int <= 0x7E
    ensures Valid(s) && |Runes(s)| == |s|
    ensures forall i :: 0 <= i < |s| ==> Runes(s)[i] == [s[i]]
  {
    if s != "" {
      VisibleAscii(s[1..]);
      assert s[..1] == [s[0]];
    }
  }

  lemma VisibleAsciiIsTidy(classes: Classes, s: string)
    requires Sound(classes)
    requires s != "" && forall i :: 0 <= i < |s| ==> 0x21 <= s[i] as int <= 0x7E
    ensures Valid(s) && Tidy(classes, Runes(s))
  {
    VisibleAscii(s);
  }

  lemma CleanedIsTidy(classes: Classes, trimmed: string)
    requires Sound(classes)
    ensures Valid(Cleaned(classes, trimmed)) && Tidy(classes, Runes(Cleaned(classes, trimmed)))
  {
    hide Tidy, TrimSpace, Runes, Utf8.Valid;
    VisibleAsciiIsTidy(classes, INVALID_EVENT_NAME);
    if Valid(trimmed) {
      var kept := Strip(classes, Runes(trimmed));
      StripRemovesTheStripped(classes, Runes(trimmed));
      TrimSpaceOfJoin(classes, kept);
      TrimmedIsTidy(classes, kept);
      RunesOfJoin(WithoutTrailing(classes, WithoutLeading(classes, kept)));
    }
  }

  /** A valid prefix of valid text is the text's first runes. */
  lemma {:induction false} PrefixHoldsFirstRunes(s: string, i: nat) returns (k: nat)
    requires Valid(s) && i <= |s| && Valid(s[..i])
    ensures k <= |Runes(s)| && s[..i] == Join(Runes(s)[..k])
    ensures i > 0 ==> k > 0
  {
    hide RuneLength, Tail;
    if i == 0 {
      k := 0;
    } else {
      var n := RuneLength(s);
      RuneIsPrefix(s);
      if i < n { Boundary(s, i); }
      RuneAtFront(s[..n], s[n..i]);
      assert s[..i] == s[..n] + s[n..i] && s[n..][..i - n] == s[n..i];
      var rest := PrefixHoldsFirstRunes(s[n..], i - n);
      k := rest + 1;
      var front := Runes(s)[..k];
      assert front == [s[..n]] + Runes(s[n..])[..rest];
      assert front[1..] == Runes(s[n..])[..rest];
    }
  }

  lemma {:induction false} JoinGrows(runes: seq<Rune>)
    ensures |Join(runes)| >= |runes|
  {
    if runes != [] { JoinGrows(runes[1..]); }
  }

  /** Bounding a tidy name keeps it tidy, so its first rune always survives. */
  lemma BoundedIsTidy(classes: Classes, name: string)
    requires Valid(name) && Tidy(classes, Runes(name))
    ensures var r := Bounded(classes, name);
            && r != "" && |r| <= MAX_EVENT_NAME_BYTES && r <= name
            && Valid(r) && Tidy(classes, Runes(r))
  {
    hide Runes, TrimRight, Join, Tidy, Utf8.Valid;
    JoinOfRunes(name);
    TidyIsNotEmpty(classes, name);
    if |name| > MAX_EVENT_NAME_BYTES {
      var cut := Truncated(name, MAX_EVENT_NAME_BYTES);
      TruncatedIsLongestValidPrefix(name, MAX_EVENT_NAME_BYTES, FirstRuneOf(name));
      assert cut == name[..|cut|];
      var k := PrefixHoldsFirstRunes(name, |cut|);
      FrontIsTidy(classes, Runes(name), k);
    }
  }

  lemma TidyIsNotEmpty(classes: Classes, name: string)
    requires Valid(name) && Tidy(classes, Runes(name))
    ensures name != ""
  {
  }

  lemma FrontIsTidy(classes: Classes, runes: seq<Rune>, k: nat)
    requires Tidy(classes, runes) && 1 <= k <= |runes|
    ensures var r := TrimRight(classes, Join(runes[..k]));
            r != "" && r <= Join(runes[..k]) && Valid(r) && Tidy(classes, Runes(r))
  {
    hide Runes, TrimRight, Join, Utf8.Valid;
    var front := runes[..k];
    TrimRightOfJoin(classes, front);
    var kept := WithoutTrailing(classes, front);
    assert kept[0] == runes[0] && NoneStripped(classes, kept);
    RunesOfJoin(kept);
    JoinGrows(kept);
    JoinOfConcat(kept, front[|kept|..]);
    assert front == kept + front[|kept|..];
  }

  function FirstRuneOf(name: string): (r: string)
    requires Valid(name) && name != ""
    ensures r <= name && Valid(r) && 1 <= |r| <= 4
  {
    RuneIsPrefix(name);
    assert name[..RuneLength(name)][RuneLength(name)..] == "";
    name[..RuneLength(name)]
  }

  // What the source promises

  predicate Accepted(classes: Classes, name: string) {
    |name| <= MAX_EVENT_NAME_BYTES && Valid(name) && Tidy(classes, Runes(name))
  }

  /** Whatever the bytes, an accepted event has a clean name: valid, trimmed, bounded and not empty. */
  lemma NormalizedIsAccepted(classes: Classes, name: string)
    requires Sound(classes) && Normalize(classes, name).Some?
    ensures Accepted(classes, Normalize(classes, name).value)
  {
    hide Cleaned, Bounded, Tidy, TrimSpace;
    var cleaned := Cleaned(classes, TrimSpace(classes, name));
    CleanedIsTidy(classes, TrimSpace(classes, name));
    BoundedIsTidy(classes, cleaned);
  }

  /** The last fallback is never reached: nothing that has been bounded is empty. */
  lemma LastFallbackIsDead(classes: Classes, name: string)
    requires Sound(classes)
    ensures Bounded(classes, Cleaned(classes, TrimSpace(classes, name))) != ""
  {
    CleanedIsTidy(classes, TrimSpace(classes, name));
    BoundedIsTidy(classes, Cleaned(classes, TrimSpace(classes, name)));
  }

  /** The clean names are exactly the names that normalization leaves alone; so it is idempotent. */
  lemma AcceptedNamesAreFixed(classes: Classes, name: string)
    requires Sound(classes)
    ensures Normalize(classes, name) == Some(name) <==> Accepted(classes, name)
    ensures Normalize(classes, name).Some? ==>
              Normalize(classes, Normalize(classes, name).value) == Normalize(classes, name)
  {
    hide Normalize, Accepted;
    if Normalize(classes, name).Some? {
      NormalizedIsAccepted(classes, name);
      AcceptedIsFixed(classes, Normalize(classes, name).value);
    }
    if Accepted(classes, name) {
      AcceptedIsFixed(classes, name);
    }
  }

  lemma AcceptedIsFixed(classes: Classes, name: string)
    requires Accepted(classes, name)
    ensures Normalize(classes, name) == Some(name)
  {
    hide TrimSpace, Runes;
    var runes := Runes(name);
    JoinOfRunes(name);
    TrimSpaceOfJoin(classes, runes);
    assert WithoutLeading(classes, runes) == runes && WithoutTrailing(classes, runes) == runes;
    StripRemovesTheStripped(classes, runes);
    JoinGrows(runes);
  }

  predicate AllSpaces(classes: Classes, runes: seq<Rune>) {
    forall i :: 0 <= i < |runes| ==> classes.space(runes[i])
  }

  /** An event is refused exactly when its name is nothing but white space. */
  lemma RefusedOnlyIfBlank(classes: Classes, name: string)
    ensures Normalize(classes, name).None? <==> Valid(name) && AllSpaces(classes, Runes(name))
  {
    hide Runes, TrimSpace;
    if TrimSpace(classes, name) == "" {
      var runes := BlankIfTrimmedAway(classes, name);
      RunesOfJoin(runes);
    }
    if Valid(name) && AllSpaces(classes, Runes(name)) {
      JoinOfRunes(name);
      TrimSpaceOfJoin(classes, Runes(name));
      NothingLeftOfSpaces(classes, Runes(name));
    }
  }

  lemma {:induction false} NothingLeftOfSpaces(classes: Classes, runes: seq<Rune>)
    requires AllSpaces(classes, runes)
    ensures WithoutLeading(classes, runes) == []
  {
    if runes != [] { NothingLeftOfSpaces(classes, runes[1..]); }
  }

  lemma BlankIfTrimmedAway(classes: Classes, s: string) returns (runes: seq<Rune>)
    requires TrimSpace(classes, s) == ""
    ensures s == Join(runes) && AllSpaces(classes, runes)
  {
    var left, rest := LeadingSpaces(classes, s);
    var right := TrailingSpaces(classes, rest);
    assert rest == Join(right);
    if right != [] {
      StartsWithSpace(classes, right);
      assert false;
    }
    runes := left;
  }

  lemma StartsWithSpace(classes: Classes, runes: seq<Rune>)
    requires runes != [] && AllSpaces(classes, runes)
    ensures RuneLength(Join(runes)) > 0 && classes.space(FirstRune(Join(runes)))
  {
    RuneAtFront(runes[0], Join(runes[1..]));
  }

  lemma {:induction false} LeadingSpaces(classes: Classes, s: string) returns (runes: seq<Rune>, rest: string)
    ensures rest == TrimLeft(classes, s) && s == Join(runes) + rest && AllSpaces(classes, runes)
    ensures RuneLength(rest) > 0 ==> !classes.space(FirstRune(rest))
    decreases |s|
  {
    hide RuneLength, Join, AllSpaces;
    if RuneLength(s) > 0 && classes.space(FirstRune(s)) {
      var n := RuneLength(s);
      var others;
      others, rest := LeadingSpaces(classes, s[n..]);
      runes := [FirstRune(s)] + others;
      OneMoreSpace(classes, FirstRune(s), others, rest);
      assert s == s[..n] + s[n..];
    } else {
      runes, rest := [], s;
      NoSpaces(classes, s);
    }
  }

  lemma NoSpaces(classes: Classes, s: string)
    ensures Join([]) + s == s && AllSpaces(classes, [])
  {
  }

  lemma OneMoreSpace(classes: Classes, first: Rune, others: seq<Rune>, rest: string)
    requires classes.space(first) && AllSpaces(classes, others)
    ensures Join([first] + others) + rest == first + (Join(others) + rest)
    ensures AllSpaces(classes, [first] + others)
  {
    assert ([first] + others)[1..] == others;
  }

  lemma {:induction false} TrailingSpaces(classes: Classes, s: string) returns (runes: seq<Rune>)
    ensures s == TrimRight(classes, s) + Join(runes) && AllSpaces(classes, runes)
    decreases |s|
  {
    hide LastRuneLength, IsRune, Join;
    var n := LastRuneLength(s);
    JoinOfFew();
    if n > 0 && classes.space(s[|s| - n..]) {
      var last: Rune := s[|s| - n..];
      assert s == s[..|s| - n] + last;
      var others := TrailingSpaces(classes, s[..|s| - n]);
      runes := others + [last];
      JoinOfConcat(others, [last]);
      assert Join([last]) == last;
    } else {
      runes := [];
    }
  }

  lemma JoinOfFew()
    ensures Join([]) == "" && forall rune: Rune :: Join([rune]) == rune
  {
  }

  /** Bounding loses only what must go: each prefix of at most 128 bytes that does not end in a space is kept. */
  lemma BoundedIsLongest(classes: Classes, name: string, p: seq<Rune>)
    requires Valid(name) && p <= Runes(name)
    requires p != [] && !classes.space(p[|p| - 1]) && |Join(p)| <= MAX_EVENT_NAME_BYTES
    ensures Join(p) <= Bounded(classes, name)
  {
    hide Runes, TrimRight, Join, Utf8.Valid;
    JoinOfRunes(name);
    JoinOfConcat(p, Runes(name)[|p|..]);
    assert Runes(name) == p + Runes(name)[|p|..];
    RunesOfJoin(p);
    if |name| > MAX_EVENT_NAME_BYTES {
      var cut := Truncated(name, MAX_EVENT_NAME_BYTES);
      TruncatedIsLongestValidPrefix(name, MAX_EVENT_NAME_BYTES, Join(p));
      assert cut == name[..|cut|];
      var k := PrefixHoldsFirstRunes(name, |cut|);
      var front := Runes(name)[..k];
      TrimRightOfJoin(classes, front);
      ShorterJoinIsShorter(Runes(name), |p|, k);
      WithoutTrailingKeeps(classes, front, p);
      var kept := WithoutTrailing(classes, front);
      JoinOfConcat(p, kept[|p|..]);
      assert kept == p + kept[|p|..];
    }
  }

  lemma ShorterJoinIsShorter(runes: seq<Rune>, i: nat, k: nat)
    requires i <= |runes| && k <= |runes| && |Join(runes[..i])| <= |Join(runes[..k])|
    ensures i <= k
  {
    if k < i {
      assert runes[..i] == runes[..k] + runes[k..i];
      JoinOfConcat(runes[..k], runes[k..i]);
      JoinGrows(runes[k..i]);
    }
  }

  lemma {:induction false} WithoutTrailingKeeps(classes: Classes, runes: seq<Rune>, p: seq<Rune>)
    requires p <= runes && p != [] && !classes.space(p[|p| - 1])
    ensures p <= WithoutTrailing(classes, runes)
  {
    if classes.space(runes[|runes| - 1]) {
      WithoutTrailingKeeps(classes, runes[..|runes| - 1], p);
    }
  }

  /** A name that is not valid UTF-8 is replaced, not repaired. */
  lemma MalformedNamesAreReplaced(classes: Classes, name: string)
    requires !Valid(name)
    ensures Normalize(classes, name) == Some(INVALID_EVENT_NAME)
  {
    hide TrimSpace, Utf8.Valid;
    var trimmed := TrimSpace(classes, name);
    if Valid(trimmed) {
      TrimmingKeepsMalformed(classes, name);
    }
    EmptyIsValid();
  }

  lemma EmptyIsValid()
    ensures Valid("")
  {
  }

  lemma TrimmingKeepsMalformed(classes: Classes, name: string)
    ensures Valid(TrimSpace(classes, name)) ==> Valid(name)
  {
    hide Utf8.Valid, Runes, Join, TrimLeft, TrimRight, AllSpaces;
    var left, rest := LeadingSpaces(classes, name);
    var right := TrailingSpaces(classes, rest);
    var trimmed := TrimSpace(classes, name);
    if Valid(trimmed) {
      JoinOfRunes(trimmed);
      var runes := left + (Runes(trimmed) + right);
      JoinOfConcat(Runes(trimmed), right);
      JoinOfConcat(left, Runes(trimmed) + right);
      assert name == Join(runes);
      RunesOfJoin(runes);
    }
  }

  // What is left of a valid name

  function Select(runes: seq<Rune>, at: seq<nat>): seq<Rune>
    requires forall k :: 0 <= k < |at| ==> at[k] < |runes|
  {
    seq(|at|, k requires 0 <= k < |at| => runes[at[k]])
  }

  predicate Ascends(at: seq<nat>, limit: nat) {
    && (forall k :: 0 <= k < |at| ==> at[k] < limit)
    && forall j, k :: 0 <= j < k < |at| ==> at[j] < at[k]
  }

  /**
   Of these runes, exactly those at the given places are kept: all that are not stripped, without
   the spaces before the first and behind the last of them.
   */
  ghost predicate Keeps(classes: Classes, runes: seq<Rune>, at: seq<nat>) {
    && Ascends(at, |runes|)
    && (forall k :: 0 <= k < |at| ==> !classes.stripped(runes[at[k]]))
    && (at != [] ==> !classes.space(runes[at[0]]) && !classes.space(runes[at[|at| - 1]]))
    && forall i :: 0 <= i < |runes| && i !in at ==> IsDropped(classes, runes, at, i)
  }

  ghost predicate IsDropped(classes: Classes, runes: seq<Rune>, at: seq<nat>, i: nat)
    requires i < |runes|
  {
    || classes.stripped(runes[i])
    || (classes.space(runes[i]) && (at == [] || i < at[0] || at[|at| - 1] < i))
  }

  lemma {:induction false} StripOneMore(classes: Classes, runes: seq<Rune>, rune: Rune)
    ensures Strip(classes, runes + [rune]) == Strip(classes, runes) + if classes.stripped(rune) then [] else [rune]
  {
    if runes == [] {
      assert [rune][1..] == [];
    } else {
      assert (runes + [rune])[1..] == runes[1..] + [rune];
      StripOneMore(classes, runes[1..], rune);
    }
  }

  /** The places are those of the runes from `lo` to `hi` that are not stripped. */
  ghost predicate AreUnstripped(classes: Classes, runes: seq<Rune>, lo: nat, hi: nat, at: seq<nat>) {
    && hi <= |runes| && Ascends(at, hi)
    && forall i :: 0 <= i < |runes| ==> (i in at <==> lo <= i < hi && !classes.stripped(runes[i]))
  }

  lemma {:induction false} StripSelects(classes: Classes, runes: seq<Rune>, lo: nat, hi: nat) returns (at: seq<nat>)
    requires lo <= hi <= |runes|
    ensures AreUnstripped(classes, runes, lo, hi, at)
    ensures Strip(classes, runes[lo..hi]) == Select(runes, at)
  {
    hide Strip;
    if lo == hi {
      at := [];
      NothingToStrip(classes);
      assert runes[lo..hi] == [];
    } else {
      var last := hi - 1;
      var front := StripSelects(classes, runes, lo, last);
      StripOneMore(classes, runes[lo..last], runes[last]);
      assert runes[lo..hi] == runes[lo..last] + [runes[last]];
      at := front + if classes.stripped(runes[last]) then [] else [last];
    }
  }

  lemma NothingToStrip(classes: Classes)
    ensures Strip(classes, []) == []
  {
  }

  /** Trimming at both ends takes a slice, and nothing but spaces around it. */
  lemma TrimsToASlice(classes: Classes, runes: seq<Rune>) returns (lo: nat, hi: nat)
    ensures lo <= hi <= |runes|
    ensures WithoutTrailing(classes, WithoutLeading(classes, runes)) == runes[lo..hi]
    ensures forall i :: 0 <= i < lo || hi <= i < |runes| ==> classes.space(runes[i])
    ensures lo < hi ==> !classes.space(runes[lo]) && !classes.space(runes[hi - 1])
  {
    hide WithoutLeading, WithoutTrailing;
    lo := LeadingSlice(classes, runes);
    var n := TrailingSlice(classes, runes[lo..]);
    hi := lo + n;
    forall i | 0 <= i < lo || hi <= i < |runes| ensures classes.space(runes[i]) {
      if hi <= i { assert runes[lo..][i - lo] == runes[i]; }
    }
  }

  lemma {:induction false} LeadingSlice(classes: Classes, runes: seq<Rune>) returns (lo: nat)
    ensures lo <= |runes| && WithoutLeading(classes, runes) == runes[lo..]
    ensures forall i :: 0 <= i < lo ==> classes.space(runes[i])
    ensures lo < |runes| ==> !classes.space(runes[lo])
  {
    if runes != [] && classes.space(runes[0]) {
      var rest := LeadingSlice(classes, runes[1..]);
      lo := rest + 1;
      assert forall i :: 0 < i < lo ==> runes[i] == runes[1..][i - 1];
    } else {
      lo := 0;
    }
  }

  lemma {:induction false} TrailingSlice(classes: Classes, runes: seq<Rune>) returns (n: nat)
    ensures n <= |runes| && WithoutTrailing(classes, runes) == runes[..n]
    ensures forall i :: n <= i < |runes| ==> classes.space(runes[i])
    ensures n > 0 ==> !classes.space(runes[n - 1])
  {
    if runes != [] && classes.space(runes[|runes| - 1]) {
      n := TrailingSlice(classes, runes[..|runes| - 1]);
    } else {
      n := |runes|;
    }
  }

  /**
   What becomes of a valid name: exactly the runes that are not stripped and not outer space, in
   their order, or the fallback if there are none; bounded in length.
   */
  lemma ValidNamesKeepTheirRunes(classes: Classes, name: string) returns (at: seq<nat>)
    requires Sound(classes) && Valid(name) && Normalize(classes, name).Some?
    ensures Keeps(classes, Runes(name), at)
    ensures Normalize(classes, name).value
         == Bounded(classes, if at == [] then INVALID_EVENT_NAME else Join(Select(Runes(name), at)))
  {
    hide Runes, Join, TrimSpace, Cleaned, Bounded, Keeps, Utf8.Valid;
    at := CleanedKeeps(classes, name);
    LastFallbackIsDead(classes, name);
  }

  lemma CleanedKeeps(classes: Classes, name: string) returns (at: seq<nat>)
    requires Valid(name)
    ensures Keeps(classes, Runes(name), at)
    ensures Cleaned(classes, TrimSpace(classes, name)) == if at == [] then INVALID_EVENT_NAME else Join(Select(Runes(name), at))
  {
    hide Runes, TrimSpace, Join, WithoutLeading, WithoutTrailing, Strip, Utf8.Valid, Keeps, AreUnstripped;
    var runes := Runes(name);
    JoinOfRunes(name);
    TrimSpaceOfJoin(classes, runes);
    var lo, hi := TrimsToASlice(classes, runes);
    RunesOfJoin(runes[lo..hi]);
    var kept := StripSelects(classes, runes, lo, hi);
    KeptAreThere(classes, runes, lo, hi, kept);
    TrimSpaceOfJoin(classes, Select(runes, kept));
    at := SelectedAreTrimmed(classes, runes, lo, hi, kept);
    JoinGrows(Select(runes, at));
    JoinOfFew();
  }

  /** Trimming once more what is not stripped. */
  lemma SelectedAreTrimmed(classes: Classes, runes: seq<Rune>, lo: nat, hi: nat, kept: seq<nat>) returns (at: seq<nat>)
    requires lo <= hi <= |runes| && AreUnstripped(classes, runes, lo, hi, kept)
    requires forall i :: 0 <= i < lo || hi <= i < |runes| ==> classes.space(runes[i])
    requires forall k :: 0 <= k < |kept| ==> kept[k] < |runes|
    ensures Keeps(classes, runes, at) && forall k :: 0 <= k < |at| ==> at[k] < |runes|
    ensures WithoutTrailing(classes, WithoutLeading(classes, Select(runes, kept))) == Select(runes, at)
  {
    hide WithoutLeading, WithoutTrailing, Keeps, AreUnstripped, Select;
    SelectedAre(runes, kept);
    var l, h := TrimsToASlice(classes, Select(runes, kept));
    at := kept[l..h];
    SelectedSlice(runes, kept, l, h);
    SlicesKeep(classes, runes, lo, hi, kept, l, h);
  }

  lemma SelectedAre(runes: seq<Rune>, kept: seq<nat>)
    requires forall k :: 0 <= k < |kept| ==> kept[k] < |runes|
    ensures |Select(runes, kept)| == |kept| && forall k :: 0 <= k < |kept| ==> Select(runes, kept)[k] == runes[kept[k]]
  {
  }

  lemma SelectedSlice(runes: seq<Rune>, kept: seq<nat>, l: nat, h: nat)
    requires l <= h <= |kept| && forall k :: 0 <= k < |kept| ==> kept[k] < |runes|
    ensures |Select(runes, kept)| == |kept|
    ensures Select(runes, kept[l..h]) == Select(runes, kept)[l..h]
  {
  }

  lemma KeptAreThere(classes: Classes, runes: seq<Rune>, lo: nat, hi: nat, kept: seq<nat>)
    requires AreUnstripped(classes, runes, lo, hi, kept)
    ensures forall k :: 0 <= k < |kept| ==> kept[k] < |runes|
  {
  }

  lemma SlicesKeep(classes: Classes, runes: seq<Rune>, lo: nat, hi: nat, kept: seq<nat>, l: nat, h: nat)
    requires lo <= hi <= |runes| && AreUnstripped(classes, runes, lo, hi, kept) && l <= h <= |kept|
    requires forall i :: 0 <= i < lo || hi <= i < |runes| ==> classes.space(runes[i])
    requires forall k :: 0 <= k < l || h <= k < |kept| ==> kept[k] < |runes| && classes.space(runes[kept[k]])
    requires l < h ==> kept[l] < |runes| && !classes.space(runes[kept[l]])
    requires l < h ==> kept[h - 1] < |runes| && !classes.space(runes[kept[h - 1]])
    ensures Keeps(classes, runes, kept[l..h])
  {
    hide IsDropped;
    var at := kept[l..h];
    forall k | 0 <= k < |at| ensures lo <= at[k] < hi && !classes.stripped(runes[at[k]]) {
      assert at[k] in kept;
    }
    forall i | 0 <= i < |runes| && i !in at ensures IsDropped(classes, runes, at, i) {
      OthersAreDropped(classes, runes, lo, hi, kept, l, h, i);
    }
  }

  lemma OthersAreDropped(
    classes: Classes, runes: seq<Rune>, lo: nat, hi: nat, kept: seq<nat>, l: nat, h: nat, i: nat)
    requires lo <= hi <= |runes| && AreUnstripped(classes, runes, lo, hi, kept) && l <= h <= |kept|
    requires forall i :: 0 <= i < lo || hi <= i < |runes| ==> classes.space(runes[i])
    requires forall k :: 0 <= k < l || h <= k < |kept| ==> kept[k] < |runes| && classes.space(runes[kept[k]])
    requires i < |runes| && i !in kept[l..h]
    ensures IsDropped(classes, runes, kept[l..h], i)
  {
    var at := kept[l..h];
    if at != [] { assert at[0] == kept[l] && at[|at| - 1] == kept[h - 1]; }
    if lo <= i < hi && !classes.stripped(runes[i]) {
      var k :| 0 <= k < |kept| && kept[k] == i;
      SliceHolds(kept, l, h, k);
    } else if at != [] {
      assert kept[l] in kept && kept[h - 1] in kept;
    }
  }

  lemma SliceHolds(kept: seq<nat>, l: nat, h: nat, k: nat)
    requires l <= h <= |kept| && k < |kept|
    ensures l <= k < h ==> kept[k] in kept[l..h]
  {
    if l <= k < h { assert kept[l..h][k - l] == kept[k]; }
  }
}
