/**
 UTF-8 as sections 3 and 4 of RFC 3629 define it, and the library's byte-limited truncation.

 A rune is represented by its own encoding: a string of one to four bytes.
 */
module Utf8 {

  predicate Tail(c: char) {
    0x80 <= c as int <= 0xBF
  }

  /** Go's `utf8.RuneStart`. */
  predicate RuneStart(c: char) {
    !Tail(c)
  }

  predicate Tails(s: string, count: nat) {
    |s| > count && forall i :: 1 <= i <= count ==> Tail(s[i])
  }

  /** The number of bytes of the well-formed rune that `s` begins with, or 0 if there is none. */
  function RuneLength(s: string): (n: nat)
    ensures n <= |s| && n <= 4
  {
    if s == "" then 0
    else
      var lead := s[0] as int;
      if lead <= 0x7F then 1
      else if 0xC2 <= lead <= 0xDF && Tails(s, 1) then 2
      else if 0xE0 <= lead <= 0xEF && Tails(s, 2)
              && (lead == 0xE0 ==> 0xA0 <= s[1] as int)
              && (lead == 0xED ==> s[1] as int <= 0x9F) then 3
      else if 0xF0 <= lead <= 0xF4 && Tails(s, 3)
              && (lead == 0xF0 ==> 0x90 <= s[1] as int)
              && (lead == 0xF4 ==> s[1] as int <= 0x8F) then 4
      else 0
  }

  predicate IsRune(r: string) {
    r != "" && RuneLength(r) == |r|
  }

  type Rune = r: string | IsRune(r) witness "a"

  predicate Scalar(cp: int) {
    0 <= cp <= 0x10FFFF && !(0xD800 <= cp <= 0xDFFF)
  }

  /** The encoding of a code point: the table in section 3 of RFC 3629. */
  function Encode(cp: int): string
    requires Scalar(cp)
  {
    if cp < 0x80 then [cp as char]
    else if cp < 0x800 then [(0xC0 + cp / 0x40) as char, Low(cp)]
    else if cp < 0x10000 then [(0xE0 + cp / 0x1000) as char, Low(cp / 0x40), Low(cp)]
    else [(0xF0 + cp / 0x40000) as char, Low(cp / 0x1000), Low(cp / 0x40), Low(cp)]
  }

  /** The low six bits, as a continuation byte. */
  function Low(n: nat): (c: char)
    ensures 0x80 <= c as int <= 0xBF && c as int == 0x80 + n % 0x40
  {
    (0x80 + n % 0x40) as char
  }

  /** Runes are the encodings of Unicode scalar values: no surrogates, nothing overlong, nothing beyond U+10FFFF. */
  lemma EncodingsAreRunes(cp: int)
    requires Scalar(cp)
    ensures IsRune(Encode(cp))
  {
    if cp < 0x800 {
      ShortEncodingsAreRunes(cp);
    } else if cp < 0x10000 {
      ThreeByteEncodingsAreRunes(cp);
    } else {
      FourByteEncodingsAreRunes(cp);
    }
  }

  lemma ShortEncodingsAreRunes(cp: int)
    requires 0 <= cp < 0x800
    ensures IsRune(Encode(cp))
  {
  }

  lemma ThreeByteEncodingsAreRunes(cp: int)
    requires 0x800 <= cp < 0x10000 && Scalar(cp)
    ensures IsRune(Encode(cp))
  {
    var r := Encode(cp);
    TwiceShifted(cp);
    assert cp / 0x40 % 0x40 == cp / 0x40 - 0x40 * (cp / 0x1000);
    assert Tail(r[1]) && Tail(r[2]);
  }

  lemma FourByteEncodingsAreRunes(cp: int)
    requires 0x10000 <= cp && Scalar(cp)
    ensures IsRune(Encode(cp))
  {
    var r := Encode(cp);
    TwiceShifted(cp);
    assert cp / 0x1000 % 0x40 == cp / 0x1000 - 0x40 * (cp / 0x40000);
    assert Tail(r[1]) && Tail(r[2]) && Tail(r[3]);
  }

  lemma RunesAreEncodings(r: Rune) returns (cp: int)
    ensures Scalar(cp) && r == Encode(cp)
  {
    if |r| == 1 {
      cp := r[0] as int;
    } else if |r| == 2 {
      cp := Joined(r[0] as int - 0xC0, r[1]);
    } else if |r| == 3 {
      cp := ThreeBytes(r);
    } else {
      cp := FourBytes(r);
    }
  }

  /** Six more bits. */
  function Joined(n: nat, c: char): (m: nat)
    requires Tail(c)
    ensures m / 0x40 == n && Low(m) == c && m == n * 0x40 + (c as int - 0x80)
  {
    n * 0x40 + (c as int - 0x80)
  }

  lemma ThreeBytes(r: Rune) returns (cp: int)
    requires |r| == 3
    ensures Scalar(cp) && r == Encode(cp)
  {
    var n := Joined(r[0] as int - 0xE0, r[1]);
    cp := Joined(n, r[2]);
    TwiceShifted(cp);
    assert 0x800 <= cp < 0x10000;
    assert Encode(cp)[0] == r[0] && Encode(cp)[1] == r[1] && Encode(cp)[2] == r[2];
  }

  lemma FourBytes(r: Rune) returns (cp: int)
    requires |r| == 4
    ensures Scalar(cp) && r == Encode(cp)
  {
    var n := Joined(r[0] as int - 0xF0, r[1]);
    var m := Joined(n, r[2]);
    cp := Joined(m, r[3]);
    TwiceShifted(cp);
    TwiceShifted(m);
    assert 0x10000 <= cp <= 0x10FFFF;
    assert Encode(cp)[0] == r[0] && Encode(cp)[1] == r[1] && Encode(cp)[2] == r[2] && Encode(cp)[3] == r[3];
  }

  lemma TwiceShifted(n: nat)
    ensures n / 0x40 / 0x40 == n / 0x1000 && n / 0x1000 / 0x40 == n / 0x40000
  {
  }

  /** Go's `utf8.ValidString`. */
  predicate Valid(s: string) {
    s == "" || (RuneLength(s) > 0 && Valid(s[RuneLength(s)..]))
  }

  function Runes(s: string): (runes: seq<Rune>)
    requires Valid(s)
  {
    if s == "" then []
    else
      RuneIsPrefix(s);
      [s[..RuneLength(s)]] + Runes(s[RuneLength(s)..])
  }

  function Join(runes: seq<Rune>): string {
    if runes == [] then "" else runes[0] + Join(runes[1..])
  }

  lemma RuneIsPrefix(s: string)
    requires RuneLength(s) > 0
    ensures IsRune(s[..RuneLength(s)])
    ensures RuneStart(s[0]) && forall i :: 1 <= i < RuneLength(s) ==> Tail(s[i])
  {
  }

  /** A rune is recognized whatever follows it. */
  lemma RuneAtFront(r: Rune, rest: string)
    ensures RuneLength(r + rest) == |r|
    ensures (r + rest)[..|r|] == r && (r + rest)[|r|..] == rest
  {
  }

  lemma {:induction false} RunesOfJoin(runes: seq<Rune>)
    ensures Valid(Join(runes)) && Runes(Join(runes)) == runes
  {
    if runes != [] {
      RuneAtFront(runes[0], Join(runes[1..]));
      RunesOfJoin(runes[1..]);
    }
  }

  lemma {:induction false} JoinOfRunes(s: string)
    requires Valid(s)
    ensures Join(Runes(s)) == s
  {
    if s != "" {
      JoinOfRunes(s[RuneLength(s)..]);
      assert s == s[..RuneLength(s)] + s[RuneLength(s)..];
    }
  }

  lemma {:induction false} JoinOfConcat(a: seq<Rune>, b: seq<Rune>)
    ensures Join(a + b) == Join(a) + Join(b)
  {
    if a == [] {
      assert a + b == b;
    } else {
      assert (a + b)[1..] == a[1..] + b;
      JoinOfConcat(a[1..], b);
    }
  }

  lemma SliceInTwo(s: string, n: nat, i: nat)
    requires n <= i <= |s|
    ensures s[..i] == s[..n] + s[n..i]
    ensures s[n..][..i - n] == s[n..i]
  {
  }

  /** A prefix of valid text is valid exactly when it stops where a rune starts. */
  lemma {:induction false} Boundary(s: string, i: nat)
    requires Valid(s) && i <= |s|
    ensures Valid(s[..i]) <==> i == |s| || RuneStart(s[i])
  {
    var n := RuneLength(s);
    if i == |s| {
      assert s[..i] == s;
    } else {
      RuneIsPrefix(s);
      if 0 < i < n {
        assert s[..i][0] == s[0];
        assert RuneLength(s[..i]) == 0;
      } else if n <= i {
        Boundary(s[n..], i - n);
        RuneAtFront(s[..n], s[n..i]);
        SliceInTwo(s, n, i);
      }
    }
  }

  /** The last index at or below `cut` where a rune starts, or 0. */
  function CutBack(value: string, cut: nat): (at: nat)
    requires cut < |value|
    ensures at <= cut
    ensures at == 0 || RuneStart(value[at])
    ensures forall i :: at < i <= cut ==> Tail(value[i])
  {
    if cut > 0 && !RuneStart(value[cut]) then CutBack(value, cut - 1) else cut
  }

  function Truncated(value: string, maxBytes: int): (r: string)
    ensures r <= value
    ensures |r| <= maxBytes || r == ""
  {
    if maxBytes <= 0 then ""
    else if |value| <= maxBytes then value
    else value[..CutBack(value, maxBytes)]
  }

  /** The source's loop: step back from the limit until a rune starts. */
  method TruncateUTF8(value: string, maxBytes: int) returns (r: string)
    ensures r == Truncated(value, maxBytes)
  {
    if maxBytes <= 0 {
      return "";
    }
    if |value| <= maxBytes {
      return value;
    }
    var cut := maxBytes;
    while cut > 0 && !RuneStart(value[cut])
      invariant 0 <= cut <= maxBytes
      invariant CutBack(value, cut) == CutBack(value, maxBytes)
    {
      cut := cut - 1;
    }
    return value[..cut];
  }

  /** On valid text the result is the longest valid prefix within the limit. */
  lemma TruncatedIsLongestValidPrefix(value: string, maxBytes: int, p: string)
    requires Valid(value)
    ensures Valid(Truncated(value, maxBytes))
    ensures p <= value && Valid(p) && |p| <= maxBytes ==> p <= Truncated(value, maxBytes)
  {
    if 0 < maxBytes < |value| {
      var at := CutBack(value, maxBytes);
      Boundary(value, at);
      if p <= value && Valid(p) && |p| <= maxBytes {
        Boundary(value, |p|);
        assert p == value[..|p|];
      }
    }
  }
}
