/**
 Payload keys: folding for secret matching, bounding, and escaping of the keys that the
 sanitizer reserves for itself.
 */
module Keys {
  import opened Lex
  import opened Utf8

  // Folding

  /**
   `CanonicalizeKey`: lower-case the runes, keep ASCII letters and digits. Besides the ASCII
   letters, exactly two runes have an ASCII letter as their lower case: U+0130 (bytes C4 B0)
   folds to `i` and U+212A (bytes E2 84 AA) to `k`. Neither C4 nor E2 can continue another
   rune, so scanning bytes finds the same runes that decoding does, in malformed text too.
   */
  function Canonical(key: string): (r: string)
    ensures Folded(r)
  {
    if key == "" then "" else FoldFirst(key).0 + Canonical(key[FoldFirst(key).1..])
  }

  /** What the first rune contributes, and the number of bytes it takes (1 where it contributes nothing). */
  function FoldFirst(key: string): (r: (string, nat))
    requires key != ""
    ensures Folded(r.0) && 1 <= r.1 <= |key|
  {
    if 'a' <= LowerAscii(key[0]) <= 'z' || '0' <= key[0] <= '9' then ([LowerAscii(key[0])], 1)
    else if DOTTED_CAPITAL_I <= key then ("i", 2)
    else if KELVIN_SIGN <= key then ("k", 3)
    else ("", 1)
  }

  predicate Folded(s: string) {
    forall i :: 0 <= i < |s| ==> 'a' <= s[i] <= 'z' || '0' <= s[i] <= '9'
  }

  const DOTTED_CAPITAL_I := [0xC4 as char, 0xB0 as char]
  const KELVIN_SIGN := [0xE2 as char, 0x84 as char, 0xAA as char]

  function LowerAscii(c: char): char {
    if 'A' <= c <= 'Z' then (c as int + 32) as char else c
  }

  /** Case and ASCII punctuation do not matter, wherever they stand in the key. */
  lemma {:induction false} FoldingIgnoresCaseAndPunctuation(key: string, i: nat, c: char)
    requires i < |key| && c as int < 0x80 && key[i] as int < 0x80
    requires Canonical([c]) == Canonical([key[i]])
    ensures Canonical(key[i := c]) == Canonical(key)
  {
    var changed := key[i := c];
    if i == 0 {
      assert changed[1..] == key[1..];
      FoldFirstIsLocal(changed);
      FoldFirstIsLocal(key);
    } else {
      var n := FoldFirst(key).1;
      FoldFirstAhead(key, i, c);
      FoldingIgnoresCaseAndPunctuation(key[n..], i - n, c);
      assert changed[n..] == key[n..][i - n := c];
    }
  }

  lemma FoldFirstIsLocal(key: string)
    requires key != "" && key[0] as int < 0x80
    ensures FoldFirst(key) == (Canonical([key[0]]), 1)
  {
    var first := [key[0]];
    assert first[1..] == "" && FoldFirst(first).1 == 1;
    assert Canonical(first) == FoldFirst(first).0 + "";
    assert !(DOTTED_CAPITAL_I <= key) && !(KELVIN_SIGN <= key);
    assert FoldFirst(key).1 == 1;
    assert FoldFirst(key).0 == FoldFirst(first).0;
    assert Canonical(first) == FoldFirst(first).0;
  }

  /** What becomes of one ASCII character: letters lose their case, digits stay, all else goes. */
  lemma AsciiFolds(c: char)
    requires c as int < 0x80
    ensures 'A' <= c <= 'Z' ==> Canonical([c]) == ["abcdefghijklmnopqrstuvwxyz"[c as int - 'A' as int]]
    ensures 'a' <= c <= 'z' || '0' <= c <= '9' ==> Canonical([c]) == [c]
    ensures !('A' <= c <= 'Z' || 'a' <= c <= 'z' || '0' <= c <= '9') ==> Canonical([c]) == ""
  {
    assert [c][1..] == "";
    assert Canonical([c]) == FoldFirst([c]).0 + "";
  }

  /** ASCII text is folded character by character, whatever stands behind it. */
  lemma {:induction false} FoldingIsPiecewise(ascii: string, rest: string)
    requires forall i :: 0 <= i < |ascii| ==> ascii[i] as int < 0x80
    ensures Canonical(ascii + rest) == Canonical(ascii) + Canonical(rest)
  {
    hide FoldFirst;
    if ascii == "" {
      assert ascii + rest == rest;
    } else {
      FoldFirstIsLocal(ascii + rest);
      FoldFirstIsLocal(ascii);
      assert (ascii + rest)[1..] == ascii[1..] + rest;
      FoldingIsPiecewise(ascii[1..], rest);
    }
  }

  lemma FoldFirstAhead(key: string, i: nat, c: char)
    requires 0 < i < |key| && c as int < 0x80 && key[i] as int < 0x80
    ensures FoldFirst(key[i := c]) == FoldFirst(key) && FoldFirst(key).1 <= i
  {
    assert key[i := c][0] == key[0];
    assert DOTTED_CAPITAL_I <= key ==> key[1] as int == 0xB0;
    assert KELVIN_SIGN <= key ==> key[1] as int == 0x84 && key[2] as int == 0xAA;
    assert DOTTED_CAPITAL_I <= key[i := c] ==> key[i := c][1] as int == 0xB0;
    assert KELVIN_SIGN <= key[i := c] ==> key[i := c][1] as int == 0x84 && key[i := c][2] as int == 0xAA;
  }

  lemma {:induction false} FoldedIsFixed(s: string)
    requires Folded(s)
    ensures Canonical(s) == s
  {
    hide FoldFirst;
    if s != "" {
      FoldedFirst(s);
      FoldedIsFixed(s[1..]);
      assert s == [s[0]] + s[1..];
    }
  }

  lemma FoldedFirst(s: string)
    requires s != "" && Folded(s)
    ensures FoldFirst(s) == ([s[0]], 1)
  {
  }

  lemma FoldingIsIdempotent(key: string)
    ensures Canonical(Canonical(key)) == Canonical(key)
  {
    FoldedIsFixed(Canonical(key));
  }

  /** Folding as the documentation describes it: ASCII letters and digits only. */
  function AsciiCanonical(key: string): string {
    if key == "" then ""
    else
      (if 'a' <= LowerAscii(key[0]) <= 'z' || '0' <= key[0] <= '9' then [LowerAscii(key[0])] else "")
      + AsciiCanonical(key[1..])
  }

  predicate HasLookalike(key: string) {
    Contains(key, DOTTED_CAPITAL_I) || Contains(key, KELVIN_SIGN)
  }

  lemma ContainsFromFront(s: string, fragment: string)
    requires s != "" && fragment != ""
    ensures Contains(s, fragment) <==> fragment <= s || Contains(s[1..], fragment)
  {
    if fragment <= s { assert fragment <= s[0..]; }
    if Contains(s, fragment) && !(fragment <= s) {
      var i :| 0 <= i <= |s| && fragment <= s[i..];
      assert i > 0 && s[i..] == s[1..][i - 1..];
    }
    if Contains(s[1..], fragment) {
      var i :| 0 <= i <= |s[1..]| && fragment <= s[1..][i..];
      assert s[1..][i..] == s[i + 1..];
    }
  }

  /** Exactly the keys without U+0130 and U+212A are folded as documented; others fold to something longer. */
  lemma {:induction false} FoldingIsAsciiExactlyWithoutLookalikes(key: string)
    ensures Canonical(key) == AsciiCanonical(key) <==> !HasLookalike(key)
    ensures HasLookalike(key) ==> |Canonical(key)| > |AsciiCanonical(key)|
  {
    hide Contains;
    if key == "" {
      NothingContained();
    } else {
      ContainsFromFront(key, DOTTED_CAPITAL_I);
      ContainsFromFront(key, KELVIN_SIGN);
      var n := FoldFirst(key).1;
      FoldingIsAsciiExactlyWithoutLookalikes(key[n..]);
      if DOTTED_CAPITAL_I <= key {
        AsciiSkips(key, DOTTED_CAPITAL_I);
      } else if KELVIN_SIGN <= key {
        AsciiSkips(key, KELVIN_SIGN);
      }
    }
  }

  lemma NothingContained()
    ensures !HasLookalike("")
  {
  }

  lemma AsciiSkips(key: string, lookalike: string)
    requires lookalike == DOTTED_CAPITAL_I || lookalike == KELVIN_SIGN
    requires lookalike <= key
    ensures AsciiCanonical(key) == AsciiCanonical(key[|lookalike|..])
    ensures FoldFirst(key) == (if lookalike == KELVIN_SIGN then "k" else "i", |lookalike|)
  {
    assert key[0] == lookalike[0] && key[1] == lookalike[1];
    assert key[1..][1..] == key[2..];
    assert AsciiCanonical(key) == AsciiCanonical(key[1..]) == AsciiCanonical(key[2..]);
    if lookalike == KELVIN_SIGN {
      assert key[2] == lookalike[2] && key[2..][1..] == key[3..];
      assert AsciiCanonical(key[2..]) == AsciiCanonical(key[3..]);
    }
  }

  /**
   The documentation calls folding ASCII and lookalike letters unmatched; the code folds two
   non-ASCII letters. So "to", U+212A KELVIN SIGN, "en" matches the secret "token".
   */
  lemma {:induction false} KelvinSignFoldsToK(a: string, b: string)
    requires Folded(a) && Folded(b)
    ensures Canonical(a + KELVIN_SIGN + b) == a + "k" + b
  {
    var key := a + KELVIN_SIGN + b;
    if a == "" {
      assert KELVIN_SIGN <= key && key[3..] == b;
      AsciiSkips(key, KELVIN_SIGN);
      FoldedIsFixed(b);
    } else {
      FoldFirstIsLocal(key);
      FoldedIsFixed([a[0]]);
      assert key[1..] == a[1..] + KELVIN_SIGN + b;
      KelvinSignFoldsToK(a[1..], b);
      assert a == [a[0]] + a[1..];
    }
  }

  /** The source's loop over the runes of the lower-cased key. */
  method CanonicalizeKey(key: string) returns (builder: string)
    ensures builder == Canonical(key)
  {
    builder := "";
    var rest := key;
    while rest != ""
      invariant builder + Canonical(rest) == Canonical(key)
      decreases |rest|
    {
      var folded := FoldFirst(rest);
      builder, rest := builder + folded.0, rest[folded.1..];
    }
  }

  // Secrets

  const SENSITIVE_KEY_FRAGMENTS := [
    "password", "passwd", "secret", "token", "apikey", "privatekey", "credential",
    "authorization", "cookie", "session", "bearer", "signature", "jwt", "accesskey"
  ]

  /** `isSensitiveKey`, over the canonical keys of a configuration. */
  predicate IsSensitiveKey(sensitiveKeySet: set<string>, strict: bool, key: string) {
    var canonical := Canonical(key);
    && canonical != ""
    && (canonical in sensitiveKeySet
        || (!strict && exists f | f in SENSITIVE_KEY_FRAGMENTS :: Contains(canonical, f)))
  }

  /** A fragment of the list is somewhere in the folded key. */
  ghost predicate HoldsFragment(canonical: string) {
    exists before, fragment, after :: fragment in SENSITIVE_KEY_FRAGMENTS && canonical == before + fragment + after
  }

  lemma FragmentsAreNotEmpty()
    ensures forall f :: f in SENSITIVE_KEY_FRAGMENTS ==> f != ""
  {
  }

  lemma FragmentsAreFound(canonical: string)
    ensures HoldsFragment(canonical) <==> exists f | f in SENSITIVE_KEY_FRAGMENTS :: Contains(canonical, f)
    ensures HoldsFragment(canonical) ==> canonical != ""
  {
    hide SENSITIVE_KEY_FRAGMENTS;
    FragmentsAreNotEmpty();
    if before, fragment, after :| fragment in SENSITIVE_KEY_FRAGMENTS && canonical == before + fragment + after {
      assert canonical[|before|..] == fragment + after;
      assert Contains(canonical, fragment);
    }
    if f :| f in SENSITIVE_KEY_FRAGMENTS && Contains(canonical, f) {
      var i :| 0 <= i <= |canonical| && f <= canonical[i..];
      assert canonical == canonical[..i] + f + canonical[i + |f|..];
    }
  }

  /**
   Exactly the secret keys: those that fold like a key of the set, or, unless matching is strict,
   those whose folded form holds a fragment.
   */
  lemma SecretExactly(sensitiveKeySet: set<string>, strict: bool, key: string)
    ensures IsSensitiveKey(sensitiveKeySet, strict, key)
            <==> || (Canonical(key) != "" && Canonical(key) in sensitiveKeySet)
                 || (!strict && HoldsFragment(Canonical(key)))
  {
    hide Contains;
    FragmentsAreFound(Canonical(key));
  }

  // Escaping

  const MARKER_NAMES := {"binary", "truncated", "encoding_error", "omitted_items"}

  function WithoutUnderscores(key: string): (r: string)
    ensures r == "" || r[0] != '_'
  {
    if key != "" && key[0] == '_' then WithoutUnderscores(key[1..]) else key
  }

  /** `reservedKeyPattern`: at least one underscore, then one of the four names. */
  predicate Reserved(key: string) {
    key != "" && key[0] == '_' && WithoutUnderscores(key) in MARKER_NAMES
  }

  /** The keys that the sanitizer itself writes. */
  predicate Marker(key: string) {
    key in {"_binary", "_truncated", "_encoding_error", "_omitted_items"}
  }

  /** What `assign` does to a bounded key. */
  function Escape(key: string): string {
    if Reserved(key) then "_" + key else key
  }

  function Unescape(key: string): string {
    if Reserved(key) && Reserved(key[1..]) then key[1..] else key
  }

  function Underscores(n: nat): string {
    if n == 0 then "" else "_" + Underscores(n - 1)
  }

  /** The pattern, spelled out: some underscores, at least one, and one of the names. */
  lemma {:induction false} ReservedExactly(key: string)
    ensures Reserved(key) <==> exists n: nat, name ::
              && n > 0 && key == Underscores(n) + name
              && name in {"binary", "truncated", "encoding_error", "omitted_items"}
  {
    var n, rest := LeadingUnderscores(key);
    if Reserved(key) {
      assert n > 0 && key == Underscores(n) + rest;
    }
    if m: nat, name :| m > 0 && key == Underscores(m) + name && name in {"binary", "truncated", "encoding_error", "omitted_items"} {
      WithoutTheseUnderscores(m, name);
      assert key[0] == Underscores(m)[0];
    }
  }

  lemma {:induction false} LeadingUnderscores(key: string) returns (n: nat, rest: string)
    ensures key == Underscores(n) + rest && rest == WithoutUnderscores(key)
    ensures n > 0 <==> key != "" && key[0] == '_'
  {
    hide Underscores;
    OneMoreUnderscore(0, key);
    if key != "" && key[0] == '_' {
      var m: nat;
      m, rest := LeadingUnderscores(key[1..]);
      n := m + 1;
      assert key == "_" + key[1..];
      OneMoreUnderscore(m, rest);
    } else {
      n, rest := 0, key;
    }
  }

  lemma OneMoreUnderscore(n: nat, rest: string)
    ensures Underscores(n + 1) + rest == "_" + (Underscores(n) + rest)
    ensures Underscores(0) + rest == rest
  {
  }

  lemma {:induction false} WithoutTheseUnderscores(n: nat, name: string)
    requires name != "" && name[0] != '_'
    ensures WithoutUnderscores(Underscores(n) + name) == name
  {
    if n == 0 {
      assert Underscores(0) + name == name;
    } else {
      assert (Underscores(n) + name)[1..] == Underscores(n - 1) + name;
      WithoutTheseUnderscores(n - 1, name);
    }
  }

  lemma ReservedUnderscore(key: string)
    requires Reserved(key)
    ensures Reserved("_" + key)
  {
    assert ("_" + key)[1..] == key;
  }

  lemma MarkersAreTheShortestReserved(key: string)
    ensures Marker(key) <==> Reserved(key) && !Reserved(key[1..])
  {
    assert "_" + "binary" == "_binary" && "_" + "truncated" == "_truncated";
    assert "_" + "encoding_error" == "_encoding_error" && "_" + "omitted_items" == "_omitted_items";
    if Marker(key) {
      assert WithoutUnderscores(key[1..]) == key[1..];
    }
    if Reserved(key) {
      assert key == "_" + key[1..];
      assert WithoutUnderscores(key) == WithoutUnderscores(key[1..]);
    }
  }

  lemma EscapeRoundTrips(key: string)
    ensures Unescape(Escape(key)) == key
  {
    if Reserved(key) {
      ReservedUnderscore(key);
      assert ("_" + key)[1..] == key;
    }
  }

  /** The escaped keys are exactly the strings other than the four markers. */
  lemma EscapeAvoidsExactlyTheMarkers(e: string)
    ensures Marker(e) <==> !exists key :: Escape(key) == e
  {
    MarkersAreTheShortestReserved(e);
    if Marker(e) {
      forall key ensures Escape(key) != e {
        if Reserved(key) { assert ("_" + key)[1..] == key; }
      }
    } else if Reserved(e) {
      assert "_" + e[1..] == e;
      assert Escape(e[1..]) == e;
    } else {
      assert Escape(e) == e;
    }
  }

  // Bounding

  const KEY_DIGEST_SEPARATOR := "~"
  const KEY_DIGEST_CHARS := 16
  const MIN_MAX_KEY_BYTES := 32

  /** SHA-256 cut to 8 bytes and printed in hex is represented by an arbitrary such function. */
  ghost predicate IsDigest(digest: string -> string) {
    forall key :: |digest(key)| == KEY_DIGEST_CHARS
  }

  function NormalizeKey(digest: string -> string, maxKeyBytes: nat, key: string): string {
    if |key| <= maxKeyBytes then key
    else
      var suffix := KEY_DIGEST_SEPARATOR + digest(key);
      Truncated(key, maxKeyBytes - |suffix|) + suffix
  }

  function AssignedKey(digest: string -> string, maxKeyBytes: nat, key: string): string {
    Escape(NormalizeKey(digest, maxKeyBytes, key))
  }

  /** What a key is assigned: itself within the limit, with one more underscore if it is reserved. */
  lemma ShortKeysAreSpelledOut(digest: string -> string, maxKeyBytes: nat, key: string)
    requires |key| <= maxKeyBytes
    ensures AssignedKey(digest, maxKeyBytes, key) == key || AssignedKey(digest, maxKeyBytes, key) == "_" + key
    ensures AssignedKey(digest, maxKeyBytes, key) == "_" + key <==> Reserved(key)
  {
    assert |"_" + key| != |key|;
  }

  /**
   A longer one becomes as much of it as fits, a tilde, and its digest. Of a valid key that is the
   longest valid prefix; of any other, nothing but continuation bytes is cut off below the limit.
   */
  lemma LongKeysKeepTheirFront(digest: string -> string, maxKeyBytes: nat, key: string) returns (front: string)
    requires IsDigest(digest) && maxKeyBytes >= MIN_MAX_KEY_BYTES && |key| > maxKeyBytes
    ensures AssignedKey(digest, maxKeyBytes, key) == front + "~" + digest(key)
    ensures front <= key && |front| + 17 <= maxKeyBytes
    ensures forall i :: |front| < i <= maxKeyBytes - 17 ==> Tail(key[i])
    ensures Valid(key) ==> Valid(front) && forall p :: p <= key && Valid(p) && |p| + 17 <= maxKeyBytes ==> p <= front
  {
    hide Utf8.Valid, Truncated, AssignedKey;
    var room := maxKeyBytes - 17;
    front := Truncated(key, room);
    LongKeysAreCut(digest, maxKeyBytes, key);
    TruncatedDropsOnlyTails(key, room);
    if Valid(key) {
      TruncatedIsLongestValidPrefix(key, room, "");
      forall p | p <= key && Valid(p) && |p| + 17 <= maxKeyBytes ensures p <= front {
        TruncatedIsLongestValidPrefix(key, room, p);
      }
    }
  }

  lemma LongKeysAreCut(digest: string -> string, maxKeyBytes: nat, key: string)
    requires IsDigest(digest) && maxKeyBytes >= MIN_MAX_KEY_BYTES && |key| > maxKeyBytes
    ensures AssignedKey(digest, maxKeyBytes, key) == Truncated(key, maxKeyBytes - 17) + "~" + digest(key)
  {
    hide Truncated, Reserved, Marker;
    AssignedKeyIsBounded(digest, maxKeyBytes, key);
    BoundedIsCut(digest, maxKeyBytes, key);
  }

  lemma BoundedIsCut(digest: string -> string, maxKeyBytes: nat, key: string)
    requires IsDigest(digest) && maxKeyBytes >= MIN_MAX_KEY_BYTES && |key| > maxKeyBytes
    ensures NormalizeKey(digest, maxKeyBytes, key) == Truncated(key, maxKeyBytes - 17) + "~" + digest(key)
  {
    hide Truncated;
    var suffix := KEY_DIGEST_SEPARATOR + digest(key);
    assert |suffix| == 17;
    assert Truncated(key, maxKeyBytes - 17) + suffix == Truncated(key, maxKeyBytes - 17) + "~" + digest(key);
  }

  lemma TruncatedDropsOnlyTails(text: string, room: nat)
    requires room < |text|
    ensures |Truncated(text, room)| <= room
    ensures forall i :: |Truncated(text, room)| < i <= room ==> Tail(text[i])
  {
  }

  lemma {:induction false} ReservedHasNoSeparator(key: string)
    requires WithoutUnderscores(key) in MARKER_NAMES
    ensures '~' !in key
  {
    if key != "" && key[0] == '_' {
      ReservedHasNoSeparator(key[1..]);
      assert key == "_" + key[1..];
    }
  }

  /** Output keys are bounded, one more byte when escaped; a truncated key is never escaped. */
  lemma AssignedKeyIsBounded(digest: string -> string, maxKeyBytes: nat, key: string)
    requires IsDigest(digest) && maxKeyBytes >= MIN_MAX_KEY_BYTES
    ensures |NormalizeKey(digest, maxKeyBytes, key)| <= maxKeyBytes
    ensures |AssignedKey(digest, maxKeyBytes, key)| <= maxKeyBytes + 1
    ensures |key| > maxKeyBytes ==> !Reserved(NormalizeKey(digest, maxKeyBytes, key))
    ensures !Marker(AssignedKey(digest, maxKeyBytes, key))
  {
    var bounded := NormalizeKey(digest, maxKeyBytes, key);
    if |key| > maxKeyBytes {
      assert bounded[|bounded| - KEY_DIGEST_CHARS - 1] == '~';
      if Reserved(bounded) { ReservedHasNoSeparator(bounded); }
    }
    EscapeAvoidsExactlyTheMarkers(Escape(bounded));
  }

  /**
   Exactly when two different keys collapse into one. The source calls the mapping
   collision-free; it is not, because a short key may literally spell a truncated one.
   With distinct digests that is the only way: no two keys of the same length class collide.
   */
  lemma CollisionExactly(digest: string -> string, maxKeyBytes: nat, a: string, b: string)
    requires IsDigest(digest) && a != b
    requires |a| > maxKeyBytes && |b| > maxKeyBytes ==> digest(a) != digest(b)
    ensures AssignedKey(digest, maxKeyBytes, a) == AssignedKey(digest, maxKeyBytes, b)
            <==> SpellsTruncated(digest, maxKeyBytes, a, b) || SpellsTruncated(digest, maxKeyBytes, b, a)
  {
    EscapeRoundTrips(NormalizeKey(digest, maxKeyBytes, a));
    EscapeRoundTrips(NormalizeKey(digest, maxKeyBytes, b));
    if |a| > maxKeyBytes && |b| > maxKeyBytes {
      EndsInDigest(digest, maxKeyBytes, a);
      EndsInDigest(digest, maxKeyBytes, b);
    }
  }

  lemma EndsInDigest(digest: string -> string, maxKeyBytes: nat, key: string)
    requires IsDigest(digest) && |key| > maxKeyBytes
    ensures var bounded := NormalizeKey(digest, maxKeyBytes, key);
            |bounded| >= KEY_DIGEST_CHARS && bounded[|bounded| - KEY_DIGEST_CHARS..] == digest(key)
  {
    hide Truncated;
    var front := Truncated(key, maxKeyBytes - |KEY_DIGEST_SEPARATOR + digest(key)|) + KEY_DIGEST_SEPARATOR;
    assert NormalizeKey(digest, maxKeyBytes, key) == front + digest(key);
  }

  /** `short` is within the limit and is byte for byte the truncation of the long key `long`. */
  predicate SpellsTruncated(digest: string -> string, maxKeyBytes: nat, short: string, long: string) {
    |short| <= maxKeyBytes < |long| && short == NormalizeKey(digest, maxKeyBytes, long)
  }

  /** Every key over the limit has such a twin. */
  lemma EveryLongKeyHasATwin(digest: string -> string, maxKeyBytes: nat, long: string)
    requires IsDigest(digest) && maxKeyBytes >= MIN_MAX_KEY_BYTES && |long| > maxKeyBytes
    ensures exists short ::
      && short != long
      && AssignedKey(digest, maxKeyBytes, short) == AssignedKey(digest, maxKeyBytes, long)
  {
    var short := NormalizeKey(digest, maxKeyBytes, long);
    AssignedKeyIsBounded(digest, maxKeyBytes, long);
    assert AssignedKey(digest, maxKeyBytes, short) == AssignedKey(digest, maxKeyBytes, long);
  }
}
