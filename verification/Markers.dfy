/** The sanitizer's own keys in the emitted JSON, and what a reader of that JSON can tell apart. */
module Markers {
  import opened Wrappers
  import opened Lex
  import opened Decimals
  import opened Utf8
  import opened Keys
  import opened Configurations
  import opened Payload
  import opened Budget
  import opened Output

  // The JSON of a sanitized value

  /**
   JSON as a decoder sees it: strings without their escapes, members in the order written, numbers
   as they are spelled. A `JsonHex` is a text, two hex digits for each of its bytes; it stands
   nowhere but in the preview of a binary marker.
   */
  datatype Json =
    | JsonNull
    | JsonBool(b: bool)
    | JsonNumber(literal: string)
    | JsonText(text: string)
    | JsonHex(bytes: string)
    | JsonObject(members: seq<Member>)
    | JsonArray(elements: seq<Json>)

  datatype Member = Member(key: string, value: Json)

  /** How a finite float is spelled is left open. */
  type FloatSpelling = real -> string

  function Decimal(i: int): string {
    if i < 0 then "-" + Itoa(-i) else Itoa(i)
  }

  /** The text of a leaf that is a JSON string: payload text, or one of the sanitizer's bracketed markers. */
  function Spelled(leaf: Leaf): Option<string> {
    match leaf
    case Text(text) => Some(text)
    case Plain(NonFinite(name)) => Some(name)
    case MaxDepthExceeded => Some("[MAX_DEPTH_EXCEEDED]")
    case CircularReference => Some("[CIRCULAR_REFERENCE]")
    case Redacted => Some("[REDACTED]")
    case SerializationFailed(typeName) => Some("[SERIALIZATION_FAILED: " + typeName + "]")
    case UnsupportedType(typeName) => Some("[UNSUPPORTED_TYPE: " + typeName + "]")
    case _ => None
  }

  function LeafJson(spell: FloatSpelling, leaf: Leaf): Json {
    match leaf
    case Null => JsonNull
    case Plain(Bool(b)) => JsonBool(b)
    case Plain(Int(i)) => JsonNumber(Decimal(i))
    case Plain(Uint(u)) => JsonNumber(Itoa(u))
    case Plain(Finite(f)) => JsonNumber(spell(f))
    case Plain(Number(literal)) => JsonNumber(literal)
    case BinaryMarker(size, preview) => MarkerObject("_binary", JsonHex(preview), size)
    case TruncatedMarker(size, preview) => MarkerObject("_truncated", JsonText(preview), size)
    case _ => JsonText(Spelled(leaf).value)
  }

  function MarkerObject(key: string, preview: Json, size: nat): Json {
    JsonObject([Member(key, JsonBool(true)), Member("preview", preview), Member("size_bytes", JsonNumber(Itoa(size)))])
  }

  /** Each kind of leaf, spelled out. */
  lemma LeavesAreSpelledOut(spell: FloatSpelling, leaf: Leaf)
    ensures LeafJson(spell, leaf) ==
            match leaf
            case Null => JsonNull
            case Plain(Bool(b)) => JsonBool(b)
            case Plain(Int(i)) => JsonNumber(if i < 0 then "-" + Itoa(-i) else Itoa(i))
            case Plain(Uint(u)) => JsonNumber(Itoa(u))
            case Plain(Finite(f)) => JsonNumber(spell(f))
            case Plain(NonFinite(name)) => JsonText(name)
            case Plain(Number(literal)) => JsonNumber(literal)
            case Text(text) => JsonText(text)
            case BinaryMarker(size, preview) =>
              JsonObject([Member("_binary", JsonBool(true)), Member("preview", JsonHex(preview)),
                          Member("size_bytes", JsonNumber(Itoa(size)))])
            case TruncatedMarker(size, preview) =>
              JsonObject([Member("_truncated", JsonBool(true)), Member("preview", JsonText(preview)),
                          Member("size_bytes", JsonNumber(Itoa(size)))])
            case MaxDepthExceeded => JsonText("[MAX_DEPTH_EXCEEDED]")
            case CircularReference => JsonText("[CIRCULAR_REFERENCE]")
            case Redacted => JsonText("[REDACTED]")
            case SerializationFailed(typeName) => JsonText("[SERIALIZATION_FAILED: " + typeName + "]")
            case UnsupportedType(typeName) => JsonText("[UNSUPPORTED_TYPE: " + typeName + "]")
  {
    hide Itoa;
  }

  const OMITTED_ITEMS := "_omitted_items"
  const REPLACEMENT := [0xEF as char, 0xBF as char, 0xBD as char]

  /** The encoder replaces each malformed byte of a key by U+FFFD. */
  function Repaired(key: string): string {
    if key == "" then ""
    else if RuneLength(key) > 0 then key[..RuneLength(key)] + Repaired(key[RuneLength(key)..])
    else REPLACEMENT + Repaired(key[1..])
  }

  /** The encoder sorts the members by their keys, before it repairs them. */
  function WireKeys(names: set<string>, omitted: nat): (keys: seq<string>)
    ensures forall i :: 0 <= i < |keys| ==> keys[i] in names || (keys[i] == OMITTED_ITEMS && omitted > 0)
  {
    var keys := SortedKeys(if omitted > 0 then names + {OMITTED_ITEMS} else names);
    assert forall i :: 0 <= i < |keys| ==> keys[i] in keys;
    keys
  }

  function Wire(spell: FloatSpelling, out: Out): Json {
    match out
    case Scalar(leaf) => LeafJson(spell, leaf)
    case Data(fields, omitted) =>
      var keys := WireKeys(fields.Keys, omitted);
      JsonObject(seq(|keys|, i requires 0 <= i < |keys| =>
        Member(Repaired(keys[i]),
               if keys[i] == OMITTED_ITEMS && omitted > 0 then JsonNumber(Itoa(omitted))
               else Wire(spell, fields[keys[i]]))))
    case Items(items, omitted) =>
      var elements := seq(|items|, i requires 0 <= i < |items| => Wire(spell, items[i]));
      JsonArray(if omitted > 0 then elements + [OmissionObject(omitted)] else elements)
  }

  function OmissionObject(omitted: nat): Json {
    JsonObject([Member(OMITTED_ITEMS, JsonNumber(Itoa(omitted)))])
  }

  predicate HasMember(json: Json, key: string) {
    json.JsonObject? && exists i | 0 <= i < |json.members| :: json.members[i].key == key
  }

  // Keys on the wire

  predicate Ascii(s: string) {
    forall i :: 0 <= i < |s| ==> s[i] as int < 0x80
  }

  /** Repairing never makes a key that is spelled in ASCII out of another one. */
  lemma {:induction false} RepairedIsAsciiOnlyIfItWas(key: string, ascii: string)
    requires Ascii(ascii)
    ensures Repaired(key) == ascii <==> key == ascii
  {
    if key != "" && ascii != "" {
      if key[0] as int < 0x80 {
        assert RuneLength(key) == 1;
        RepairedIsAsciiOnlyIfItWas(key[1..], ascii[1..]);
        assert key == [key[0]] + key[1..] && ascii == [ascii[0]] + ascii[1..];
      } else {
        assert Repaired(key)[0] as int >= 0x80;
      }
    }
  }

  /** Nor does it move a key past one that is spelled in ASCII. */
  lemma {:induction false} RepairingKeepsOrder(key: string, ascii: string)
    requires Ascii(ascii)
    ensures Less(Repaired(key), ascii) <==> Less(key, ascii)
  {
    if key != "" && ascii != "" {
      if key[0] as int < 0x80 {
        assert RuneLength(key) == 1;
        RepairingKeepsOrder(key[1..], ascii[1..]);
      } else {
        assert Repaired(key)[0] as int >= 0x80;
      }
    }
  }

  /** Exactly well-formed keys reach the reader as they are. */
  lemma {:induction false} RepairingChangesExactlyTheMalformed(key: string)
    ensures |Repaired(key)| >= |key|
    ensures Repaired(key) == key <==> Utf8.Valid(key)
    ensures |Repaired(key)| == |key| <==> Utf8.Valid(key)
  {
    if key != "" {
      var n := RuneLength(key);
      if n > 0 {
        RepairingChangesExactlyTheMalformed(key[n..]);
        assert key == key[..n] + key[n..];
      } else {
        RepairingChangesExactlyTheMalformed(key[1..]);
      }
    }
  }

  /** No payload key anywhere in the result is one of the four markers, and all keys are bounded. */
  ghost predicate Genuine(out: Out, maxKeyBytes: nat) {
    match out
    case Scalar(_) => true
    case Data(fields, _) =>
      forall key :: key in fields ==> !Marker(key) && |key| <= maxKeyBytes + 1 && Genuine(fields[key], maxKeyBytes)
    case Items(items, _) => forall i :: 0 <= i < |items| ==> Genuine(items[i], maxKeyBytes)
  }

  lemma {:induction false} EmittedIsGenuine(configuration: Configuration, tree: Tree)
    requires IsDigest(configuration.digest) && configuration.maxKeyBytes >= MIN_MAX_KEY_BYTES
    ensures Genuine(Emit(configuration, tree), configuration.maxKeyBytes)
    decreases tree, 1
  {
    match tree
    case Atom(_) =>
    case Branch(Object, kids, _) => AssignedIsGenuine(configuration, kids);
    case Branch(List, kids, _) => EmittedListIsGenuine(configuration, kids);
  }

  lemma {:induction false} AssignedIsGenuine(configuration: Configuration, kids: seq<Kid>)
    requires IsDigest(configuration.digest) && configuration.maxKeyBytes >= MIN_MAX_KEY_BYTES
    ensures Genuine(Data(Assigned(configuration, kids), 0), configuration.maxKeyBytes)
    decreases kids, 0
  {
    hide AssignedKey, Emit, IsDigest, Marker, NameOf, NormalizeKey;
    if kids != [] {
      var kid := Last(kids);
      AssignedIsGenuine(configuration, kids[..|kids| - 1]);
      EmittedIsGenuine(configuration, kid.tree);
      AssignedKeyIsBounded(configuration.digest, configuration.maxKeyBytes, NameOf(kid.place));
    }
  }

  lemma {:induction false} EmittedListIsGenuine(configuration: Configuration, kids: seq<Kid>)
    requires IsDigest(configuration.digest) && configuration.maxKeyBytes >= MIN_MAX_KEY_BYTES
    ensures Genuine(Items(Emitted(configuration, kids), 0), configuration.maxKeyBytes)
    decreases kids, 0
  {
    if kids != [] {
      var kid := Last(kids);
      EmittedListIsGenuine(configuration, kids[..|kids| - 1]);
      EmittedIsGenuine(configuration, kid.tree);
    }
  }

  /** The members of an object: one per payload entry, and the omission marker. */
  lemma DataMembers(spell: FloatSpelling, fields: map<string, Out>, omitted: nat, key: string, maxKeyBytes: nat)
    requires Genuine(Data(fields, omitted), maxKeyBytes)
    ensures Wire(spell, Data(fields, omitted)).JsonObject?
    ensures HasMember(Wire(spell, Data(fields, omitted)), OMITTED_ITEMS) <==> omitted > 0
    ensures Marker(key) && key != OMITTED_ITEMS ==> !HasMember(Wire(spell, Data(fields, omitted)), key)
    ensures var members := Wire(spell, Data(fields, omitted)).members;
            && (key in fields ==> Member(Repaired(key), Wire(spell, fields[key])) in members)
            && (forall i :: 0 <= i < |members| && members[i].key == OMITTED_ITEMS ==>
                  omitted > 0 && members[i].value == JsonNumber(Itoa(omitted)))
  {
    hide Marker, Genuine, Repaired, Itoa, Less, SortedKeys;
    MarkersAreAscii(key);
    GenuineKeysAreNoMarkers(fields, omitted, maxKeyBytes);
    RepairedIsAsciiOnlyIfItWas(OMITTED_ITEMS, OMITTED_ITEMS);
    var keys, members := WireKeys(fields.Keys, omitted), Wire(spell, Data(fields, omitted)).members;
    forall i | 0 <= i < |members|
      ensures members[i].key == OMITTED_ITEMS ==> omitted > 0 && members[i].value == JsonNumber(Itoa(omitted))
      ensures Marker(key) && key != OMITTED_ITEMS ==> members[i].key != key
    {
      RepairedIsAsciiOnlyIfItWas(keys[i], OMITTED_ITEMS);
      if Marker(key) { RepairedIsAsciiOnlyIfItWas(keys[i], key); }
    }
    if key in fields {
      assert key in keys;
      var i :| 0 <= i < |keys| && keys[i] == key;
      assert members[i] == Member(Repaired(key), Wire(spell, fields[key]));
    }
    if omitted > 0 {
      assert OMITTED_ITEMS in keys;
      var i :| 0 <= i < |keys| && keys[i] == OMITTED_ITEMS;
      assert members[i] == Member(OMITTED_ITEMS, JsonNumber(Itoa(omitted)));
    }
  }

  lemma MarkersAreAscii(key: string)
    ensures Marker("_binary") && Marker("_truncated") && Marker("_omitted_items") && Marker("_encoding_error")
    ensures Marker(key) ==> Ascii(key)
    ensures Ascii(OMITTED_ITEMS) && Ascii("_binary") && Ascii("_truncated")
  {
  }

  lemma GenuineKeysAreNoMarkers(fields: map<string, Out>, omitted: nat, maxKeyBytes: nat)
    requires Genuine(Data(fields, omitted), maxKeyBytes)
    ensures forall key :: key in fields ==> !Marker(key) && Genuine(fields[key], maxKeyBytes)
    ensures OMITTED_ITEMS !in fields
  {
    assert Marker(OMITTED_ITEMS);
  }

  /**
   In the JSON of any sanitized value, a marker key is there exactly if the sanitizer put it
   there, and with the sanitizer's value; the payload's own members are all there as well.
   */
  lemma MarkersAreUnforgeable(configuration: Configuration, spell: FloatSpelling, tree: Tree)
    requires IsDigest(configuration.digest) && configuration.maxKeyBytes >= MIN_MAX_KEY_BYTES
    ensures var out := Emit(configuration, tree);
            var json := Wire(spell, out);
            && (HasMember(json, "_binary") <==> tree.Atom? && tree.leaf.BinaryMarker?)
            && (HasMember(json, "_truncated") <==> tree.Atom? && tree.leaf.TruncatedMarker?)
            && (HasMember(json, "_omitted_items") <==> tree.Branch? && tree.shape.Object? && tree.omitted > 0)
            && !HasMember(json, "_encoding_error")
            && (tree.Branch? && json.JsonObject? ==> forall member :: member in json.members && member.key == "_omitted_items" ==>
                  member.value == JsonNumber(Itoa(tree.omitted)))
            && (out.Data? ==> forall key :: key in out.fields ==>
                  Member(Repaired(key), Wire(spell, out.fields[key])) in json.members)
  {
    hide AssignedKey, Assigned, Emitted, Marker, Genuine, Repaired, Itoa;
    EmittedIsGenuine(configuration, tree);
    MarkersAreAscii("");
    var out := Emit(configuration, tree);
    if out.Data? {
      ObjectsKeepTheirMarkers(configuration, spell, out.fields, out.omitted);
    } else if out.Scalar? {
      LeavesKeepTheirMarkers(spell, out.leaf);
    }
  }

  lemma LeavesKeepTheirMarkers(spell: FloatSpelling, leaf: Leaf)
    ensures HasMember(LeafJson(spell, leaf), "_binary") <==> leaf.BinaryMarker?
    ensures HasMember(LeafJson(spell, leaf), "_truncated") <==> leaf.TruncatedMarker?
    ensures !HasMember(LeafJson(spell, leaf), "_omitted_items") && !HasMember(LeafJson(spell, leaf), "_encoding_error")
  {
    hide Itoa, Spelled, Decimal;
    var json := LeafJson(spell, leaf);
    if json.JsonObject? {
      assert json.members[0].key == (if leaf.BinaryMarker? then "_binary" else "_truncated");
      assert json.members[1].key == "preview" && json.members[2].key == "size_bytes";
    }
  }

  lemma ObjectsKeepTheirMarkers(configuration: Configuration, spell: FloatSpelling, fields: map<string, Out>, omitted: nat)
    requires Genuine(Data(fields, omitted), configuration.maxKeyBytes)
    ensures var json := Wire(spell, Data(fields, omitted));
            && !HasMember(json, "_binary") && !HasMember(json, "_truncated") && !HasMember(json, "_encoding_error")
            && (HasMember(json, "_omitted_items") <==> omitted > 0)
            && (forall member :: member in json.members && member.key == "_omitted_items" ==>
                  member.value == JsonNumber(Itoa(omitted)))
            && forall key :: key in fields ==> Member(Repaired(key), Wire(spell, fields[key])) in json.members
  {
    hide Wire, Genuine, Marker, Repaired, Itoa;
    MarkersAreAscii("");
    var json, max := Wire(spell, Data(fields, omitted)), configuration.maxKeyBytes;
    DataMembers(spell, fields, omitted, "_binary", max);
    DataMembers(spell, fields, omitted, "_truncated", max);
    DataMembers(spell, fields, omitted, "_encoding_error", max);
    forall key | key in fields ensures Member(Repaired(key), Wire(spell, fields[key])) in json.members {
      DataMembers(spell, fields, omitted, key, max);
    }
  }

  /** The keys of one object do not get in each other's way. */
  ghost predicate NoCollisions(configuration: Configuration, kids: seq<Kid>) {
    forall i, j :: 0 <= i < j < |kids| ==>
      KeyAt(configuration, kids, i) != KeyAt(configuration, kids, j)
  }

  function KeyAt(configuration: Configuration, kids: seq<Kid>, i: nat): string
    requires i < |kids|
  {
    AssignedKey(configuration.digest, configuration.maxKeyBytes, NameOf(kids[i].place))
  }

  /** Then every kid is in the emitted object, under its own key, with its own value. */
  lemma {:induction false} WithoutCollisionsNothingIsOverwritten(configuration: Configuration, kids: seq<Kid>)
    requires NoCollisions(configuration, kids)
    ensures |Assigned(configuration, kids)| == |kids|
    ensures forall i :: 0 <= i < |kids| ==>
              && KeyAt(configuration, kids, i) in Assigned(configuration, kids)
              && Assigned(configuration, kids)[KeyAt(configuration, kids, i)] == Emit(configuration, kids[i].tree)
    ensures forall key :: key in Assigned(configuration, kids) ==> exists i :: 0 <= i < |kids| && KeyAt(configuration, kids, i) == key
  {
    hide AssignedKey, Emit, NameOf;
    if kids != [] {
      var last := |kids| - 1;
      var before := kids[..last];
      assert forall i :: 0 <= i < last ==> KeyAt(configuration, before, i) == KeyAt(configuration, kids, i);
      WithoutCollisionsNothingIsOverwritten(configuration, before);
      assert KeyAt(configuration, kids, last) !in Assigned(configuration, before);
    }
  }

  /** Different keys within the limit never collide, marker-like keys included. */
  lemma ShortKeysDoNotCollide(configuration: Configuration, kids: seq<Kid>)
    requires forall i :: 0 <= i < |kids| ==> |NameOf(kids[i].place)| <= configuration.maxKeyBytes
    requires forall i, j :: 0 <= i < j < |kids| ==> NameOf(kids[i].place) != NameOf(kids[j].place)
    ensures NoCollisions(configuration, kids)
  {
    hide Escape, Unescape;
    forall i, j | 0 <= i < j < |kids| ensures KeyAt(configuration, kids, i) != KeyAt(configuration, kids, j) {
      EscapeRoundTrips(NameOf(kids[i].place));
      EscapeRoundTrips(NameOf(kids[j].place));
    }
  }

  // What a reader can tell apart

  /**
   A sanitized value as its reader knows it. Numbers of all kinds are numbers, the bracketed marker
   texts are texts, keys are repaired, and a list's omission marker is its last element.
   */
  datatype Reading =
    | Said(json: Json)
    | ReadBinary(size: nat, preview: string)
    | ReadTruncated(size: nat, preview: string)
    | ReadObject(entries: seq<ReadEntry>, omitted: nat)
    | ReadArray(items: seq<Reading>)

  datatype ReadEntry = ReadEntry(key: string, reading: Reading)

  function Read(spell: FloatSpelling, out: Out): Reading {
    match out
    case Scalar(BinaryMarker(size, preview)) => ReadBinary(size, preview)
    case Scalar(TruncatedMarker(size, preview)) => ReadTruncated(size, preview)
    case Scalar(leaf) => Said(LeafJson(spell, leaf))
    case Data(fields, omitted) =>
      var keys := WireKeys(fields.Keys, 0);
      ReadObject(seq(|keys|, i requires 0 <= i < |keys| => ReadEntry(Repaired(keys[i]), Read(spell, fields[keys[i]]))), omitted)
    case Items(items, omitted) =>
      var readings := seq(|items|, i requires 0 <= i < |items| => Read(spell, items[i]));
      ReadArray(if omitted > 0 then readings + [ReadObject([], omitted)] else readings)
  }

  /** The JSON of `a` and `b` differs exactly if a reader can tell them apart. */
  ghost predicate Agree(spell: FloatSpelling, a: Out, b: Out) {
    Wire(spell, a) == Wire(spell, b) <==> Read(spell, a) == Read(spell, b)
  }

  /** How many of the keys come before `ascii`. */
  function CountBefore(keys: seq<string>, ascii: string): (p: nat)
    ensures p <= |keys|
    ensures forall i :: 0 <= i < p ==> Less(keys[i], ascii)
    ensures p < |keys| ==> !Less(keys[p], ascii)
  {
    if keys == [] || !Less(keys[0], ascii) then 0 else 1 + CountBefore(keys[1..], ascii)
  }

  function InsertAt<T>(s: seq<T>, p: nat, x: T): seq<T>
    requires p <= |s|
  {
    s[..p] + [x] + s[p..]
  }

  lemma SortedKeysWithOneMore(names: set<string>, key: string)
    requires key !in names
    ensures var keys := SortedKeys(names); SortedKeys(names + {key}) == InsertAt(keys, CountBefore(keys, key), key)
  {
    hide Less, SortedKeys, CountBefore, InsertAt, Ascending;
    var keys := SortedKeys(names);
    var p := CountBefore(keys, key);
    KeysBehind(keys, p, key);
    InsertKeepsAscending(keys, p, key);
    AscendingIsUnique(SortedKeys(names + {key}), InsertAt(keys, p, key));
  }

  lemma KeysBehind(keys: seq<string>, p: nat, key: string)
    requires Ascending(keys) && key !in keys && p <= |keys| && (p < |keys| ==> !Less(keys[p], key))
    ensures forall i :: p <= i < |keys| ==> Less(key, keys[i])
  {
    hide Less;
    forall i | p <= i < |keys| ensures Less(key, keys[i]) {
      assert keys[p] in keys;
      Trichotomy(keys[p], key);
      if p < i { Transitive(key, keys[p], keys[i]); }
    }
  }

  lemma InsertKeepsAscending(keys: seq<string>, p: nat, key: string)
    requires Ascending(keys) && p <= |keys|
    requires forall i :: 0 <= i < p ==> Less(keys[i], key)
    requires forall i :: p <= i < |keys| ==> Less(key, keys[i])
    ensures Ascending(InsertAt(keys, p, key))
    ensures forall name :: name in InsertAt(keys, p, key) <==> name in keys || name == key
  {
    hide Less;
    assert keys == keys[..p] + keys[p..];
  }

  lemma {:induction false} RepairingKeepsCount(keys: seq<string>, keys': seq<string>, ascii: string)
    requires |keys| == |keys'| && forall i :: 0 <= i < |keys| ==> Repaired(keys[i]) == Repaired(keys'[i])
    requires Ascii(ascii)
    ensures CountBefore(keys, ascii) == CountBefore(keys', ascii)
  {
    hide Less, Repaired;
    if keys != [] {
      RepairingKeepsOrder(keys[0], ascii);
      RepairingKeepsOrder(keys'[0], ascii);
      RepairingKeepsCount(keys[1..], keys'[1..], ascii);
    }
  }

  /** The payload's members, without the omission marker. */
  function PayloadMembers(spell: FloatSpelling, fields: map<string, Out>): seq<Member> {
    var keys := WireKeys(fields.Keys, 0);
    seq(|keys|, i requires 0 <= i < |keys| => Member(Repaired(keys[i]), Wire(spell, fields[keys[i]])))
  }

  function OmissionMember(omitted: nat): Member {
    Member(OMITTED_ITEMS, JsonNumber(Itoa(omitted)))
  }

  lemma MembersAreThePayloads(spell: FloatSpelling, fields: map<string, Out>, omitted: nat, maxKeyBytes: nat)
    requires Genuine(Data(fields, omitted), maxKeyBytes)
    ensures var members, p := PayloadMembers(spell, fields), CountBefore(WireKeys(fields.Keys, 0), OMITTED_ITEMS);
            && p <= |members|
            && Wire(spell, Data(fields, omitted))
               == JsonObject(if omitted > 0 then InsertAt(members, p, OmissionMember(omitted)) else members)
            && forall i :: 0 <= i < |members| ==> members[i].key != OMITTED_ITEMS
  {
    hide Less, Genuine, Repaired, SortedKeys, CountBefore, Itoa;
    MarkersAreAscii("");
    GenuineKeysAreNoMarkers(fields, omitted, maxKeyBytes);
    RepairedIsAsciiOnlyIfItWas(OMITTED_ITEMS, OMITTED_ITEMS);
    var keys, members := WireKeys(fields.Keys, 0), PayloadMembers(spell, fields);
    forall i | 0 <= i < |keys| ensures members[i].key != OMITTED_ITEMS {
      RepairedIsAsciiOnlyIfItWas(keys[i], OMITTED_ITEMS);
    }
    if omitted > 0 {
      SortedKeysWithOneMore(fields.Keys, OMITTED_ITEMS);
      MembersWithOmission(spell, fields, omitted, CountBefore(keys, OMITTED_ITEMS));
    } else {
      assert Wire(spell, Data(fields, omitted)).members == members;
    }
  }

  lemma MembersWithOmission(spell: FloatSpelling, fields: map<string, Out>, omitted: nat, p: nat)
    requires omitted > 0 && OMITTED_ITEMS !in fields && p <= |WireKeys(fields.Keys, 0)|
    requires WireKeys(fields.Keys, omitted) == InsertAt(WireKeys(fields.Keys, 0), p, OMITTED_ITEMS)
    ensures p <= |PayloadMembers(spell, fields)|
    ensures Wire(spell, Data(fields, omitted)) == JsonObject(InsertAt(PayloadMembers(spell, fields), p, OmissionMember(omitted)))
  {
    hide Repaired, WireKeys, Itoa;
    RepairedIsAsciiOnlyIfItWas(OMITTED_ITEMS, OMITTED_ITEMS);
    MarkersAreAscii("");
    var keys, more := WireKeys(fields.Keys, 0), WireKeys(fields.Keys, omitted);
    var members, all := InsertAt(PayloadMembers(spell, fields), p, OmissionMember(omitted)), Wire(spell, Data(fields, omitted)).members;
    assert |all| == |more| == |members|;
    forall i | 0 <= i < |more| ensures all[i] == members[i] {
      assert more[i] == if i < p then keys[i] else if i == p then OMITTED_ITEMS else keys[i - 1];
    }
  }

  /** The marker's place and number can be told from the members. */
  lemma InsertedOnce(a: seq<Member>, p: nat, x: Member, b: seq<Member>, q: nat, y: Member)
    requires p <= |a| && q <= |b| && x.key == y.key
    requires forall i :: 0 <= i < |a| ==> a[i].key != x.key
    requires forall i :: 0 <= i < |b| ==> b[i].key != x.key
    ensures InsertAt(a, p, x) == InsertAt(b, q, y) <==> a == b && p == q && x == y
    ensures InsertAt(a, p, x) != b
  {
    var left, right := InsertAt(a, p, x), InsertAt(b, q, y);
    assert left[p] == x && right[q] == y;
    if left == right {
      assert p == q;
      assert a == left[..p] + left[p + 1..] && b == right[..q] + right[q + 1..];
    }
  }

  lemma PartsAgree(spell: FloatSpelling, fields: map<string, Out>, fields': map<string, Out>)
    requires forall key, key' :: key in fields && key' in fields' ==> Agree(spell, fields[key], fields'[key'])
    ensures PayloadMembers(spell, fields) == PayloadMembers(spell, fields')
            <==> Read(spell, Data(fields, 0)) == Read(spell, Data(fields', 0))
    ensures PayloadMembers(spell, fields) == PayloadMembers(spell, fields') ==>
              CountBefore(WireKeys(fields.Keys, 0), OMITTED_ITEMS) == CountBefore(WireKeys(fields'.Keys, 0), OMITTED_ITEMS)
  {
    hide Less, Repaired, SortedKeys, CountBefore, Wire;
    MarkersAreAscii("");
    var keys, keys' := WireKeys(fields.Keys, 0), WireKeys(fields'.Keys, 0);
    var entries, entries' := Read(spell, Data(fields, 0)).entries, Read(spell, Data(fields', 0)).entries;
    var members, members' := PayloadMembers(spell, fields), PayloadMembers(spell, fields');
    assert |entries| == |keys| == |members| && |entries'| == |keys'| == |members'|;
    if |keys| == |keys'| {
      forall i | 0 <= i < |keys| ensures members[i] == members'[i] <==> entries[i] == entries'[i] {
        assert Agree(spell, fields[keys[i]], fields'[keys'[i]]);
      }
    }
    if members == members' {
      forall i | 0 <= i < |keys| ensures Repaired(keys[i]) == Repaired(keys'[i]) {
        assert members[i].key == members'[i].key;
      }
      RepairingKeepsCount(keys, keys', OMITTED_ITEMS);
    }
  }

  lemma ObjectsAgree(
    spell: FloatSpelling, fields: map<string, Out>, omitted: nat, fields': map<string, Out>, omitted': nat, maxKeyBytes: nat)
    requires Genuine(Data(fields, omitted), maxKeyBytes) && Genuine(Data(fields', omitted'), maxKeyBytes)
    requires forall key, key' :: key in fields && key' in fields' ==> Agree(spell, fields[key], fields'[key'])
    ensures Agree(spell, Data(fields, omitted), Data(fields', omitted'))
  {
    hide Less, Repaired, SortedKeys, CountBefore, Wire, Genuine, PayloadMembers, InsertAt, WireKeys;
    PartsAgree(spell, fields, fields');
    MembersAreThePayloads(spell, fields, omitted, maxKeyBytes);
    MembersAreThePayloads(spell, fields', omitted', maxKeyBytes);
    var p, q := CountBefore(WireKeys(fields.Keys, 0), OMITTED_ITEMS), CountBefore(WireKeys(fields'.Keys, 0), OMITTED_ITEMS);
    var a, b := PayloadMembers(spell, fields), PayloadMembers(spell, fields');
    InsertedOnce(a, p, OmissionMember(omitted), b, q, OmissionMember(omitted'));
    InsertedOnce(b, q, OmissionMember(omitted'), a, p, OmissionMember(omitted));
    assert OmissionMember(omitted) == OmissionMember(omitted') <==> omitted == omitted' by { SpellingsDiffer(omitted, omitted'); }
    ReadObjectParts(spell, fields, omitted);
    ReadObjectParts(spell, fields', omitted');
  }

  lemma ReadObjectParts(spell: FloatSpelling, fields: map<string, Out>, omitted: nat)
    ensures Read(spell, Data(fields, 0)).ReadObject?
    ensures Read(spell, Data(fields, omitted)) == ReadObject(Read(spell, Data(fields, 0)).entries, omitted)
  {
  }

  lemma SpellingsDiffer(m: nat, n: nat)
    ensures Itoa(m) == Itoa(n) <==> m == n
  {
    assert Decimals.Number(Itoa(m)) == m && Decimals.Number(Itoa(n)) == n;
  }

  /** Leaves, and values of different kinds: here the two readings are compared directly. */
  lemma KindsAgree(spell: FloatSpelling, a: Out, b: Out, maxKeyBytes: nat)
    requires Genuine(a, maxKeyBytes) && Genuine(b, maxKeyBytes)
    requires a.Scalar? || b.Scalar? || a.Data? != b.Data?
    ensures Agree(spell, a, b)
  {
    hide Wire, Read, Genuine;
    KindsOf(spell, a);
    KindsOf(spell, b);
    if a.Scalar? && b.Scalar? {
      LeavesAgree(spell, a.leaf, b.leaf);
    } else if a.Scalar? && b.Data? {
      LeafIsNoObject(spell, a.leaf, b.fields, b.omitted, maxKeyBytes);
    } else if b.Scalar? && a.Data? {
      LeafIsNoObject(spell, b.leaf, a.fields, a.omitted, maxKeyBytes);
    }
  }

  lemma KindsOf(spell: FloatSpelling, out: Out)
    ensures Wire(spell, out).JsonArray? <==> out.Items?
    ensures Read(spell, out).ReadArray? <==> out.Items?
    ensures out.Data? ==> Wire(spell, out).JsonObject?
    ensures Read(spell, out).ReadObject? <==> out.Data?
  {
    hide Repaired, WireKeys, Itoa, Decimal, Spelled;
  }

  lemma LeavesAgree(spell: FloatSpelling, a: Leaf, b: Leaf)
    ensures Agree(spell, Scalar(a), Scalar(b))
  {
    hide Itoa, Spelled, Decimal;
    var x, y := LeafJson(spell, a), LeafJson(spell, b);
    if (a.BinaryMarker? || a.TruncatedMarker?) && (b.BinaryMarker? || b.TruncatedMarker?) {
      SpellingsDiffer(a.size, b.size);
      if x == y {
        assert x.members[0] == y.members[0] && x.members[1] == y.members[1] && x.members[2] == y.members[2];
      }
    }
  }

  lemma LeafIsNoObject(spell: FloatSpelling, leaf: Leaf, fields: map<string, Out>, omitted: nat, maxKeyBytes: nat)
    requires Genuine(Data(fields, omitted), maxKeyBytes)
    ensures Wire(spell, Scalar(leaf)) != Wire(spell, Data(fields, omitted))
  {
    hide Genuine, Marker, Repaired, Itoa, Spelled, Decimal;
    MarkersAreAscii("");
    LeavesKeepTheirMarkers(spell, leaf);
    DataMembers(spell, fields, omitted, "_binary", maxKeyBytes);
    DataMembers(spell, fields, omitted, "_truncated", maxKeyBytes);
  }

  /** The elements of a list, with its omission marker as the object that it reads as. */
  function Elements(items: seq<Out>, omitted: nat): seq<Out> {
    if omitted > 0 then items + [Data(map[], omitted)] else items
  }

  lemma OmissionReadsAsObject(spell: FloatSpelling, omitted: nat)
    requires omitted > 0
    ensures Wire(spell, Data(map[], omitted)) == OmissionObject(omitted)
    ensures Read(spell, Data(map[], omitted)) == ReadObject([], omitted)
  {
    hide Repaired, SortedKeys, Itoa, Less, WireKeys;
    MarkersAreAscii("");
    RepairedIsAsciiOnlyIfItWas(OMITTED_ITEMS, OMITTED_ITEMS);
    var none: map<string, Out> := map[];
    NoPayloadKeys(none.Keys, omitted);
    assert Wire(spell, Data(none, omitted)).members == [OmissionMember(omitted)];
  }

  lemma NoPayloadKeys(names: set<string>, omitted: nat)
    requires names == {} && omitted > 0
    ensures WireKeys(names, omitted) == [OMITTED_ITEMS] && WireKeys(names, 0) == []
  {
    hide SortedKeys, Less, Ascending;
    var keys := WireKeys(names, omitted);
    assert names + {OMITTED_ITEMS} == {OMITTED_ITEMS};
    assert |keys| == 1 && keys[0] in keys;
  }

  lemma ListsAgree(spell: FloatSpelling, items: seq<Out>, omitted: nat, items': seq<Out>, omitted': nat)
    requires var a, b := Elements(items, omitted), Elements(items', omitted');
             forall i :: 0 <= i < |a| && i < |b| ==> Agree(spell, a[i], b[i])
    ensures Agree(spell, Items(items, omitted), Items(items', omitted'))
  {
    ListParts(spell, items, omitted);
    ListParts(spell, items', omitted');
    hide Wire, Read;
    var a, b := Elements(items, omitted), Elements(items', omitted');
    var x, y := Wire(spell, Items(items, omitted)).elements, Wire(spell, Items(items', omitted')).elements;
    var r, s := Read(spell, Items(items, omitted)).items, Read(spell, Items(items', omitted')).items;
    if |a| == |b| {
      assert forall i :: 0 <= i < |a| ==> Agree(spell, a[i], b[i]);
      assert x == y <==> r == s;
    }
  }

  lemma ListParts(spell: FloatSpelling, items: seq<Out>, omitted: nat)
    ensures var json, reading, all := Wire(spell, Items(items, omitted)), Read(spell, Items(items, omitted)), Elements(items, omitted);
            && json.JsonArray? && reading.ReadArray? && |json.elements| == |reading.items| == |all|
            && forall i :: 0 <= i < |all| ==> json.elements[i] == Wire(spell, all[i]) && reading.items[i] == Read(spell, all[i])
  {
    if omitted > 0 { OmissionReadsAsObject(spell, omitted); }
  }

  /**
   What the JSON of a sanitized value tells its reader, and what it does not: two values have the
   same JSON exactly if they read the same.
   */
  lemma {:induction false} JsonTellsWhatIsRead(spell: FloatSpelling, a: Out, b: Out, maxKeyBytes: nat)
    requires Genuine(a, maxKeyBytes) && Genuine(b, maxKeyBytes)
    ensures Wire(spell, a) == Wire(spell, b) <==> Read(spell, a) == Read(spell, b)
    decreases a
  {
    hide Wire, Read;
    if a.Data? && b.Data? {
      forall key, key' | key in a.fields && key' in b.fields ensures Agree(spell, a.fields[key], b.fields[key']) {
        JsonTellsWhatIsRead(spell, a.fields[key], b.fields[key'], maxKeyBytes);
      }
      ObjectsAgree(spell, a.fields, a.omitted, b.fields, b.omitted, maxKeyBytes);
    } else if a.Items? && b.Items? {
      var all, all' := Elements(a.items, a.omitted), Elements(b.items, b.omitted);
      forall i | 0 <= i < |all| && i < |all'| ensures Agree(spell, all[i], all'[i]) {
        if i < |a.items| {
          JsonTellsWhatIsRead(spell, a.items[i], all'[i], maxKeyBytes);
        } else {
          OmissionAgrees(spell, a.omitted, all'[i], maxKeyBytes);
        }
      }
      ListsAgree(spell, a.items, a.omitted, b.items, b.omitted);
    } else {
      KindsAgree(spell, a, b, maxKeyBytes);
    }
  }

  /** So it is for whatever the sanitizer emits. */
  lemma SanitizedJsonTellsWhatIsRead(configuration: Configuration, spell: FloatSpelling, a: Tree, b: Tree)
    requires IsDigest(configuration.digest) && configuration.maxKeyBytes >= MIN_MAX_KEY_BYTES
    ensures Wire(spell, Emit(configuration, a)) == Wire(spell, Emit(configuration, b))
            <==> Read(spell, Emit(configuration, a)) == Read(spell, Emit(configuration, b))
  {
    hide Wire, Read, Genuine, Emit;
    EmittedIsGenuine(configuration, a);
    EmittedIsGenuine(configuration, b);
    JsonTellsWhatIsRead(spell, Emit(configuration, a), Emit(configuration, b), configuration.maxKeyBytes);
  }

  lemma OmissionAgrees(spell: FloatSpelling, omitted: nat, b: Out, maxKeyBytes: nat)
    requires Genuine(b, maxKeyBytes)
    ensures Agree(spell, Data(map[], omitted), b)
  {
    hide Wire, Read;
    if b.Data? {
      ObjectsAgree(spell, map[], omitted, b.fields, b.omitted, maxKeyBytes);
    } else {
      KindsAgree(spell, Data(map[], omitted), b, maxKeyBytes);
    }
  }

  // What a reader cannot tell apart

  /** A list that ends in a map whose entries were all omitted reads like a list with that many items omitted. */
  lemma OmissionsAreAmbiguous(spell: FloatSpelling, omitted: nat)
    requires omitted > 0
    ensures Wire(spell, Items([Data(map[], omitted)], 0)) == Wire(spell, Items([], omitted))
  {
    OmissionReadsAsObject(spell, omitted);
    assert Wire(spell, Items([Data(map[], omitted)], 0)).elements == [OmissionObject(omitted)];
    assert Wire(spell, Items([], omitted)).elements == [OmissionObject(omitted)];
  }

  /**
   Marker texts, unlike marker keys, are forgeable: a payload string comes out as the text marker
   `leaf` exactly if it is well-formed, within the limit, and spells that marker.
   */
  lemma MarkerTextsAreForgeable(configuration: Configuration, spell: FloatSpelling, leaf: Leaf, text: string)
    requires Spelled(leaf).Some?
    ensures Wire(spell, Scalar(StringLeaf(configuration, text))) == Wire(spell, Scalar(leaf))
            <==> Utf8.Valid(text) && |text| <= configuration.maxStringBytes && text == Spelled(leaf).value
  {
    hide LeafJson, Spelled, Utf8.Valid, Truncated;
    TextsAreTexts(spell, leaf, text);
    TextsAreTexts(spell, StringLeaf(configuration, text), text);
  }

  lemma TextsAreTexts(spell: FloatSpelling, leaf: Leaf, text: string)
    ensures Spelled(leaf).Some? ==> LeafJson(spell, leaf) == JsonText(Spelled(leaf).value)
    ensures Wire(spell, Scalar(leaf)) == LeafJson(spell, leaf)
    ensures leaf.BinaryMarker? || leaf.TruncatedMarker? ==> LeafJson(spell, leaf).JsonObject?
    ensures Spelled(Text(text)) == Some(text)
  {
    hide Itoa, Decimal;
  }

  /** So can a payload claim to have been cut off, to be circular, or to be masked. */
  lemma CircularMarkerCanBeForged(configuration: Configuration, spell: FloatSpelling)
    requires configuration.maxStringBytes >= 20
    ensures Wire(spell, Scalar(StringLeaf(configuration, "[CIRCULAR_REFERENCE]"))) == Wire(spell, Scalar(CircularReference))
  {
    hide Utf8.Valid, RuneLength;
    AsciiIsValid("[CIRCULAR_REFERENCE]");
    MarkerTextsAreForgeable(configuration, spell, CircularReference, "[CIRCULAR_REFERENCE]");
  }

  lemma {:induction false} AsciiIsValid(s: string)
    requires Ascii(s)
    ensures Utf8.Valid(s)
  {
    if s != "" { AsciiIsValid(s[1..]); }
  }

  /** Signed, unsigned and literal numbers of one spelling are one number. */
  lemma NumbersReadAlike(spell: FloatSpelling, n: nat)
    ensures Wire(spell, Scalar(Plain(Int(n)))) == Wire(spell, Scalar(Plain(Uint(n))))
    ensures Wire(spell, Scalar(Plain(Uint(n)))) == Wire(spell, Scalar(Plain(Number(Itoa(n)))))
  {
  }

  /** Objects of one entry read the same exactly if their keys are repaired to the same text. */
  lemma MalformedKeysReadAlike(spell: FloatSpelling, key: string, key': string, leaf: Leaf)
    ensures Read(spell, Data(map[key := Scalar(leaf)], 0)) == Read(spell, Data(map[key' := Scalar(leaf)], 0))
            <==> Repaired(key) == Repaired(key')
    ensures Repaired([0xFF as char]) == Repaired([0xFE as char])
  {
    SingleEntry(spell, key, leaf);
    SingleEntry(spell, key', leaf);
    assert Repaired([0xFF as char]) == REPLACEMENT + Repaired("");
    assert Repaired([0xFE as char]) == REPLACEMENT + Repaired("");
  }

  lemma SingleEntry(spell: FloatSpelling, key: string, leaf: Leaf)
    ensures Read(spell, Data(map[key := Scalar(leaf)], 0)) == ReadObject([ReadEntry(Repaired(key), Read(spell, Scalar(leaf)))], 0)
  {
    var fields := map[key := Scalar(leaf)];
    var keys := WireKeys(fields.Keys, 0);
    assert fields.Keys == {key} && |keys| == 1 && keys[0] == key;
    assert Read(spell, Data(fields, 0)).entries == [ReadEntry(Repaired(key), Read(spell, Scalar(leaf)))];
  }
}
