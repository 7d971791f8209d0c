/**
 Go payloads as finite heaps, and the budget-free meaning of sanitizing one.

 `Reference` walks a payload the way the sanitizer does, except that it has no node budget and
 no mutable state: the references being visited are an argument. Its result is an ordered tree
 that still remembers where every node came from.
 */
module Payload {
  import opened Lex
  import opened Utf8
  import opened Keys
  import opened Configurations
  import opened Wrappers

  // Values

  /** What Go's `visit` compares: the type and the address of a map, pointer or slice. */
  datatype Visit = Visit(typeName: string, pointer: nat)

  type CellId = nat

  /**
   A dynamic Go value. Interfaces are already unwrapped. A `Ref` to no cell is a nil reference;
   `decoded` is the JSON tree that a marshaler produced, and `None` an error or a panic.
   */
  datatype Value =
    | Nil
    | Prim(prim: Prim)
    | Str(text: string)
    | Bytes(bytes: string)
    | Opaque(typeName: string)
    | Marshaled(typeName: string, decoded: Option<Value>)
    | Texted(typeName: string, produced: Option<string>)
    | GoArray(items: seq<Value>)
    | Struct(fields: seq<Field>)
    | Ref(cell: CellId)

  datatype Prim =
    | Bool(b: bool)
    | Int(i: int)
    | Uint(u: nat)
    | Finite(f: real)
    | NonFinite(name: string)
    | Number(literal: string)

  /** One of `reflect.VisibleFields`, in that order. `embedded` is an anonymous struct or pointer to one. */
  datatype Field = Field(
    goName: string, exported: bool, tagName: string, omitEmpty: bool,
    embedded: bool, reachable: bool, zero: bool, value: Value)

  /** What a reference leads to. Two cells share a `Visit` when two slices share base and type. */
  datatype Node =
    | Pointee(value: Value)
    | StringMap(entries: map<string, Value>)
    | OtherMap(typeName: string, decoded: Option<Value>)
    | Slice(items: seq<Value>)

  datatype Cell = Cell(visit: Visit, node: Node)

  type Heap = map<CellId, Cell>

  function Visits(heap: Heap): set<Visit> {
    set c | c in heap :: heap[c].visit
  }

  ghost function Unseen(heap: Heap, path: set<Visit>): nat {
    |Visits(heap) - path|
  }

  lemma EnteringLeavesLess(heap: Heap, cell: CellId, path: set<Visit>)
    requires cell in heap && heap[cell].visit !in path
    ensures Unseen(heap, path + {heap[cell].visit}) < Unseen(heap, path)
  {
    var visit := heap[cell].visit;
    assert visit in Visits(heap) - path;
    assert Visits(heap) - (path + {visit}) == (Visits(heap) - path) - {visit};
  }

  // Results

  datatype Leaf =
    | Null
    | Plain(prim: Prim)
    | Text(text: string)
    | BinaryMarker(size: nat, preview: string)
    | TruncatedMarker(size: nat, preview: string)
    | MaxDepthExceeded
    | CircularReference
    | Redacted
    | SerializationFailed(typeName: string)
    | UnsupportedType(typeName: string)

  datatype Place = Key(name: string) | Index(at: nat)

  datatype Kid = Kid(place: Place, tree: Tree)

  datatype Shape = Object | List

  /** Every kid is one payload node: one unit of budget. */
  datatype Tree = Atom(leaf: Leaf) | Branch(shape: Shape, kids: seq<Kid>, omitted: nat)

  // Leaves

  const BINARY_PREVIEW_BYTES := 32

  /** The preview is kept as bytes; the source prints it in hex. */
  function BinaryLeaf(bytes: string): Leaf {
    BinaryMarker(|bytes|, if |bytes| > BINARY_PREVIEW_BYTES then bytes[..BINARY_PREVIEW_BYTES] else bytes)
  }

  function StringLeaf(configuration: Configuration, text: string): Leaf {
    if !Valid(text) then BinaryLeaf(text)
    else if |text| <= configuration.maxStringBytes then Text(text)
    else TruncatedMarker(|text|, Truncated(text, configuration.maxStringBytes))
  }

  // Struct fields

  predicate Included(field: Field) {
    && field.exported
    && field.tagName != "-"
    && !(field.embedded && field.tagName == "")
    && field.reachable
  }

  function FieldName(field: Field): string {
    if field.tagName == "" then field.goName else field.tagName
  }

  /** The last included field of a name wins, as in the source's map. */
  function FieldsByName(fields: seq<Field>): (r: map<string, Field>)
    ensures forall name :: name in r ==> r[name] in fields && FieldName(r[name]) == name
  {
    if fields == [] then map[]
    else
      var before := FieldsByName(fields[..|fields| - 1]);
      var field := fields[|fields| - 1];
      if Included(field) then before[FieldName(field) := field] else before
  }

  /** Field `i` is the one that counts under `name`: included, and no later included field has the name. */
  predicate Counts(fields: seq<Field>, i: int, name: string) {
    && 0 <= i < |fields| && Included(fields[i]) && FieldName(fields[i]) == name
    && forall j :: i < j < |fields| && Included(fields[j]) ==> FieldName(fields[j]) != name
  }

  /** Which fields have a name: the reachable exported ones, by tag or else by Go name, but not "-" and no untagged embedded struct. */
  lemma NamedFieldsExactly(field: Field, name: string)
    ensures Included(field) && FieldName(field) == name
            <==> && field.exported && field.reachable
                 && if field.tagName == "" then !field.embedded && field.goName == name
                    else field.tagName == name && name != "-"
  {
  }

  lemma CountsBeforeLast(fields: seq<Field>, i: int, name: string)
    requires fields != []
    requires !(Included(fields[|fields| - 1]) && FieldName(fields[|fields| - 1]) == name)
    ensures Counts(fields[..|fields| - 1], i, name) <==> Counts(fields, i, name)
  {
    hide Included, FieldName;
    var front := fields[..|fields| - 1];
    if 0 <= i < |front| {
      assert forall j :: i < j < |front| ==> front[j] == fields[j];
    }
  }

  lemma CountsIsUnique(fields: seq<Field>, i: int, j: int, name: string)
    requires Counts(fields, i, name) && Counts(fields, j, name)
    ensures i == j
  {
  }

  /** A name is there exactly if some field counts under it, and it stands for that field. */
  lemma {:induction false} FieldsByNameAreTheLast(fields: seq<Field>, name: string)
    ensures name in FieldsByName(fields) <==> exists i :: Counts(fields, i, name)
    ensures forall i :: Counts(fields, i, name) ==> 0 <= i < |fields| && name in FieldsByName(fields) && FieldsByName(fields)[name] == fields[i]
  {
    hide Included, FieldName;
    if fields != [] {
      var last := |fields| - 1;
      FieldsByNameAreTheLast(fields[..last], name);
      if Included(fields[last]) && FieldName(fields[last]) == name {
        assert Counts(fields, last, name);
        forall i | Counts(fields, i, name) ensures i == last {
          CountsIsUnique(fields, i, last, name);
        }
      } else {
        forall i ensures Counts(fields[..last], i, name) <==> Counts(fields, i, name) {
          CountsBeforeLast(fields, i, name);
        }
        hide Counts;
      }
    }
  }

  /** The map of a struct's fields, said without building it. */
  ghost predicate NamesTheLast(byName: map<string, Field>, fields: seq<Field>) {
    && (forall name :: name in byName <==> exists i :: Counts(fields, i, name))
    && forall name, i :: Counts(fields, i, name) ==> byName[name] == fields[i]
  }

  lemma FieldsByNameIsDetermined(byName: map<string, Field>, fields: seq<Field>)
    ensures byName == FieldsByName(fields) <==> NamesTheLast(byName, fields)
  {
    hide FieldsByName, Included, FieldName;
    forall name
      ensures name in FieldsByName(fields) <==> exists i :: Counts(fields, i, name)
      ensures forall i :: Counts(fields, i, name) ==> FieldsByName(fields)[name] == fields[i]
    {
      FieldsByNameAreTheLast(fields, name);
    }
  }

  /** Drops the zero fields marked `omitempty`, before anything else looks at them. */
  function WithoutEmpty(keys: seq<string>, byName: map<string, Field>): (r: seq<string>)
    requires forall key :: key in keys ==> key in byName
    ensures forall key :: key in r ==> key in keys
    ensures |r| <= |keys|
  {
    if keys == [] then []
    else
      var before := WithoutEmpty(keys[..|keys| - 1], byName);
      var key := keys[|keys| - 1];
      if byName[key].omitEmpty && byName[key].zero then before else before + [key]
  }

  // The parts of a container, in the order they are visited

  datatype Slot = Slot(place: Place, value: Value)

  function MapSlots(entries: map<string, Value>): (r: seq<Slot>)
    ensures |r| == |entries|
  {
    var keys := SortedKeys(entries.Keys);
    assert forall i :: 0 <= i < |keys| ==> keys[i] in keys;
    seq(|keys|, i requires 0 <= i < |keys| => Slot(Key(keys[i]), entries[keys[i]]))
  }

  function ListSlots(items: seq<Value>): (r: seq<Slot>)
    ensures |r| == |items|
  {
    seq(|items|, i requires 0 <= i < |items| => Slot(Index(i), items[i]))
  }

  function StructKeys(fields: seq<Field>): (keys: seq<string>)
    ensures forall key :: key in keys ==> key in FieldsByName(fields)
  {
    var byName := FieldsByName(fields);
    WithoutEmpty(SortedKeys(byName.Keys), byName)
  }

  /** The name is visible: the field that counts under it is not an empty one to be omitted. */
  ghost predicate VisibleName(fields: seq<Field>, name: string) {
    exists i :: Counts(fields, i, name) && !(fields[i].omitEmpty && fields[i].zero)
  }

  lemma {:induction false} WithoutEmptyKeepsOrder(keys: seq<string>, byName: map<string, Field>)
    requires Ascending(keys) && forall key :: key in keys ==> key in byName
    ensures Ascending(WithoutEmpty(keys, byName))
    ensures forall key :: key in WithoutEmpty(keys, byName) <==>
              key in keys && !(byName[key].omitEmpty && byName[key].zero)
  {
    hide Less;
    if keys != [] {
      var last := |keys| - 1;
      var before := WithoutEmpty(keys[..last], byName);
      WithoutEmptyKeepsOrder(keys[..last], byName);
      assert forall key :: key in keys <==> key in keys[..last] || key == keys[last];
      forall i | 0 <= i < |before| ensures Less(before[i], keys[last]) {
        assert before[i] in before;
        var j :| 0 <= j < last && keys[j] == before[i];
      }
    }
  }

  /** The keys of a struct are the one ascending list of its visible names. */
  lemma StructKeysAreTheVisibleNames(fields: seq<Field>, keys: seq<string>)
    ensures keys == StructKeys(fields) <==> Ascending(keys) && forall name :: name in keys <==> VisibleName(fields, name)
  {
    hide Less, Ascending, Counts, FieldsByName, WithoutEmpty, SortedKeys;
    var byName := FieldsByName(fields);
    WithoutEmptyKeepsOrder(SortedKeys(byName.Keys), byName);
    forall name ensures name in StructKeys(fields) <==> VisibleName(fields, name) {
      FieldsByNameAreTheLast(fields, name);
    }
    if Ascending(keys) && forall name :: name in keys <==> VisibleName(fields, name) {
      AscendingIsUnique(keys, StructKeys(fields));
    }
  }

  function StructSlots(fields: seq<Field>): (r: seq<Slot>)
    ensures forall i :: 0 <= i < |r| ==> exists j :: 0 <= j < |fields| && fields[j].value == r[i].value
  {
    var keys := StructKeys(fields);
    var byName := FieldsByName(fields);
    assert forall i :: 0 <= i < |keys| ==> keys[i] in keys;
    seq(|keys|, i requires 0 <= i < |keys| => Slot(Key(keys[i]), byName[keys[i]].value))
  }

  // Termination: inline nesting is finite, and every reference is entered at most once on a path

  ghost function Height(value: Value): nat {
    match value
    case Marshaled(_, Some(decoded)) => 1 + Height(decoded)
    case GoArray(items) => 1 + ListHeight(items)
    case Struct(fields) => 1 + FieldsHeight(fields)
    case _ => 0
  }

  ghost function ListHeight(items: seq<Value>): (h: nat)
    ensures forall i :: 0 <= i < |items| ==> Height(items[i]) <= h
  {
    if items == [] then 0 else Max(Height(items[0]), ListHeight(items[1..]))
  }

  ghost function FieldsHeight(fields: seq<Field>): (h: nat)
    ensures forall i :: 0 <= i < |fields| ==> Height(fields[i].value) <= h
  {
    if fields == [] then 0 else Max(Height(fields[0].value), FieldsHeight(fields[1..]))
  }

  ghost function SlotsHeight(slots: seq<Slot>): (h: nat)
    ensures forall i :: 0 <= i < |slots| ==> Height(slots[i].value) < h
  {
    if slots == [] then 0 else Max(1 + Height(slots[0].value), SlotsHeight(slots[1..]))
  }

  function Max(a: nat, b: nat): nat {
    if a > b then a else b
  }

  // The budget-free meaning

  predicate Secret(configuration: Configuration, place: Place) {
    place.Key? && configuration.sensitive(place.name)
  }

  ghost function Reference(
    configuration: Configuration, heap: Heap, value: Value, depth: nat, path: set<Visit>): Tree
    decreases Unseen(heap, path), Height(value), 2, 0
  {
    match value
    case Nil => Atom(Null)
    case Prim(prim) => Atom(Plain(prim))
    case Str(text) => Atom(StringLeaf(configuration, text))
    case Bytes(bytes) => Atom(BinaryLeaf(bytes))
    case Opaque(typeName) =>
      Atom(if depth > configuration.maxDepth then MaxDepthExceeded else UnsupportedType(typeName))
    case Texted(typeName, produced) =>
      Atom(if depth > configuration.maxDepth then MaxDepthExceeded
           else if produced.None? then SerializationFailed(typeName)
           else StringLeaf(configuration, produced.value))
    case Marshaled(typeName, decoded) =>
      if depth > configuration.maxDepth then Atom(MaxDepthExceeded)
      else if decoded.None? then Atom(SerializationFailed(typeName))
      else Reference(configuration, heap, decoded.value, depth, path)
    case GoArray(items) =>
      if depth > configuration.maxDepth then Atom(MaxDepthExceeded)
      else ListTree(configuration, heap, items, depth, path, Height(value))
    case Struct(fields) =>
      if depth > configuration.maxDepth then Atom(MaxDepthExceeded)
      else StructTree(configuration, heap, fields, depth, path, Height(value))
    case Ref(cell) =>
      if cell !in heap then Atom(Null)
      else if depth > configuration.maxDepth then Atom(MaxDepthExceeded)
      else if heap[cell].visit in path then Atom(CircularReference)
      else
        EnteringLeavesLess(heap, cell, path);
        Inside(configuration, heap, heap[cell].node, depth, path + {heap[cell].visit})
  }

  /** A referenced node, with its own visit already on the path. */
  ghost function Inside(
    configuration: Configuration, heap: Heap, node: Node, depth: nat, path: set<Visit>): Tree
    decreases Unseen(heap, path), NodeHeight(node), 3, 0
  {
    match node
    case Pointee(value) => Reference(configuration, heap, value, depth, path)
    case OtherMap(typeName, decoded) =>
      if decoded.None? then Atom(SerializationFailed(typeName))
      else Reference(configuration, heap, decoded.value, depth, path)
    case StringMap(entries) => MapTree(configuration, heap, entries, depth, path)
    case Slice(items) => ListTree(configuration, heap, items, depth, path, SlotsHeight(ListSlots(items)))
  }

  ghost function NodeHeight(node: Node): nat {
    match node
    case Pointee(value) => Height(value)
    case OtherMap(_, decoded) => if decoded.None? then 0 else Height(decoded.value)
    case StringMap(entries) => SlotsHeight(MapSlots(entries))
    case Slice(items) => SlotsHeight(ListSlots(items))
  }

  ghost predicate Below(slots: seq<Slot>, bound: nat) {
    forall i :: 0 <= i < |slots| ==> Height(slots[i].value) < bound
  }

  lemma StructSlotsBelow(fields: seq<Field>, bound: nat)
    requires FieldsHeight(fields) < bound
    ensures Below(StructSlots(fields), bound)
  {
    hide StructSlots, Height, FieldsHeight;
    var slots := StructSlots(fields);
    forall i | 0 <= i < |slots| ensures Height(slots[i].value) < bound {
      var j :| 0 <= j < |fields| && fields[j].value == slots[i].value;
    }
  }

  ghost function MapTree(
    configuration: Configuration, heap: Heap, entries: map<string, Value>, depth: nat, path: set<Visit>): Tree
    decreases Unseen(heap, path), SlotsHeight(MapSlots(entries)), 1, 0
  {
    var slots := MapSlots(entries);
    Branch(Object, Kids(configuration, heap, slots, depth + 1, path, SlotsHeight(slots)), 0)
  }

  ghost function ListTree(
    configuration: Configuration, heap: Heap, items: seq<Value>, depth: nat, path: set<Visit>, bound: nat): Tree
    requires Below(ListSlots(items), bound)
    decreases Unseen(heap, path), bound, 1, 0
  {
    var shown := Shown(configuration, ListSlots(items));
    Branch(List, Kids(configuration, heap, shown, depth + 1, path, bound), |items| - |shown|)
  }

  ghost function StructTree(
    configuration: Configuration, heap: Heap, fields: seq<Field>, depth: nat, path: set<Visit>, bound: nat): Tree
    requires FieldsHeight(fields) < bound
    decreases Unseen(heap, path), bound, 1, 0
  {
    StructSlotsBelow(fields, bound);
    Branch(Object, Kids(configuration, heap, StructSlots(fields), depth + 1, path, bound), 0)
  }

  function Shown(configuration: Configuration, slots: seq<Slot>): seq<Slot> {
    if |slots| > configuration.maxArrayItems then slots[..configuration.maxArrayItems] else slots
  }

  ghost function Kids(
    configuration: Configuration, heap: Heap, slots: seq<Slot>, depth: nat, path: set<Visit>, bound: nat): (r: seq<Kid>)
    requires Below(slots, bound)
    ensures |r| == |slots|
    decreases Unseen(heap, path), bound, 0, |slots|
  {
    if slots == [] then []
    else
      var last := |slots| - 1;
      Kids(configuration, heap, slots[..last], depth, path, bound)
      + [KidOf(configuration, heap, slots[last], depth, path)]
  }

  lemma {:induction false} KidAt(
    configuration: Configuration, heap: Heap, slots: seq<Slot>, depth: nat, path: set<Visit>, bound: nat, i: nat)
    requires Below(slots, bound) && i < |slots|
    ensures var kid := Kids(configuration, heap, slots, depth, path, bound)[i];
            kid == KidOf(configuration, heap, slots[i], depth, path) && kid.place == slots[i].place
    decreases |slots|
  {
    var last := |slots| - 1;
    if i < last { KidAt(configuration, heap, slots[..last], depth, path, bound, i); }
  }

  /** A secret is redacted without looking at its value. */
  ghost function KidOf(
    configuration: Configuration, heap: Heap, slot: Slot, depth: nat, path: set<Visit>): Kid
    decreases Unseen(heap, path), Height(slot.value), 3, 0
  {
    Kid(slot.place,
        if Secret(configuration, slot.place) then Atom(Redacted)
        else Reference(configuration, heap, slot.value, depth, path))
  }
}
