/**
 What a sanitized payload says: for every value of the payload, what its place in the tree has to
 be. This is said without walking the payload, and it leaves nothing open.
 */
module Telling {
  import opened Wrappers
  import opened Lex
  import opened Utf8
  import opened Configurations
  import opened Payload

  // Leaves

  /** Bytes are shown by their number and the first 32 of them. */
  predicate TellsBytes(bytes: string, leaf: Leaf) {
    && leaf.BinaryMarker? && leaf.size == |bytes|
    && leaf.preview <= bytes && |leaf.preview| == if |bytes| < 32 then |bytes| else 32
  }

  /** Text is shown as it is; cut to its longest valid prefix if it is too long; as bytes if it is malformed. */
  ghost predicate TellsText(configuration: Configuration, text: string, leaf: Leaf) {
    if !Valid(text) then TellsBytes(text, leaf)
    else if |text| <= configuration.maxStringBytes then leaf == Text(text)
    else
      && leaf.TruncatedMarker? && leaf.size == |text|
      && leaf.preview <= text && Valid(leaf.preview) && |leaf.preview| <= configuration.maxStringBytes
      && forall p :: p <= text && Valid(p) && |p| <= configuration.maxStringBytes ==> p <= leaf.preview
  }

  lemma BytesAreTold(bytes: string)
    ensures TellsBytes(bytes, BinaryLeaf(bytes))
  {
  }

  lemma TextIsTold(configuration: Configuration, text: string)
    ensures TellsText(configuration, text, StringLeaf(configuration, text))
  {
    hide Utf8.Valid, Truncated;
    if Valid(text) {
      TruncatedIsLongestValidPrefix(text, configuration.maxStringBytes, "");
      TruncatedFits(text, configuration.maxStringBytes);
      forall p | p <= text && Valid(p) && |p| <= configuration.maxStringBytes
        ensures p <= Truncated(text, configuration.maxStringBytes)
      {
        TruncatedIsLongestValidPrefix(text, configuration.maxStringBytes, p);
      }
    } else {
      BytesAreTold(text);
    }
  }

  lemma TruncatedFits(text: string, limit: nat)
    ensures |Truncated(text, limit)| <= limit && Truncated(text, limit) <= text
  {
  }

  lemma OneLeafTells(configuration: Configuration, text: string, a: Leaf, b: Leaf)
    ensures TellsText(configuration, text, a) && TellsText(configuration, text, b) ==> a == b
    ensures TellsBytes(text, a) && TellsBytes(text, b) ==> a == b
  {
    hide Utf8.Valid;
  }

  // Trees

  /** The names of an object's kids, if it has no other places. */
  predicate AreNamed(kids: seq<Kid>) {
    forall i :: 0 <= i < |kids| ==> kids[i].place.Key?
  }

  function NamesOf(kids: seq<Kid>): seq<string>
    requires AreNamed(kids)
  {
    seq(|kids|, i requires 0 <= i < |kids| => kids[i].place.name)
  }

  /** An object shows exactly these names, in ascending order. */
  ghost predicate ShowsNames(tree: Tree, names: iset<string>) {
    && tree.Branch? && tree.shape.Object? && tree.omitted == 0
    && AreNamed(tree.kids) && Ascending(NamesOf(tree.kids))
    && forall name :: name in NamesOf(tree.kids) <==> name in names
  }

  /** What the tree of a value is. Only what can be nested is asked for its depth. */
  ghost predicate Tells(
    configuration: Configuration, heap: Heap, value: Value, depth: nat, path: set<Visit>, tree: Tree)
    decreases Unseen(heap, path), Height(value), 1
  {
    var tooDeep := depth > configuration.maxDepth;
    match value
    case Nil => tree == Atom(Null)
    case Prim(prim) => tree == Atom(Plain(prim))
    case Str(text) => tree.Atom? && TellsText(configuration, text, tree.leaf)
    case Bytes(bytes) => tree.Atom? && TellsBytes(bytes, tree.leaf)
    case Opaque(typeName) => tree == Atom(if tooDeep then MaxDepthExceeded else UnsupportedType(typeName))
    case Texted(typeName, produced) =>
      if tooDeep then tree == Atom(MaxDepthExceeded)
      else if produced.None? then tree == Atom(SerializationFailed(typeName))
      else tree.Atom? && TellsText(configuration, produced.value, tree.leaf)
    case Marshaled(typeName, decoded) =>
      if tooDeep then tree == Atom(MaxDepthExceeded)
      else if decoded.None? then tree == Atom(SerializationFailed(typeName))
      else Tells(configuration, heap, decoded.value, depth, path, tree)
    case GoArray(items) =>
      if tooDeep then tree == Atom(MaxDepthExceeded)
      else ItemsTell(configuration, heap, items, depth, path, tree, Height(value))
    case Struct(fields) =>
      if tooDeep then tree == Atom(MaxDepthExceeded)
      else FieldsTell(configuration, heap, fields, depth, path, tree, Height(value))
    case Ref(cell) =>
      if cell !in heap then tree == Atom(Null)
      else if tooDeep then tree == Atom(MaxDepthExceeded)
      else if heap[cell].visit in path then tree == Atom(CircularReference)
      else
        EnteringLeavesLess(heap, cell, path);
        NodeTells(configuration, heap, heap[cell].node, depth, path + {heap[cell].visit}, tree)
  }

  ghost predicate NodeTells(
    configuration: Configuration, heap: Heap, node: Node, depth: nat, path: set<Visit>, tree: Tree)
    decreases Unseen(heap, path), NodeHeight(node), 2
  {
    match node
    case Pointee(value) => Tells(configuration, heap, value, depth, path, tree)
    case OtherMap(typeName, decoded) =>
      if decoded.None? then tree == Atom(SerializationFailed(typeName))
      else Tells(configuration, heap, decoded.value, depth, path, tree)
    case StringMap(entries) =>
      EntriesAreBelow(entries);
      EntriesTell(configuration, heap, entries, depth, path, tree, NodeHeight(node))
    case Slice(items) =>
      ItemsAreBelow(items);
      ItemsTell(configuration, heap, items, depth, path, tree, NodeHeight(node))
  }

  /** A list shows its first items, in order, and counts the others. */
  ghost predicate ItemsTell(
    configuration: Configuration, heap: Heap, items: seq<Value>, depth: nat, path: set<Visit>, tree: Tree, bound: nat)
    requires forall i :: 0 <= i < |items| ==> Height(items[i]) < bound
    decreases Unseen(heap, path), bound, 0
  {
    && tree.Branch? && tree.shape.List?
    && |tree.kids| == (if |items| < configuration.maxArrayItems then |items| else configuration.maxArrayItems)
    && tree.omitted == |items| - |tree.kids|
    && forall i :: 0 <= i < |tree.kids| ==>
         tree.kids[i].place == Index(i) && Tells(configuration, heap, items[i], depth + 1, path, tree.kids[i].tree)
  }

  /** A map shows all its entries by name, the sensitive ones without their value. */
  ghost predicate EntriesTell(
    configuration: Configuration, heap: Heap, entries: map<string, Value>, depth: nat, path: set<Visit>, tree: Tree, bound: nat)
    requires forall name :: name in entries ==> Height(entries[name]) < bound
    decreases Unseen(heap, path), bound, 0
  {
    && ShowsNames(tree, iset name | name in entries)
    && forall i :: 0 <= i < |tree.kids| && tree.kids[i].place.name in entries ==>
         if configuration.sensitive(tree.kids[i].place.name) then tree.kids[i].tree == Atom(Redacted)
         else Tells(configuration, heap, entries[tree.kids[i].place.name], depth + 1, path, tree.kids[i].tree)
  }

  /** A struct shows its visible fields by name, the sensitive ones without their value. */
  ghost predicate FieldsTell(
    configuration: Configuration, heap: Heap, fields: seq<Field>, depth: nat, path: set<Visit>, tree: Tree, bound: nat)
    requires FieldsHeight(fields) < bound
    decreases Unseen(heap, path), bound, 0
  {
    && ShowsNames(tree, iset name | VisibleName(fields, name))
    && forall i, j :: 0 <= i < |tree.kids| && Counts(fields, j, tree.kids[i].place.name) ==>
         if configuration.sensitive(tree.kids[i].place.name) then tree.kids[i].tree == Atom(Redacted)
         else Tells(configuration, heap, fields[j].value, depth + 1, path, tree.kids[i].tree)
  }

  lemma EntriesAreBelow(entries: map<string, Value>)
    ensures forall name :: name in entries ==> Height(entries[name]) < SlotsHeight(MapSlots(entries))
  {
    hide Height, SlotsHeight, Less;
    var keys := SortedKeys(entries.Keys);
    forall name | name in entries ensures Height(entries[name]) < SlotsHeight(MapSlots(entries)) {
      assert name in keys;
      var i :| 0 <= i < |keys| && keys[i] == name;
      assert MapSlots(entries)[i].value == entries[name];
    }
  }

  lemma ItemsAreBelow(items: seq<Value>)
    ensures forall i :: 0 <= i < |items| ==> Height(items[i]) < SlotsHeight(ListSlots(items))
  {
    hide Height, SlotsHeight;
    forall i | 0 <= i < |items| ensures Height(items[i]) < SlotsHeight(ListSlots(items)) {
      assert ListSlots(items)[i].value == items[i];
    }
  }

  // The budget-free tree tells the payload

  lemma {:induction false} ReferenceTells(
    configuration: Configuration, heap: Heap, value: Value, depth: nat, path: set<Visit>)
    ensures Tells(configuration, heap, value, depth, path, Reference(configuration, heap, value, depth, path))
    decreases Unseen(heap, path), Height(value), 1
  {
    hide TellsText, TellsBytes, StringLeaf, BinaryLeaf, Inside, NodeTells, ListTree, StructTree, ItemsTell, FieldsTell, Unseen;
    if depth <= configuration.maxDepth {
      match value
      case Str(text) => TextIsTold(configuration, text);
      case Bytes(bytes) => BytesAreTold(bytes);
      case Texted(_, produced) => if produced.Some? { TextIsTold(configuration, produced.value); }
      case Marshaled(_, decoded) =>
        if decoded.Some? { ReferenceTells(configuration, heap, decoded.value, depth, path); }
      case GoArray(items) => ListTells(configuration, heap, items, depth, path, Height(value));
      case Struct(fields) => StructTells(configuration, heap, fields, depth, path, Height(value));
      case Ref(cell) =>
        if cell in heap && heap[cell].visit !in path {
          EnteringLeavesLess(heap, cell, path);
          InsideTells(configuration, heap, heap[cell].node, depth, path + {heap[cell].visit});
        }
      case _ =>
    } else {
      match value
      case Str(text) => TextIsTold(configuration, text);
      case Bytes(bytes) => BytesAreTold(bytes);
      case _ =>
    }
  }

  lemma {:induction false} InsideTells(
    configuration: Configuration, heap: Heap, node: Node, depth: nat, path: set<Visit>)
    ensures NodeTells(configuration, heap, node, depth, path, Inside(configuration, heap, node, depth, path))
    decreases Unseen(heap, path), NodeHeight(node), 2
  {
    hide Reference, Tells, ListTree, ItemsTell, EntriesTell, Unseen;
    match node
    case Pointee(value) => ReferenceTells(configuration, heap, value, depth, path);
    case OtherMap(_, decoded) =>
      if decoded.Some? { ReferenceTells(configuration, heap, decoded.value, depth, path); }
    case StringMap(entries) =>
      EntriesAreBelow(entries);
      MapTells(configuration, heap, entries, depth, path);
    case Slice(items) =>
      ItemsAreBelow(items);
      ListTells(configuration, heap, items, depth, path, NodeHeight(node));
  }

  lemma {:induction false} ListTells(
    configuration: Configuration, heap: Heap, items: seq<Value>, depth: nat, path: set<Visit>, bound: nat)
    requires Below(ListSlots(items), bound) && forall i :: 0 <= i < |items| ==> Height(items[i]) < bound
    ensures ItemsTell(configuration, heap, items, depth, path, ListTree(configuration, heap, items, depth, path, bound), bound)
    decreases Unseen(heap, path), bound, 0
  {
    hide Reference, Tells, Kids, Unseen, Height;
    var slots := Shown(configuration, ListSlots(items));
    var kids := Kids(configuration, heap, slots, depth + 1, path, bound);
    forall i | 0 <= i < |slots|
      ensures kids[i].place == Index(i) && Tells(configuration, heap, items[i], depth + 1, path, kids[i].tree)
    {
      KidAt(configuration, heap, slots, depth + 1, path, bound, i);
      ReferenceTells(configuration, heap, items[i], depth + 1, path);
    }
  }

  lemma {:induction false} MapTells(
    configuration: Configuration, heap: Heap, entries: map<string, Value>, depth: nat, path: set<Visit>)
    requires forall name :: name in entries ==> Height(entries[name]) < SlotsHeight(MapSlots(entries))
    ensures EntriesTell(configuration, heap, entries, depth, path, MapTree(configuration, heap, entries, depth, path),
                        SlotsHeight(MapSlots(entries)))
    decreases Unseen(heap, path), SlotsHeight(MapSlots(entries)), 0
  {
    hide Reference, Tells, Kids, Unseen, Height, SlotsHeight, SortedKeys, Ascending;
    var keys, slots := SortedKeys(entries.Keys), MapSlots(entries);
    var tree := MapTree(configuration, heap, entries, depth, path);
    forall i | 0 <= i < |slots|
      ensures tree.kids[i].place == Key(keys[i]) && keys[i] in entries
      ensures tree.kids[i].tree == if configuration.sensitive(keys[i]) then Atom(Redacted)
                                   else Reference(configuration, heap, entries[keys[i]], depth + 1, path)
    {
      assert keys[i] in keys;
      KidAt(configuration, heap, slots, depth + 1, path, SlotsHeight(slots), i);
    }
    assert NamesOf(tree.kids) == keys;
    forall i | 0 <= i < |tree.kids| && !configuration.sensitive(keys[i])
      ensures Tells(configuration, heap, entries[keys[i]], depth + 1, path, tree.kids[i].tree)
    {
      ReferenceTells(configuration, heap, entries[keys[i]], depth + 1, path);
    }
  }

  lemma {:induction false} StructTells(
    configuration: Configuration, heap: Heap, fields: seq<Field>, depth: nat, path: set<Visit>, bound: nat)
    requires FieldsHeight(fields) < bound
    ensures FieldsTell(configuration, heap, fields, depth, path, StructTree(configuration, heap, fields, depth, path, bound), bound)
    decreases Unseen(heap, path), bound, 0
  {
    hide Reference, Tells, Kids, Unseen, Height, FieldsHeight, StructKeys, FieldsByName, Counts, VisibleName, Ascending;
    var keys, slots, byName := StructKeys(fields), StructSlots(fields), FieldsByName(fields);
    StructSlotsBelow(fields, bound);
    StructKeysAreTheVisibleNames(fields, keys);
    var tree := StructTree(configuration, heap, fields, depth, path, bound);
    forall i | 0 <= i < |slots|
      ensures tree.kids[i].place == Key(keys[i]) && keys[i] in byName
      ensures tree.kids[i].tree == if configuration.sensitive(keys[i]) then Atom(Redacted)
                                   else Reference(configuration, heap, byName[keys[i]].value, depth + 1, path)
    {
      assert keys[i] in keys;
      KidAt(configuration, heap, slots, depth + 1, path, bound, i);
    }
    assert NamesOf(tree.kids) == keys;
    forall i, j | 0 <= i < |tree.kids| && Counts(fields, j, keys[i]) && !configuration.sensitive(keys[i])
      ensures 0 <= j < |fields| && Tells(configuration, heap, fields[j].value, depth + 1, path, tree.kids[i].tree)
    {
      FieldsByNameAreTheLast(fields, keys[i]);
      FieldsAreBelow(fields, j);
      ReferenceTells(configuration, heap, fields[j].value, depth + 1, path);
    }
  }

  lemma FieldsAreBelow(fields: seq<Field>, j: nat)
    requires j < |fields|
    ensures Height(fields[j].value) <= FieldsHeight(fields)
  {
  }

  // And nothing else does

  lemma {:induction false} OneTreeTells(
    configuration: Configuration, heap: Heap, value: Value, depth: nat, path: set<Visit>, a: Tree, b: Tree)
    requires Tells(configuration, heap, value, depth, path, a) && Tells(configuration, heap, value, depth, path, b)
    ensures a == b
    decreases Unseen(heap, path), Height(value), 1
  {
    hide TellsText, TellsBytes, NodeTells, ItemsTell, FieldsTell, Unseen;
    match value
    case Str(text) => OneLeafTells(configuration, text, a.leaf, b.leaf);
    case Bytes(bytes) => OneLeafTells(configuration, bytes, a.leaf, b.leaf);
    case Texted(_, produced) =>
      if depth <= configuration.maxDepth && produced.Some? { OneLeafTells(configuration, produced.value, a.leaf, b.leaf); }
    case Marshaled(_, decoded) =>
      if depth <= configuration.maxDepth && decoded.Some? {
        OneTreeTells(configuration, heap, decoded.value, depth, path, a, b);
      }
    case GoArray(items) =>
      if depth <= configuration.maxDepth { OneListTells(configuration, heap, items, depth, path, a, b, Height(value)); }
    case Struct(fields) =>
      if depth <= configuration.maxDepth { OneStructTells(configuration, heap, fields, depth, path, a, b, Height(value)); }
    case Ref(cell) =>
      if cell in heap && depth <= configuration.maxDepth && heap[cell].visit !in path {
        EnteringLeavesLess(heap, cell, path);
        OneNodeTells(configuration, heap, heap[cell].node, depth, path + {heap[cell].visit}, a, b);
      }
    case _ =>
  }

  lemma {:induction false} OneNodeTells(
    configuration: Configuration, heap: Heap, node: Node, depth: nat, path: set<Visit>, a: Tree, b: Tree)
    requires NodeTells(configuration, heap, node, depth, path, a) && NodeTells(configuration, heap, node, depth, path, b)
    ensures a == b
    decreases Unseen(heap, path), NodeHeight(node), 2
  {
    hide Tells, ItemsTell, EntriesTell, Unseen;
    match node
    case Pointee(value) => OneTreeTells(configuration, heap, value, depth, path, a, b);
    case OtherMap(_, decoded) =>
      if decoded.Some? { OneTreeTells(configuration, heap, decoded.value, depth, path, a, b); }
    case StringMap(entries) =>
      EntriesAreBelow(entries);
      OneMapTells(configuration, heap, entries, depth, path, a, b, NodeHeight(node));
    case Slice(items) =>
      ItemsAreBelow(items);
      OneListTells(configuration, heap, items, depth, path, a, b, NodeHeight(node));
  }

  lemma {:induction false} OneListTells(
    configuration: Configuration, heap: Heap, items: seq<Value>, depth: nat, path: set<Visit>, a: Tree, b: Tree, bound: nat)
    requires forall i :: 0 <= i < |items| ==> Height(items[i]) < bound
    requires ItemsTell(configuration, heap, items, depth, path, a, bound)
    requires ItemsTell(configuration, heap, items, depth, path, b, bound)
    ensures a == b
    decreases Unseen(heap, path), bound, 0
  {
    hide Tells, Unseen, Height;
    forall i | 0 <= i < |a.kids| ensures a.kids[i] == b.kids[i] {
      OneTreeTells(configuration, heap, items[i], depth + 1, path, a.kids[i].tree, b.kids[i].tree);
    }
    assert a.kids == b.kids;
  }

  /** The names decide how many kids there are and where. */
  lemma OneListOfNames(a: Tree, b: Tree, names: iset<string>)
    requires ShowsNames(a, names) && ShowsNames(b, names)
    ensures |a.kids| == |b.kids| && forall i :: 0 <= i < |a.kids| ==> a.kids[i].place == b.kids[i].place
    ensures forall i :: 0 <= i < |a.kids| ==> a.kids[i].place.name in names
  {
    hide Ascending;
    AscendingIsUnique(NamesOf(a.kids), NamesOf(b.kids));
    forall i | 0 <= i < |a.kids| ensures a.kids[i].place == b.kids[i].place && a.kids[i].place.name in names {
      assert NamesOf(a.kids)[i] == NamesOf(b.kids)[i];
      assert NamesOf(a.kids)[i] in NamesOf(a.kids);
    }
  }

  lemma {:induction false} OneMapTells(
    configuration: Configuration, heap: Heap, entries: map<string, Value>, depth: nat, path: set<Visit>, a: Tree, b: Tree,
    bound: nat)
    requires forall name :: name in entries ==> Height(entries[name]) < bound
    requires EntriesTell(configuration, heap, entries, depth, path, a, bound)
    requires EntriesTell(configuration, heap, entries, depth, path, b, bound)
    ensures a == b
    decreases Unseen(heap, path), bound, 0
  {
    hide Tells, Unseen, Height, ShowsNames;
    NamedKids(a, b, iset name | name in entries);
    forall i | 0 <= i < |a.kids| ensures a.kids[i] == b.kids[i] {
      var name := a.kids[i].place.name;
      if !configuration.sensitive(name) {
        OneTreeTells(configuration, heap, entries[name], depth + 1, path, a.kids[i].tree, b.kids[i].tree);
      }
    }
    assert a.kids == b.kids;
  }

  lemma NamedKids(a: Tree, b: Tree, names: iset<string>)
    requires ShowsNames(a, names) && ShowsNames(b, names)
    ensures a.Branch? && b.Branch? && a.shape == b.shape && a.omitted == b.omitted && AreNamed(a.kids) && AreNamed(b.kids)
    ensures |a.kids| == |b.kids| && forall i :: 0 <= i < |a.kids| ==> a.kids[i].place == b.kids[i].place
    ensures forall i :: 0 <= i < |a.kids| ==> a.kids[i].place.name in names
  {
    OneListOfNames(a, b, names);
  }

  lemma {:induction false} OneStructTells(
    configuration: Configuration, heap: Heap, fields: seq<Field>, depth: nat, path: set<Visit>, a: Tree, b: Tree, bound: nat)
    requires FieldsHeight(fields) < bound
    requires FieldsTell(configuration, heap, fields, depth, path, a, bound)
    requires FieldsTell(configuration, heap, fields, depth, path, b, bound)
    ensures a == b
    decreases Unseen(heap, path), bound, 0
  {
    hide Tells, Unseen, Height, FieldsHeight, ShowsNames, Counts;
    NamedKids(a, b, iset name | VisibleName(fields, name));
    forall i | 0 <= i < |a.kids| ensures a.kids[i] == b.kids[i] {
      var name := a.kids[i].place.name;
      var j :| Counts(fields, j, name);
      CountsIsAField(fields, j, name);
      if !configuration.sensitive(name) {
        FieldsAreBelow(fields, j);
        OneTreeTells(configuration, heap, fields[j].value, depth + 1, path, a.kids[i].tree, b.kids[i].tree);
      }
    }
    assert a.kids == b.kids;
  }

  lemma CountsIsAField(fields: seq<Field>, j: int, name: string)
    requires Counts(fields, j, name)
    ensures 0 <= j < |fields|
  {
  }

  /** Without the budget, the sanitizer's tree is the one and only tree that tells the payload. */
  lemma TheTreeTellsThePayload(
    configuration: Configuration, heap: Heap, value: Value, depth: nat, path: set<Visit>, tree: Tree)
    ensures tree == Reference(configuration, heap, value, depth, path)
            <==> Tells(configuration, heap, value, depth, path, tree)
  {
    hide Tells, Reference;
    ReferenceTells(configuration, heap, value, depth, path);
    if Tells(configuration, heap, value, depth, path, tree) {
      OneTreeTells(configuration, heap, value, depth, path, tree, Reference(configuration, heap, value, depth, path));
    }
  }
}
