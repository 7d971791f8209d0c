/** What every sanitized payload keeps to: the node budget, the array cap, the nesting limit, and its own counts. */
module Bounds {
  import opened Configurations
  import opened Payload
  import opened Budget
  import opened Output
  import opened Sanitizers
  import opened Markers
  import opened Lex
  import opened Utf8
  import opened Keys
  import opened Wrappers

  /**
   The tree nests at most `room` levels of JSON containers. A binary or truncation marker is an
   object of its own, and a list may hold an omission marker object.
   */
  ghost predicate Fits(tree: Tree, room: int) {
    match tree
    case Atom(leaf) => leaf.BinaryMarker? || leaf.TruncatedMarker? ==> room >= 1
    case Branch(shape, kids, _) =>
      && room >= (if shape.List? then 2 else 1)
      && forall kid :: kid in kids ==> Fits(kid.tree, room - 1)
  }

  ghost predicate ListsCapped(tree: Tree, cap: nat) {
    match tree
    case Atom(_) => true
    case Branch(shape, kids, _) =>
      && (shape.List? ==> |kids| <= cap)
      && forall kid :: kid in kids ==> ListsCapped(kid.tree, cap)
  }

  ghost predicate Bounded(configuration: Configuration, tree: Tree, depth: nat) {
    Fits(tree, configuration.maxDepth + 2 - depth) && ListsCapped(tree, configuration.maxArrayItems)
  }

  lemma {:induction false} ReferenceIsBounded(
    configuration: Configuration, heap: Heap, value: Value, depth: nat, path: set<Visit>)
    requires depth <= configuration.maxDepth + 1
    ensures Bounded(configuration, Reference(configuration, heap, value, depth, path), depth)
    decreases Unseen(heap, path), Height(value), 2, 0
  {
    hide StringLeaf, BinaryLeaf, ListTree, StructTree, Inside, Unseen;
    if depth <= configuration.maxDepth {
      match value
      case Marshaled(_, decoded) =>
        if decoded.Some? { ReferenceIsBounded(configuration, heap, decoded.value, depth, path); }
      case GoArray(items) =>
        ListIsBounded(configuration, heap, items, depth, path, Height(value));
      case Struct(fields) =>
        StructIsBounded(configuration, heap, fields, depth, path, Height(value));
      case Ref(cell) =>
        if cell in heap && heap[cell].visit !in path {
          EnteringLeavesLess(heap, cell, path);
          InsideIsBounded(configuration, heap, heap[cell].node, depth, path + {heap[cell].visit});
        }
      case _ =>
    }
  }

  lemma {:induction false} ListIsBounded(
    configuration: Configuration, heap: Heap, items: seq<Value>, depth: nat, path: set<Visit>, bound: nat)
    requires Below(ListSlots(items), bound) && depth <= configuration.maxDepth
    ensures Bounded(configuration, ListTree(configuration, heap, items, depth, path, bound), depth)
    decreases Unseen(heap, path), bound, 1, 0
  {
    hide Reference, Kids, Height;
    KidsAreBounded(configuration, heap, Shown(configuration, ListSlots(items)), depth + 1, path, bound);
  }

  lemma {:induction false} StructIsBounded(
    configuration: Configuration, heap: Heap, fields: seq<Field>, depth: nat, path: set<Visit>, bound: nat)
    requires FieldsHeight(fields) < bound && depth <= configuration.maxDepth
    ensures Bounded(configuration, StructTree(configuration, heap, fields, depth, path, bound), depth)
    decreases Unseen(heap, path), bound, 1, 0
  {
    hide Reference, Kids, Height, StructSlots, FieldsHeight, Unseen;
    StructSlotsBelow(fields, bound);
    KidsAreBounded(configuration, heap, StructSlots(fields), depth + 1, path, bound);
  }

  lemma {:induction false} InsideIsBounded(
    configuration: Configuration, heap: Heap, node: Node, depth: nat, path: set<Visit>)
    requires depth <= configuration.maxDepth
    ensures Bounded(configuration, Inside(configuration, heap, node, depth, path), depth)
    decreases Unseen(heap, path), NodeHeight(node), 3, 0
  {
    hide Reference, Kids, MapSlots, Unseen;
    match node
    case Pointee(value) => ReferenceIsBounded(configuration, heap, value, depth, path);
    case OtherMap(_, decoded) =>
      if decoded.Some? { ReferenceIsBounded(configuration, heap, decoded.value, depth, path); }
    case StringMap(entries) =>
      var slots := MapSlots(entries);
      KidsAreBounded(configuration, heap, slots, depth + 1, path, SlotsHeight(slots));
    case Slice(items) =>
      ListIsBounded(configuration, heap, items, depth, path, SlotsHeight(ListSlots(items)));
  }

  lemma {:induction false} KidsAreBounded(
    configuration: Configuration, heap: Heap, slots: seq<Slot>, depth: nat, path: set<Visit>, bound: nat)
    requires Below(slots, bound) && depth <= configuration.maxDepth + 1
    ensures forall kid :: kid in Kids(configuration, heap, slots, depth, path, bound) ==>
              Bounded(configuration, kid.tree, depth)
    decreases Unseen(heap, path), bound, 0, |slots|
  {
    hide Reference, Unseen;
    if slots != [] {
      var last := |slots| - 1;
      KidsAreBounded(configuration, heap, slots[..last], depth, path, bound);
      if !Secret(configuration, slots[last].place) {
        ReferenceIsBounded(configuration, heap, slots[last].value, depth, path);
      }
    }
  }

  /** Cutting keeps the bounds: it only drops kids. */
  lemma {:induction false} TrimmingKeepsBounds(cut: Tree, whole: Tree, room: int, cap: nat)
    requires Trims(cut, whole) && Fits(whole, room) && ListsCapped(whole, cap)
    ensures Fits(cut, room) && ListsCapped(cut, cap)
  {
    if cut.Branch? {
      forall kid | kid in cut.kids ensures Fits(kid.tree, room - 1) && ListsCapped(kid.tree, cap) {
        var i :| 0 <= i < |cut.kids| && cut.kids[i] == kid;
        assert whole.kids[i] in whole.kids;
        TrimmingKeepsBounds(kid.tree, whole.kids[i].tree, room - 1, cap);
      }
    }
  }

  /** The theorem, for whole payloads: the sanitized tree and all it promises about its size. */
  lemma SanitizedIsBounded(configuration: Configuration, heap: Heap, root: CellId)
    requires root in heap && heap[root].node.StringMap? && configuration.maxDepth >= 1
    ensures var whole := Inside(configuration, heap, heap[root].node, 1, {heap[root].visit});
            var cut := Cut(whole, configuration.maxPayloadNodes);
            && Sanitized(configuration, heap, root) == Emit(configuration, cut)
            && Nodes(cut) <= configuration.maxPayloadNodes
            && (Nodes(cut) < configuration.maxPayloadNodes ==> cut == whole)
            && Fits(cut, configuration.maxDepth + 1)
            && ListsCapped(cut, configuration.maxArrayItems)
            && cut.Branch? && |cut.kids| + cut.omitted == |heap[root].node.entries|
  {
    hide Reference, Kids, MapSlots, Cut;
    var whole := Inside(configuration, heap, heap[root].node, 1, {heap[root].visit});
    InsideIsBounded(configuration, heap, heap[root].node, 1, {heap[root].visit});
    CutSpends(whole, configuration.maxPayloadNodes);
    CutTrims(whole, configuration.maxPayloadNodes);
    TrimmingKeepsBounds(Cut(whole, configuration.maxPayloadNodes), whole, configuration.maxDepth + 1, configuration.maxArrayItems);
  }

  // What is shown and what is omitted

  /** A container of the payload: its entries in the order visited, and the references open inside it. */
  datatype Contents = Contents(slots: seq<Slot>, path: set<Visit>)

  /** The container that a value leads to, through pointers and marshalers. */
  ghost function ContentsOf(heap: Heap, value: Value, path: set<Visit>): Option<Contents>
    decreases Unseen(heap, path), Height(value), 0
  {
    match value
    case GoArray(items) => Some(Contents(ListSlots(items), path))
    case Struct(fields) => Some(Contents(StructSlots(fields), path))
    case Marshaled(_, decoded) => if decoded.None? then None else ContentsOf(heap, decoded.value, path)
    case Ref(cell) =>
      if cell !in heap || heap[cell].visit in path then None
      else
        EnteringLeavesLess(heap, cell, path);
        NodeContents(heap, heap[cell].node, path + {heap[cell].visit})
    case _ => None
  }

  ghost function NodeContents(heap: Heap, node: Node, path: set<Visit>): Option<Contents>
    decreases Unseen(heap, path), NodeHeight(node), 1
  {
    match node
    case Pointee(value) => ContentsOf(heap, value, path)
    case OtherMap(_, decoded) => if decoded.None? then None else ContentsOf(heap, decoded.value, path)
    case StringMap(entries) => Some(Contents(MapSlots(entries), path))
    case Slice(items) => Some(Contents(ListSlots(items), path))
  }

  /**
   A container of `entries` entries, as emitted: what it shows and what it says it omits never
   exceeds its entries, and accounts for all of them exactly if no two of its keys collide.
   */
  ghost predicate Balances(configuration: Configuration, tree: Tree, entries: nat) {
    match Emit(configuration, tree)
    case Scalar(_) => false
    case Items(items, omitted) => |items| + omitted == entries
    case Data(fields, omitted) =>
      && |fields| + omitted <= entries
      && (|fields| + omitted == entries <==> NoCollisions(configuration, tree.kids))
  }

  /** Every container in the tree shows the first entries of its payload container, and balances. */
  ghost predicate Accounted(configuration: Configuration, heap: Heap, tree: Tree, contents: Option<Contents>) {
    match tree
    case Atom(_) => true
    case Branch(_, kids, omitted) =>
      && contents.Some?
      && |kids| + omitted == |contents.value.slots|
      && Balances(configuration, tree, |contents.value.slots|)
      && forall i :: 0 <= i < |kids| ==>
           var slot := contents.value.slots[i];
           && kids[i].place == slot.place
           && Accounted(configuration, heap, kids[i].tree,
                        if Secret(configuration, slot.place) then None
                        else ContentsOf(heap, slot.value, contents.value.path))
  }

  lemma {:induction false} AssignedCounts(configuration: Configuration, kids: seq<Kid>)
    ensures |Assigned(configuration, kids)| <= |kids|
    ensures |Assigned(configuration, kids)| == |kids| <==> NoCollisions(configuration, kids)
    ensures forall key :: key in Assigned(configuration, kids) <==> exists i :: 0 <= i < |kids| && KeyAt(configuration, kids, i) == key
  {
    hide AssignedKey, Emit, NameOf, Assigned, KeyAt, NoCollisions;
    if kids == [] {
      NoKeys(configuration);
    } else {
      AssignedCounts(configuration, kids[..|kids| - 1]);
      CollisionsOfOneMore(configuration, kids);
      KeysOfOneMore(configuration, kids);
      assert |Assigned(configuration, kids)| == |Assigned(configuration, kids).Keys|;
    }
  }

  lemma NoKeys(configuration: Configuration)
    ensures Assigned(configuration, []) == map[] && NoCollisions(configuration, [])
  {
  }

  lemma CollisionsOfOneMore(configuration: Configuration, kids: seq<Kid>)
    requires kids != []
    ensures var last := |kids| - 1;
            && (forall i :: 0 <= i < last ==> KeyAt(configuration, kids[..last], i) == KeyAt(configuration, kids, i))
            && (NoCollisions(configuration, kids) <==>
                  && NoCollisions(configuration, kids[..last])
                  && forall i :: 0 <= i < last ==> KeyAt(configuration, kids, i) != KeyAt(configuration, kids, last))
  {
    hide AssignedKey, NameOf;
    var last := |kids| - 1;
    var before := kids[..last];
    assert forall i :: 0 <= i < last ==> KeyAt(configuration, before, i) == KeyAt(configuration, kids, i);
  }

  lemma KeysOfOneMore(configuration: Configuration, kids: seq<Kid>)
    requires kids != []
    ensures var last := |kids| - 1;
            Assigned(configuration, kids).Keys == Assigned(configuration, kids[..last]).Keys + {KeyAt(configuration, kids, last)}
  {
    hide AssignedKey, Emit, NameOf;
  }

  lemma {:induction false} EmittedCounts(configuration: Configuration, kids: seq<Kid>)
    ensures |Emitted(configuration, kids)| == |kids|
  {
    if kids != [] { EmittedCounts(configuration, kids[..|kids| - 1]); }
  }

  lemma ContainersBalance(configuration: Configuration, shape: Shape, kids: seq<Kid>, omitted: nat)
    ensures Balances(configuration, Branch(shape, kids, omitted), |kids| + omitted)
  {
    hide Assigned, Emitted, NoCollisions;
    AssignedCounts(configuration, kids);
    EmittedCounts(configuration, kids);
  }

  lemma {:induction false} ReferenceIsAccounted(
    configuration: Configuration, heap: Heap, value: Value, depth: nat, path: set<Visit>)
    ensures Accounted(configuration, heap, Reference(configuration, heap, value, depth, path), ContentsOf(heap, value, path))
    decreases Unseen(heap, path), Height(value), 2, 0
  {
    hide StringLeaf, BinaryLeaf, MapSlots, StructSlots, Inside, Unseen, Kids, Balances;
    if depth <= configuration.maxDepth {
      match value
      case Marshaled(_, decoded) =>
        if decoded.Some? { ReferenceIsAccounted(configuration, heap, decoded.value, depth, path); }
      case GoArray(items) =>
        ContainerIsAccounted(configuration, heap, List, ListSlots(items), |Shown(configuration, ListSlots(items))|,
                             depth, path, Height(value));
      case Struct(fields) =>
        StructSlotsBelow(fields, Height(value));
        ContainerIsAccounted(configuration, heap, Object, StructSlots(fields), |StructSlots(fields)|, depth, path, Height(value));
      case Ref(cell) =>
        if cell in heap && heap[cell].visit !in path {
          EnteringLeavesLess(heap, cell, path);
          InsideIsAccounted(configuration, heap, heap[cell].node, depth, path + {heap[cell].visit});
        }
      case _ =>
    }
  }

  lemma {:induction false} InsideIsAccounted(
    configuration: Configuration, heap: Heap, node: Node, depth: nat, path: set<Visit>)
    ensures Accounted(configuration, heap, Inside(configuration, heap, node, depth, path), NodeContents(heap, node, path))
    decreases Unseen(heap, path), NodeHeight(node), 3, 0
  {
    hide Reference, Kids, Balances, Accounted, Unseen;
    match node
    case Pointee(value) => ReferenceIsAccounted(configuration, heap, value, depth, path);
    case OtherMap(_, decoded) =>
      if decoded.Some? {
        ReferenceIsAccounted(configuration, heap, decoded.value, depth, path);
      } else {
        AtomsAreAccounted(configuration, heap, SerializationFailed(node.typeName), NodeContents(heap, node, path));
      }
    case StringMap(entries) =>
      var slots := MapSlots(entries);
      ContainerIsAccounted(configuration, heap, Object, slots, |slots|, depth, path, SlotsHeight(slots));
    case Slice(items) =>
      var slots := ListSlots(items);
      ContainerIsAccounted(configuration, heap, List, slots, |Shown(configuration, slots)|, depth, path, SlotsHeight(slots));
  }

  lemma AtomsAreAccounted(configuration: Configuration, heap: Heap, leaf: Leaf, contents: Option<Contents>)
    ensures Accounted(configuration, heap, Atom(leaf), contents)
  {
  }

  lemma {:induction false} ContainerIsAccounted(
    configuration: Configuration, heap: Heap, shape: Shape, slots: seq<Slot>, shown: nat, depth: nat, path: set<Visit>, bound: nat)
    requires Below(slots, bound) && shown <= |slots|
    ensures slots[..|slots|] == slots
    ensures Accounted(configuration, heap,
                      Branch(shape, Kids(configuration, heap, slots[..shown], depth + 1, path, bound), |slots| - shown),
                      Some(Contents(slots, path)))
    decreases Unseen(heap, path), bound, 1, 0
  {
    hide Reference, Kids, Balances, Accounted, Unseen;
    var kids := Kids(configuration, heap, slots[..shown], depth + 1, path, bound);
    ContainersBalance(configuration, shape, kids, |slots| - shown);
    forall i | 0 <= i < shown
      ensures kids[i].place == slots[i].place
      ensures Accounted(configuration, heap, kids[i].tree,
                        if Secret(configuration, slots[i].place) then None else ContentsOf(heap, slots[i].value, path))
    {
      KidAt(configuration, heap, slots[..shown], depth + 1, path, bound, i);
      if Secret(configuration, slots[i].place) {
        AtomsAreAccounted(configuration, heap, Redacted, None);
      } else {
        ReferenceIsAccounted(configuration, heap, slots[i].value, depth + 1, path);
      }
    }
    BranchIsAccounted(configuration, heap, shape, kids, |slots| - shown, Contents(slots, path));
  }

  lemma BranchIsAccounted(
    configuration: Configuration, heap: Heap, shape: Shape, kids: seq<Kid>, omitted: nat, contents: Contents)
    requires |kids| + omitted == |contents.slots|
    requires Balances(configuration, Branch(shape, kids, omitted), |contents.slots|)
    requires forall i :: 0 <= i < |kids| ==>
               && kids[i].place == contents.slots[i].place
               && Accounted(configuration, heap, kids[i].tree,
                            if Secret(configuration, contents.slots[i].place) then None
                            else ContentsOf(heap, contents.slots[i].value, contents.path))
    ensures Accounted(configuration, heap, Branch(shape, kids, omitted), Some(contents))
  {
    hide Balances;
  }

  lemma {:induction false} TrimmingKeepsAccounts(
    configuration: Configuration, heap: Heap, cut: Tree, whole: Tree, contents: Option<Contents>)
    requires Trims(cut, whole) && Accounted(configuration, heap, whole, contents)
    ensures Accounted(configuration, heap, cut, contents)
    decreases cut
  {
    hide Balances;
    if cut.Branch? {
      forall i | 0 <= i < |cut.kids|
        ensures Accounted(configuration, heap, cut.kids[i].tree,
                          if Secret(configuration, contents.value.slots[i].place) then None
                          else ContentsOf(heap, contents.value.slots[i].value, contents.value.path))
      {
        TrimmingKeepsAccounts(configuration, heap, cut.kids[i].tree, whole.kids[i].tree,
                              if Secret(configuration, contents.value.slots[i].place) then None
                              else ContentsOf(heap, contents.value.slots[i].value, contents.value.path));
      }
      ContainersBalance(configuration, cut.shape, cut.kids, cut.omitted);
      BranchIsAccounted(configuration, heap, cut.shape, cut.kids, cut.omitted, contents.value);
    }
  }

  /**
   Nothing is lost silently, unless keys collide: in the result for any payload, under any budget,
   every container at any depth shows its first entries and omits the rest, and as emitted it
   accounts for all of its entries exactly if no two keys of those it shows are assigned alike.
   */
  lemma NothingIsLostSilently(configuration: Configuration, heap: Heap, root: CellId)
    requires root in heap
    ensures var node, path := heap[root].node, {heap[root].visit};
            var cut := Cut(Inside(configuration, heap, node, 1, path), configuration.maxPayloadNodes);
            && Sanitized(configuration, heap, root) == Emit(configuration, cut)
            && Accounted(configuration, heap, cut, NodeContents(heap, node, path))
  {
    hide Accounted, Inside, Cut, Trims, Emit;
    var whole := Inside(configuration, heap, heap[root].node, 1, {heap[root].visit});
    InsideIsAccounted(configuration, heap, heap[root].node, 1, {heap[root].visit});
    CutTrims(whole, configuration.maxPayloadNodes);
    TrimmingKeepsAccounts(configuration, heap, Cut(whole, configuration.maxPayloadNodes), whole,
                          NodeContents(heap, heap[root].node, {heap[root].visit}));
  }

  /** A payload of one map: a key over the limit, and the key within it that spells its truncation. */
  function TwinPayload(configuration: Configuration, long: string): Heap {
    map[0 := Cell(Visit("map", 0),
                  StringMap(map[long := Nil, NormalizeKey(configuration.digest, configuration.maxKeyBytes, long) := Nil]))]
  }

  /** It loses an entry: two go in, one comes out, and none is said to be omitted. */
  lemma TwinIsLost(configuration: Configuration, long: string)
    requires IsDigest(configuration.digest) && configuration.maxKeyBytes >= MIN_MAX_KEY_BYTES
    requires |long| > configuration.maxKeyBytes && configuration.maxPayloadNodes >= 2
    ensures TwinPayload(configuration, long)[0].node.entries.Keys
            == {long, NormalizeKey(configuration.digest, configuration.maxKeyBytes, long)}
    ensures |TwinPayload(configuration, long)[0].node.entries| == 2
    ensures var out := Sanitized(configuration, TwinPayload(configuration, long), 0);
            out.Data? && |out.fields| <= 1 && out.omitted == 0
  {
    hide NormalizeKey, Cut, Nodes, Inside, Less, SortedKeys, Truncated;
    var heap := TwinPayload(configuration, long);
    var twin := NormalizeKey(configuration.digest, configuration.maxKeyBytes, long);
    AssignedKeyIsBounded(configuration.digest, configuration.maxKeyBytes, long);
    var entries := heap[0].node.entries;
    assert entries.Keys == {long, twin} && |entries| == |entries.Keys|;
    NothingIsLostSilently(configuration, heap, 0);
    TwinTree(configuration, heap, entries, {Visit("map", 0)});
    var whole := Inside(configuration, heap, StringMap(entries), 1, {Visit("map", 0)});
    CutSpends(whole, configuration.maxPayloadNodes);
    TwinsCollide(configuration, long, whole.kids);
  }

  lemma {:induction false} TwinTree(configuration: Configuration, heap: Heap, entries: map<string, Value>, path: set<Visit>)
    requires |entries| == 2 && forall key :: key in entries ==> entries[key] == Nil
    ensures var whole := Inside(configuration, heap, StringMap(entries), 1, path);
            && whole.Branch? && whole.shape.Object? && |whole.kids| == 2 && whole.omitted == 0 && Nodes(whole) == 2
            && forall i :: 0 <= i < 2 ==> whole.kids[i].place == Key(SortedKeys(entries.Keys)[i])
  {
    hide SortedKeys, Less;
    var slots := MapSlots(entries);
    var keys := SortedKeys(entries.Keys);
    assert keys[0] in keys && keys[1] in keys;
    var whole := Inside(configuration, heap, StringMap(entries), 1, path);
    KidAt(configuration, heap, slots, 2, path, SlotsHeight(slots), 0);
    KidAt(configuration, heap, slots, 2, path, SlotsHeight(slots), 1);
    assert whole == MapTree(configuration, heap, entries, 1, path);
    assert slots[0].value == Nil && slots[1].value == Nil;
    TwoAtoms(whole.kids);
  }

  lemma TwoAtoms(kids: seq<Kid>)
    requires |kids| == 2 && kids[0].tree.Atom? && kids[1].tree.Atom?
    ensures KidNodes(kids) == 2
  {
    assert KidNodes(kids[..1]) == 1;
  }

  lemma TwinsCollide(configuration: Configuration, long: string, kids: seq<Kid>)
    requires |long| > configuration.maxKeyBytes && |kids| == 2
    requires IsDigest(configuration.digest) && configuration.maxKeyBytes >= MIN_MAX_KEY_BYTES
    requires var twin := NormalizeKey(configuration.digest, configuration.maxKeyBytes, long);
             var keys := SortedKeys({long, twin});
             |keys| == 2 && kids[0].place == Key(keys[0]) && kids[1].place == Key(keys[1])
    ensures !NoCollisions(configuration, kids)
  {
    hide SortedKeys, Less, Truncated;
    var twin := NormalizeKey(configuration.digest, configuration.maxKeyBytes, long);
    AssignedKeyIsBounded(configuration.digest, configuration.maxKeyBytes, long);
    var keys := SortedKeys({long, twin});
    assert keys[0] in keys && keys[1] in keys;
    assert KeyAt(configuration, kids, 0) == KeyAt(configuration, kids, 1);
  }
}
