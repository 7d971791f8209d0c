/**
 Sharing and cycles: on a payload without cycles the sanitizer sees the tree that the payload
 unfolds to; and exactly which payloads get a circular marker.
 */
module Unfolding {
  import opened Wrappers
  import opened Configurations
  import opened Payload
  import opened Budget
  import opened Output
  import opened Sanitizers

  /** A payload without references. A `Guard` is a pointer or a marshaler: checked for depth, not deeper. */
  datatype Unfolded =
    | Flat(value: Value)
    | Failed(typeName: string)
    | Guard(inner: Unfolded)
    | Container(shape: Shape, parts: seq<Part>)

  datatype Part = Part(place: Place, content: Unfolded)

  predicate IsFlat(value: Value) {
    value.Nil? || value.Prim? || value.Str? || value.Bytes? || value.Opaque? || value.Texted?
  }

  /** What the sanitizer makes of a tree, with no notion of a reference. */
  ghost function TreeMeaning(configuration: Configuration, u: Unfolded, depth: nat): Tree
    decreases u, 0
  {
    match u
    case Flat(value) => if IsFlat(value) then Reference(configuration, map[], value, depth, {}) else Atom(Null)
    case Failed(typeName) =>
      Atom(if depth > configuration.maxDepth then MaxDepthExceeded else SerializationFailed(typeName))
    case Guard(inner) =>
      if depth > configuration.maxDepth then Atom(MaxDepthExceeded) else TreeMeaning(configuration, inner, depth)
    case Container(shape, parts) =>
      if depth > configuration.maxDepth then Atom(MaxDepthExceeded)
      else
        var shown := if shape.List? && |parts| > configuration.maxArrayItems then configuration.maxArrayItems else |parts|;
        Branch(shape, PartsMeaning(configuration, parts, shown, depth + 1), |parts| - shown)
  }

  ghost function PartsMeaning(configuration: Configuration, parts: seq<Part>, shown: nat, depth: nat): (kids: seq<Kid>)
    requires shown <= |parts|
    ensures |kids| == shown
    decreases parts, shown
  {
    if shown == 0 then []
    else
      var part := parts[shown - 1];
      assert part.content < part;
      PartsMeaning(configuration, parts, shown - 1, depth)
      + [Kid(part.place,
             if Secret(configuration, part.place) then Atom(Redacted)
             else TreeMeaning(configuration, part.content, depth))]
  }

  // Payloads without cycles

  /** A heap, the cells that matter, and a rank for each of them. */
  datatype Ranking = Ranking(heap: Heap, cells: set<CellId>, rank: CellId -> nat)

  /** Every reference that the sanitizer may follow from `value` leads to a cell of rank below `limit`. */
  ghost predicate ValueBelow(configuration: Configuration, r: Ranking, value: Value, limit: nat)
    decreases Height(value), 1
  {
    match value
    case Ref(cell) => cell in r.heap ==> cell in r.cells && r.rank(cell) < limit
    case Marshaled(_, decoded) => decoded.Some? ==> ValueBelow(configuration, r, decoded.value, limit)
    case GoArray(items) => SlotsBelow(configuration, r, Shown(configuration, ListSlots(items)), limit, Height(value))
    case Struct(fields) =>
      StructSlotsBelow(fields, Height(value));
      SlotsBelow(configuration, r, StructSlots(fields), limit, Height(value))
    case _ => true
  }

  ghost predicate SlotsBelow(configuration: Configuration, r: Ranking, slots: seq<Slot>, limit: nat, bound: nat)
    requires Below(slots, bound)
    decreases bound, 0
  {
    forall i :: 0 <= i < |slots| && !Secret(configuration, slots[i].place) ==>
      ValueBelow(configuration, r, slots[i].value, limit)
  }

  ghost predicate NodeBelow(configuration: Configuration, r: Ranking, node: Node, limit: nat) {
    match node
    case Pointee(value) => ValueBelow(configuration, r, value, limit)
    case OtherMap(_, decoded) => decoded.Some? ==> ValueBelow(configuration, r, decoded.value, limit)
    case StringMap(entries) => SlotsBelow(configuration, r, MapSlots(entries), limit, SlotsHeight(MapSlots(entries)))
    case Slice(items) =>
      SlotsBelow(configuration, r, Shown(configuration, ListSlots(items)), limit, SlotsHeight(ListSlots(items)))
  }

  /** No path of references that the sanitizer may follow returns to a cell. */
  ghost predicate Acyclic(configuration: Configuration, r: Ranking) {
    forall cell :: cell in r.cells ==>
      cell in r.heap && NodeBelow(configuration, r, r.heap[cell].node, r.rank(cell))
  }

  ghost function Unfold(configuration: Configuration, r: Ranking, value: Value, limit: nat): Unfolded
    requires Acyclic(configuration, r) && ValueBelow(configuration, r, value, limit)
    decreases limit, Height(value), 2, 0
  {
    match value
    case Ref(cell) =>
      if cell !in r.heap then Flat(Nil)
      else UnfoldNode(configuration, r, r.heap[cell].node, r.rank(cell))
    case Marshaled(typeName, decoded) =>
      if decoded.None? then Failed(typeName) else Guard(Unfold(configuration, r, decoded.value, limit))
    case GoArray(items) =>
      Container(List, UnfoldList(configuration, r, items, limit, Height(value)))
    case Struct(fields) =>
      StructSlotsBelow(fields, Height(value));
      Container(Object, UnfoldSlots(configuration, r, StructSlots(fields), limit, Height(value)))
    case _ => Flat(value)
  }

  ghost function UnfoldNode(configuration: Configuration, r: Ranking, node: Node, limit: nat): Unfolded
    requires Acyclic(configuration, r) && NodeBelow(configuration, r, node, limit)
    decreases limit, NodeHeight(node), 3, 0
  {
    match node
    case Pointee(value) => Guard(Unfold(configuration, r, value, limit))
    case OtherMap(typeName, decoded) =>
      if decoded.None? then Failed(typeName) else Guard(Unfold(configuration, r, decoded.value, limit))
    case StringMap(entries) =>
      Container(Object, UnfoldSlots(configuration, r, MapSlots(entries), limit, SlotsHeight(MapSlots(entries))))
    case Slice(items) =>
      Container(List, UnfoldList(configuration, r, items, limit, SlotsHeight(ListSlots(items))))
  }

  /** What lies behind the cap on list items is not looked at. */
  ghost function UnfoldList(configuration: Configuration, r: Ranking, items: seq<Value>, limit: nat, bound: nat)
    : (parts: seq<Part>)
    requires Acyclic(configuration, r) && Below(ListSlots(items), bound)
    requires SlotsBelow(configuration, r, Shown(configuration, ListSlots(items)), limit, bound)
    ensures |parts| == |items|
    decreases limit, bound, 1, 0
  {
    var shown := Shown(configuration, ListSlots(items));
    UnfoldSlots(configuration, r, shown, limit, bound)
    + seq(|items| - |shown|, i requires 0 <= i < |items| - |shown| => Part(Index(|shown| + i), Flat(Nil)))
  }

  /** Nor is what lies under a secret. */
  ghost function UnfoldSlots(configuration: Configuration, r: Ranking, slots: seq<Slot>, limit: nat, bound: nat)
    : (parts: seq<Part>)
    requires Acyclic(configuration, r) && Below(slots, bound) && SlotsBelow(configuration, r, slots, limit, bound)
    ensures |parts| == |slots|
    decreases limit, bound, 0, |slots|
  {
    if slots == [] then []
    else
      var last := |slots| - 1;
      UnfoldSlots(configuration, r, slots[..last], limit, bound)
      + [Part(slots[last].place,
              if Secret(configuration, slots[last].place) then Flat(Nil)
              else Unfold(configuration, r, slots[last].value, limit))]
  }

  ghost predicate NoCircular(tree: Tree) {
    match tree
    case Atom(leaf) => !leaf.CircularReference?
    case Branch(_, kids, _) => forall kid :: kid in kids ==> NoCircular(kid.tree)
  }

  ghost predicate KidsHaveNoCircular(kids: seq<Kid>) {
    forall kid :: kid in kids ==> NoCircular(kid.tree)
  }

  // Without a circular marker, an acyclic payload means its unfolding

  lemma {:induction false} ValueMeansItsUnfolding(
    configuration: Configuration, r: Ranking, value: Value, limit: nat, depth: nat, path: set<Visit>)
    requires Acyclic(configuration, r) && ValueBelow(configuration, r, value, limit)
    requires NoCircular(Reference(configuration, r.heap, value, depth, path))
    ensures Reference(configuration, r.heap, value, depth, path)
         == TreeMeaning(configuration, Unfold(configuration, r, value, limit), depth)
    decreases limit, Height(value), 2, 0
  {
    hide Acyclic, StringLeaf, BinaryLeaf, MapSlots, StructSlots, Kids, StructTree, ListTree, Inside, SlotsBelow;
    hide UnfoldSlots, UnfoldList, UnfoldNode, PartsMeaning, NoCircular, Unseen;
    if IsFlat(value) {
      FlatValuesMeanThemselves(configuration, r, value, limit, depth, path);
      return;
    }
    match value
    case Ref(cell) =>
      if cell in r.heap {
        CellMeansItsUnfolding(configuration, r, cell, limit, depth, path);
      }
    case Marshaled(_, decoded) =>
      if decoded.Some? && depth <= configuration.maxDepth {
        ValueMeansItsUnfolding(configuration, r, decoded.value, limit, depth, path);
      }
    case GoArray(items) =>
      if depth <= configuration.maxDepth {
        ListMeansItsUnfolding(configuration, r, items, limit, depth, path, Height(value));
      }
    case Struct(fields) =>
      if depth <= configuration.maxDepth {
        StructMeansItsUnfolding(configuration, r, fields, limit, depth, path);
      }
  }

  lemma FlatValuesMeanThemselves(
    configuration: Configuration, r: Ranking, value: Value, limit: nat, depth: nat, path: set<Visit>)
    requires IsFlat(value) && Acyclic(configuration, r) && ValueBelow(configuration, r, value, limit)
    ensures Reference(configuration, r.heap, value, depth, path)
         == TreeMeaning(configuration, Unfold(configuration, r, value, limit), depth)
    ensures NoCircular(Reference(configuration, r.heap, value, depth, path))
  {
    hide Acyclic;
  }

  lemma {:induction false} CellMeansItsUnfolding(
    configuration: Configuration, r: Ranking, cell: CellId, limit: nat, depth: nat, path: set<Visit>)
    requires Acyclic(configuration, r) && cell in r.heap && cell in r.cells && r.rank(cell) < limit
    requires NoCircular(Reference(configuration, r.heap, Ref(cell), depth, path))
    ensures ValueBelow(configuration, r, Ref(cell), limit)
    ensures Reference(configuration, r.heap, Ref(cell), depth, path)
         == TreeMeaning(configuration, Unfold(configuration, r, Ref(cell), limit), depth)
    decreases limit, 0, 1, 0
  {
    hide Acyclic, Kids, NodeBelow, UnfoldNode, Inside, TreeMeaning;
    CellIsBelow(configuration, r, cell);
    if depth <= configuration.maxDepth {
      EnteringLeavesLess(r.heap, cell, path);
      NodeMeansItsUnfolding(configuration, r, r.heap[cell].node, r.rank(cell), depth, path + {r.heap[cell].visit});
    } else {
      TooDeep(configuration, r, cell, depth);
    }
  }

  lemma CellIsBelow(configuration: Configuration, r: Ranking, cell: CellId)
    requires Acyclic(configuration, r) && cell in r.cells
    ensures cell in r.heap && NodeBelow(configuration, r, r.heap[cell].node, r.rank(cell))
  {
  }

  lemma TooDeep(configuration: Configuration, r: Ranking, cell: CellId, depth: nat)
    requires Acyclic(configuration, r) && cell in r.cells && depth > configuration.maxDepth
    requires cell in r.heap && NodeBelow(configuration, r, r.heap[cell].node, r.rank(cell))
    ensures TreeMeaning(configuration, UnfoldNode(configuration, r, r.heap[cell].node, r.rank(cell)), depth)
         == Atom(MaxDepthExceeded)
  {
    hide Acyclic, NodeBelow, UnfoldSlots, UnfoldList, Unfold;
  }

  lemma {:induction false} StructMeansItsUnfolding(
    configuration: Configuration, r: Ranking, fields: seq<Field>, limit: nat, depth: nat, path: set<Visit>)
    requires Acyclic(configuration, r) && ValueBelow(configuration, r, Struct(fields), limit)
    requires depth <= configuration.maxDepth && NoCircular(Reference(configuration, r.heap, Struct(fields), depth, path))
    ensures Reference(configuration, r.heap, Struct(fields), depth, path)
         == TreeMeaning(configuration, Unfold(configuration, r, Struct(fields), limit), depth)
    decreases limit, Height(Struct(fields)), 1, 0
  {
    hide Acyclic, StructSlots, Kids, PartsMeaning, UnfoldSlots;
    var bound, slots := Height(Struct(fields)), StructSlots(fields);
    StructSlotsBelow(fields, bound);
    assert ValueBelow(configuration, r, Struct(fields), limit) ==> SlotsBelow(configuration, r, slots, limit, bound);
    SlotsMeanTheirUnfolding(configuration, r, slots, limit, depth + 1, path, bound);
  }

  lemma {:induction false} NodeMeansItsUnfolding(
    configuration: Configuration, r: Ranking, node: Node, limit: nat, depth: nat, path: set<Visit>)
    requires Acyclic(configuration, r) && NodeBelow(configuration, r, node, limit)
    requires depth <= configuration.maxDepth && NoCircular(Inside(configuration, r.heap, node, depth, path))
    ensures Inside(configuration, r.heap, node, depth, path)
         == TreeMeaning(configuration, UnfoldNode(configuration, r, node, limit), depth)
    decreases limit, NodeHeight(node), 3, 0
  {
    hide Acyclic, ValueBelow, Reference, Height, Kids, PartsMeaning, MapSlots, UnfoldSlots, SlotsBelow;
    match node
    case Pointee(value) => ValueMeansItsUnfolding(configuration, r, value, limit, depth, path);
    case OtherMap(_, decoded) =>
      if decoded.Some? {
        ValueMeansItsUnfolding(configuration, r, decoded.value, limit, depth, path);
      }
    case StringMap(entries) =>
      var slots := MapSlots(entries);
      SlotsMeanTheirUnfolding(configuration, r, slots, limit, depth + 1, path, SlotsHeight(slots));
    case Slice(items) =>
      ListMeansItsUnfolding(configuration, r, items, limit, depth, path, SlotsHeight(ListSlots(items)));
  }

  lemma {:induction false} ListMeansItsUnfolding(
    configuration: Configuration, r: Ranking, items: seq<Value>, limit: nat, depth: nat, path: set<Visit>, bound: nat)
    requires Acyclic(configuration, r) && Below(ListSlots(items), bound)
    requires SlotsBelow(configuration, r, Shown(configuration, ListSlots(items)), limit, bound)
    requires depth <= configuration.maxDepth && NoCircular(ListTree(configuration, r.heap, items, depth, path, bound))
    ensures ListTree(configuration, r.heap, items, depth, path, bound)
         == TreeMeaning(configuration, Container(List, UnfoldList(configuration, r, items, limit, bound)), depth)
    decreases limit, bound, 1, 0
  {
    hide Acyclic, ValueBelow, Reference, Height, UnfoldSlots, Kids, SlotsBelow, PartsMeaning;
    var shown := Shown(configuration, ListSlots(items));
    SlotsMeanTheirUnfolding(configuration, r, shown, limit, depth + 1, path, bound);
    var parts := UnfoldList(configuration, r, items, limit, bound);
    assert parts[..|shown|] == UnfoldSlots(configuration, r, shown, limit, bound);
    FirstPartsMeaning(configuration, parts, |shown|, |shown|, depth + 1);
  }

  lemma {:induction false} FirstPartsMeaning(configuration: Configuration, parts: seq<Part>, m: nat, n: nat, depth: nat)
    requires n <= m <= |parts|
    ensures PartsMeaning(configuration, parts, n, depth) == PartsMeaning(configuration, parts[..m], n, depth)
    decreases n
  {
    if n > 0 { FirstPartsMeaning(configuration, parts, m, n - 1, depth); }
  }

  lemma {:induction false} SlotsMeanTheirUnfolding(
    configuration: Configuration, r: Ranking, slots: seq<Slot>, limit: nat, depth: nat, path: set<Visit>, bound: nat)
    requires Acyclic(configuration, r) && Below(slots, bound) && SlotsBelow(configuration, r, slots, limit, bound)
    requires KidsHaveNoCircular(Kids(configuration, r.heap, slots, depth, path, bound))
    ensures Kids(configuration, r.heap, slots, depth, path, bound)
         == PartsMeaning(configuration, UnfoldSlots(configuration, r, slots, limit, bound), |slots|, depth)
    decreases limit, bound, 0, |slots|
  {
    hide Acyclic, ValueBelow, Reference, Height, TreeMeaning, NoCircular;
    if slots != [] {
      var last := |slots| - 1;
      var kids, parts := Kids(configuration, r.heap, slots, depth, path, bound), UnfoldSlots(configuration, r, slots, limit, bound);
      assert kids[last] == KidOf(configuration, r.heap, slots[last], depth, path);
      assert kids[..last] == Kids(configuration, r.heap, slots[..last], depth, path, bound);
      assert parts[..last] == UnfoldSlots(configuration, r, slots[..last], limit, bound);
      SlotsMeanTheirUnfolding(configuration, r, slots[..last], limit, depth, path, bound);
      FirstPartsMeaning(configuration, parts, last, last, depth);
      if !Secret(configuration, slots[last].place) {
        ValueMeansItsUnfolding(configuration, r, slots[last].value, limit, depth, path);
      }
    }
  }

  lemma {:induction false} TreesHaveNoCircularMarker(configuration: Configuration, u: Unfolded, depth: nat)
    ensures NoCircular(TreeMeaning(configuration, u, depth))
    decreases u, 0
  {
    match u
    case Guard(inner) => TreesHaveNoCircularMarker(configuration, inner, depth);
    case Container(shape, parts) =>
      var shown := if shape.List? && |parts| > configuration.maxArrayItems then configuration.maxArrayItems else |parts|;
      PartsHaveNoCircularMarker(configuration, parts, shown, depth + 1);
    case Flat(value) => assert NoCircular(TreeMeaning(configuration, u, depth));
    case Failed(_) =>
  }

  lemma {:induction false} PartsHaveNoCircularMarker(configuration: Configuration, parts: seq<Part>, shown: nat, depth: nat)
    requires shown <= |parts|
    ensures KidsHaveNoCircular(PartsMeaning(configuration, parts, shown, depth))
    decreases parts, shown
  {
    if shown > 0 {
      var part := parts[shown - 1];
      assert part.content < part;
      PartsHaveNoCircularMarker(configuration, parts, shown - 1, depth);
      TreesHaveNoCircularMarker(configuration, part.content, depth);
    }
  }

  // Walks

  /** A reference that the sanitizer meets, and at which depth. */
  datatype Step = Step(cell: CellId, depth: nat)

  /** From `value` at `depth`, the sanitizer comes to that reference without following another one. */
  ghost predicate Meets(configuration: Configuration, heap: Heap, value: Value, depth: nat, step: Step)
    decreases Height(value), 1
  {
    depth <= configuration.maxDepth &&
    match value
    case Ref(cell) => cell in heap && step == Step(cell, depth)
    case Marshaled(_, decoded) => decoded.Some? && Meets(configuration, heap, decoded.value, depth, step)
    case GoArray(items) => SlotsMeet(configuration, heap, Shown(configuration, ListSlots(items)), depth + 1, step, Height(value))
    case Struct(fields) =>
      StructSlotsBelow(fields, Height(value));
      SlotsMeet(configuration, heap, StructSlots(fields), depth + 1, step, Height(value))
    case _ => false
  }

  ghost predicate SlotsMeet(configuration: Configuration, heap: Heap, slots: seq<Slot>, depth: nat, step: Step, bound: nat)
    requires Below(slots, bound)
    decreases bound, 0
  {
    exists i :: 0 <= i < |slots| && !Secret(configuration, slots[i].place)
                && Meets(configuration, heap, slots[i].value, depth, step)
  }

  ghost predicate NodeMeets(configuration: Configuration, heap: Heap, node: Node, depth: nat, step: Step) {
    match node
    case Pointee(value) => Meets(configuration, heap, value, depth, step)
    case OtherMap(_, decoded) => decoded.Some? && Meets(configuration, heap, decoded.value, depth, step)
    case StringMap(entries) => SlotsMeet(configuration, heap, MapSlots(entries), depth + 1, step, SlotsHeight(MapSlots(entries)))
    case Slice(items) =>
      SlotsMeet(configuration, heap, Shown(configuration, ListSlots(items)), depth + 1, step, SlotsHeight(ListSlots(items)))
  }

  /** The sanitizer may follow these references one after the other, if nothing stops it but depth, secrets and caps. */
  ghost predicate Walk(configuration: Configuration, heap: Heap, node: Node, depth: nat, trail: seq<Step>)
    decreases |trail|
  {
    trail != [] ==>
      && NodeMeets(configuration, heap, node, depth, trail[0])
      && trail[0].cell in heap
      && Walk(configuration, heap, heap[trail[0].cell].node, trail[0].depth, trail[1..])
  }

  /** The cells of the trail have different visits, none of them on the path. */
  ghost predicate Fresh(heap: Heap, trail: seq<Step>, path: set<Visit>) {
    forall i :: 0 <= i < |trail| ==>
      && trail[i].cell in heap
      && heap[trail[i].cell].visit !in path
      && forall j :: 0 <= j < i ==> trail[j].cell in heap && heap[trail[j].cell].visit != heap[trail[i].cell].visit
  }

  lemma FreshFromFront(heap: Heap, trail: seq<Step>, path: set<Visit>)
    requires trail != []
    ensures Fresh(heap, trail, path) <==>
              && trail[0].cell in heap && heap[trail[0].cell].visit !in path
              && Fresh(heap, trail[1..], path + {heap[trail[0].cell].visit})
  {
    var rest := trail[1..];
    assert forall i :: 0 <= i < |rest| ==> rest[i] == trail[i + 1];
    if trail[0].cell in heap && heap[trail[0].cell].visit !in path && Fresh(heap, rest, path + {heap[trail[0].cell].visit}) {
      forall i | 0 <= i < |trail|
        ensures trail[i].cell in heap && heap[trail[i].cell].visit !in path
        ensures forall j :: 0 <= j < i ==> trail[j].cell in heap && heap[trail[j].cell].visit != heap[trail[i].cell].visit
      {
        if i > 0 {
          assert rest[i - 1] == trail[i];
          forall j | 0 <= j < i ensures trail[j].cell in heap && heap[trail[j].cell].visit != heap[trail[i].cell].visit {
            if j > 0 { assert rest[j - 1] == trail[j]; }
          }
        }
      }
    }
  }

  // A marker only where a walk meets one visit twice

  /** The reference is new, and so is everything that a walk from it meets. */
  ghost predicate StepIsFresh(configuration: Configuration, heap: Heap, step: Step, path: set<Visit>) {
    && step.cell in heap
    && heap[step.cell].visit !in path
    && WalksAreFresh(configuration, heap, heap[step.cell].node, step.depth, path + {heap[step.cell].visit})
  }

  ghost predicate WalksAreFresh(configuration: Configuration, heap: Heap, node: Node, depth: nat, path: set<Visit>) {
    forall trail :: Walk(configuration, heap, node, depth, trail) ==> Fresh(heap, trail, path)
  }

  lemma StepsAreFresh(configuration: Configuration, heap: Heap, node: Node, depth: nat, path: set<Visit>, step: Step)
    requires WalksAreFresh(configuration, heap, node, depth, path)
    requires NodeMeets(configuration, heap, node, depth, step) && step.cell in heap
    ensures StepIsFresh(configuration, heap, step, path)
  {
    hide NodeMeets, Fresh;
    assert Walk(configuration, heap, node, depth, [step]) && [step][1..] == [];
    FreshFromFront(heap, [step], path);
    var inner := path + {heap[step.cell].visit};
    forall trail | Walk(configuration, heap, heap[step.cell].node, step.depth, trail) ensures Fresh(heap, trail, inner) {
      var longer := [step] + trail;
      assert longer[1..] == trail && Walk(configuration, heap, node, depth, longer);
      FreshFromFront(heap, longer, path);
    }
  }

  lemma {:induction false} MetIsInHeap(configuration: Configuration, heap: Heap, value: Value, depth: nat, step: Step)
    requires Meets(configuration, heap, value, depth, step)
    ensures step.cell in heap && step.depth <= configuration.maxDepth
    decreases Height(value), 1
  {
    match value
    case Marshaled(_, decoded) => MetIsInHeap(configuration, heap, decoded.value, depth, step);
    case GoArray(items) =>
      SlotMetIsInHeap(configuration, heap, Shown(configuration, ListSlots(items)), depth + 1, step, Height(value));
    case Struct(fields) =>
      StructSlotsBelow(fields, Height(value));
      SlotMetIsInHeap(configuration, heap, StructSlots(fields), depth + 1, step, Height(value));
    case _ =>
  }

  lemma {:induction false} SlotMetIsInHeap(
    configuration: Configuration, heap: Heap, slots: seq<Slot>, depth: nat, step: Step, bound: nat)
    requires Below(slots, bound) && SlotsMeet(configuration, heap, slots, depth, step, bound)
    ensures step.cell in heap && step.depth <= configuration.maxDepth
    decreases bound, 0
  {
    var i :| 0 <= i < |slots| && !Secret(configuration, slots[i].place)
             && Meets(configuration, heap, slots[i].value, depth, step);
    MetIsInHeap(configuration, heap, slots[i].value, depth, step);
  }

  lemma NodeMetIsInHeap(configuration: Configuration, heap: Heap, node: Node, depth: nat, step: Step)
    requires NodeMeets(configuration, heap, node, depth, step)
    ensures step.cell in heap && step.depth <= configuration.maxDepth
  {
    hide Meets, SlotsMeet;
    match node
    case Pointee(value) => MetIsInHeap(configuration, heap, value, depth, step);
    case OtherMap(_, decoded) => MetIsInHeap(configuration, heap, decoded.value, depth, step);
    case StringMap(entries) =>
      SlotMetIsInHeap(configuration, heap, MapSlots(entries), depth + 1, step, SlotsHeight(MapSlots(entries)));
    case Slice(items) =>
      SlotMetIsInHeap(configuration, heap, Shown(configuration, ListSlots(items)), depth + 1, step, SlotsHeight(ListSlots(items)));
  }

  lemma {:induction false} FreshValueHasNoMarker(
    configuration: Configuration, heap: Heap, value: Value, depth: nat, path: set<Visit>)
    requires forall step :: Meets(configuration, heap, value, depth, step) ==> StepIsFresh(configuration, heap, step, path)
    ensures NoCircular(Reference(configuration, heap, value, depth, path))
    decreases Unseen(heap, path), Height(value), 2, 0
  {
    hide StringLeaf, BinaryLeaf, NoCircular, Inside, Unseen, Kids, StepIsFresh, SlotsMeet, StructSlots, ListSlots, Shown, StructTree, ListTree;
    if IsFlat(value) {
      FlatValuesAreNotCircular(configuration, heap, value, depth, path);
    } else if depth > configuration.maxDepth {
      TooDeepIsNotCircular(configuration, heap, value, depth, path);
    } else {
      match value
      case Ref(cell) =>
        if cell !in heap {
          LeafIsNotCircular(Null);
        } else {
          var step := Step(cell, depth);
          assert Meets(configuration, heap, value, depth, step);
          FreshStep(configuration, heap, step, path);
          EnteringLeavesLess(heap, cell, path);
          FreshNodeHasNoMarker(configuration, heap, heap[cell].node, depth, path + {heap[cell].visit});
        }
      case Marshaled(_, decoded) =>
        if decoded.Some? {
          forall step | Meets(configuration, heap, decoded.value, depth, step) ensures StepIsFresh(configuration, heap, step, path) {
            assert Meets(configuration, heap, value, depth, step);
          }
          FreshValueHasNoMarker(configuration, heap, decoded.value, depth, path);
        } else {
          LeafIsNotCircular(SerializationFailed(value.typeName));
        }
      case GoArray(items) => FreshArrayHasNoMarker(configuration, heap, items, depth, path);
      case Struct(fields) => FreshStructHasNoMarker(configuration, heap, fields, depth, path);
    }
  }

  lemma {:induction false} FreshArrayHasNoMarker(
    configuration: Configuration, heap: Heap, items: seq<Value>, depth: nat, path: set<Visit>)
    requires depth <= configuration.maxDepth
    requires forall step :: Meets(configuration, heap, GoArray(items), depth, step) ==> StepIsFresh(configuration, heap, step, path)
    ensures NoCircular(Reference(configuration, heap, GoArray(items), depth, path))
    decreases Unseen(heap, path), Height(GoArray(items)), 1, 1
  {
    hide NoCircular, Unseen, Kids, StepIsFresh, SlotsMeet, KidsHaveNoCircular;
    var value, shown := GoArray(items), Shown(configuration, ListSlots(items));
    forall step | SlotsMeet(configuration, heap, shown, depth + 1, step, Height(value))
      ensures StepIsFresh(configuration, heap, step, path)
    {
      assert Meets(configuration, heap, value, depth, step);
    }
    FreshSlotsHaveNoMarker(configuration, heap, shown, depth + 1, path, Height(value));
    BranchIsNotCircular(List, Kids(configuration, heap, shown, depth + 1, path, Height(value)), |items| - |shown|);
  }

  lemma {:induction false} FreshStructHasNoMarker(
    configuration: Configuration, heap: Heap, fields: seq<Field>, depth: nat, path: set<Visit>)
    requires depth <= configuration.maxDepth
    requires forall step :: Meets(configuration, heap, Struct(fields), depth, step) ==> StepIsFresh(configuration, heap, step, path)
    ensures NoCircular(Reference(configuration, heap, Struct(fields), depth, path))
    decreases Unseen(heap, path), Height(Struct(fields)), 1, 1
  {
    hide NoCircular, Unseen, Kids, StepIsFresh, SlotsMeet, KidsHaveNoCircular, StructSlots;
    var value, slots := Struct(fields), StructSlots(fields);
    StructSlotsBelow(fields, Height(value));
    forall step | SlotsMeet(configuration, heap, slots, depth + 1, step, Height(value))
      ensures StepIsFresh(configuration, heap, step, path)
    {
      assert Meets(configuration, heap, value, depth, step);
    }
    FreshSlotsHaveNoMarker(configuration, heap, slots, depth + 1, path, Height(value));
    BranchIsNotCircular(Object, Kids(configuration, heap, slots, depth + 1, path, Height(value)), 0);
  }

  lemma FlatValuesAreNotCircular(configuration: Configuration, heap: Heap, value: Value, depth: nat, path: set<Visit>)
    requires IsFlat(value)
    ensures NoCircular(Reference(configuration, heap, value, depth, path))
  {
  }

  lemma TooDeepIsNotCircular(configuration: Configuration, heap: Heap, value: Value, depth: nat, path: set<Visit>)
    requires !IsFlat(value) && depth > configuration.maxDepth
    ensures NoCircular(Reference(configuration, heap, value, depth, path))
  {
  }

  lemma LeafIsNotCircular(leaf: Leaf)
    requires !leaf.CircularReference?
    ensures NoCircular(Atom(leaf))
  {
  }

  lemma BranchIsNotCircular(shape: Shape, kids: seq<Kid>, omitted: nat)
    ensures NoCircular(Branch(shape, kids, omitted)) <==> KidsHaveNoCircular(kids)
  {
  }

  lemma FreshStep(configuration: Configuration, heap: Heap, step: Step, path: set<Visit>)
    requires StepIsFresh(configuration, heap, step, path)
    ensures step.cell in heap && heap[step.cell].visit !in path
    ensures WalksAreFresh(configuration, heap, heap[step.cell].node, step.depth, path + {heap[step.cell].visit})
  {
  }

  lemma {:induction false} FreshNodeHasNoMarker(
    configuration: Configuration, heap: Heap, node: Node, depth: nat, path: set<Visit>)
    requires depth <= configuration.maxDepth && WalksAreFresh(configuration, heap, node, depth, path)
    ensures NoCircular(Inside(configuration, heap, node, depth, path))
    decreases Unseen(heap, path), NodeHeight(node), 3, 0
  {
    hide Reference, Kids, StepIsFresh, WalksAreFresh, Meets, SlotsMeet, Unseen;
    forall step | NodeMeets(configuration, heap, node, depth, step) ensures StepIsFresh(configuration, heap, step, path) {
      NodeMetIsInHeap(configuration, heap, node, depth, step);
      StepsAreFresh(configuration, heap, node, depth, path, step);
    }
    match node
    case Pointee(value) => FreshValueHasNoMarker(configuration, heap, value, depth, path);
    case OtherMap(_, decoded) =>
      if decoded.Some? { FreshValueHasNoMarker(configuration, heap, decoded.value, depth, path); }
    case StringMap(entries) =>
      FreshSlotsHaveNoMarker(configuration, heap, MapSlots(entries), depth + 1, path, SlotsHeight(MapSlots(entries)));
    case Slice(items) =>
      FreshSlotsHaveNoMarker(configuration, heap, Shown(configuration, ListSlots(items)), depth + 1, path,
                             SlotsHeight(ListSlots(items)));
  }

  lemma {:induction false} FreshSlotsHaveNoMarker(
    configuration: Configuration, heap: Heap, slots: seq<Slot>, depth: nat, path: set<Visit>, bound: nat)
    requires Below(slots, bound)
    requires forall step :: SlotsMeet(configuration, heap, slots, depth, step, bound) ==> StepIsFresh(configuration, heap, step, path)
    ensures KidsHaveNoCircular(Kids(configuration, heap, slots, depth, path, bound))
    decreases Unseen(heap, path), bound, 1, 0
  {
    hide Reference, Kids, StepIsFresh, Meets, Unseen, NoCircular;
    var kids := Kids(configuration, heap, slots, depth, path, bound);
    forall i | 0 <= i < |kids| ensures NoCircular(kids[i].tree) {
      KidAt(configuration, heap, slots, depth, path, bound, i);
      if Secret(configuration, slots[i].place) {
        LeafIsNotCircular(Redacted);
      } else {
        forall step | Meets(configuration, heap, slots[i].value, depth, step) ensures StepIsFresh(configuration, heap, step, path) {
          assert SlotsMeet(configuration, heap, slots, depth, step, bound);
        }
        FreshValueHasNoMarker(configuration, heap, slots[i].value, depth, path);
      }
    }
  }

  // A marker wherever a walk meets one visit twice

  lemma {:induction false} MetInValue(
    configuration: Configuration, heap: Heap, value: Value, depth: nat, path: set<Visit>, step: Step)
    requires Meets(configuration, heap, value, depth, step) && NoCircular(Reference(configuration, heap, value, depth, path))
    ensures NoCircular(Reference(configuration, heap, Ref(step.cell), step.depth, path))
    decreases Height(value), 1
  {
    hide StringLeaf, BinaryLeaf, Inside, Unseen, Kids, SlotsMeet;
    match value
    case Marshaled(_, decoded) => MetInValue(configuration, heap, decoded.value, depth, path, step);
    case GoArray(items) =>
      MetInSlots(configuration, heap, Shown(configuration, ListSlots(items)), depth + 1, path, step, Height(value));
    case Struct(fields) =>
      StructSlotsBelow(fields, Height(value));
      MetInSlots(configuration, heap, StructSlots(fields), depth + 1, path, step, Height(value));
    case _ =>
  }

  lemma {:induction false} MetInSlots(
    configuration: Configuration, heap: Heap, slots: seq<Slot>, depth: nat, path: set<Visit>, step: Step, bound: nat)
    requires Below(slots, bound) && SlotsMeet(configuration, heap, slots, depth, step, bound)
    requires KidsHaveNoCircular(Kids(configuration, heap, slots, depth, path, bound))
    ensures NoCircular(Reference(configuration, heap, Ref(step.cell), step.depth, path))
    decreases bound, 0
  {
    hide Reference, Kids, Meets, NoCircular;
    var i :| 0 <= i < |slots| && !Secret(configuration, slots[i].place)
             && Meets(configuration, heap, slots[i].value, depth, step);
    KidAt(configuration, heap, slots, depth, path, bound, i);
    MetInValue(configuration, heap, slots[i].value, depth, path, step);
  }

  lemma MetInNode(configuration: Configuration, heap: Heap, node: Node, depth: nat, path: set<Visit>, step: Step)
    requires NodeMeets(configuration, heap, node, depth, step) && NoCircular(Inside(configuration, heap, node, depth, path))
    ensures NoCircular(Reference(configuration, heap, Ref(step.cell), step.depth, path))
  {
    hide Reference, Kids, Meets, SlotsMeet;
    match node
    case Pointee(value) => MetInValue(configuration, heap, value, depth, path, step);
    case OtherMap(_, decoded) => MetInValue(configuration, heap, decoded.value, depth, path, step);
    case StringMap(entries) =>
      MetInSlots(configuration, heap, MapSlots(entries), depth + 1, path, step, SlotsHeight(MapSlots(entries)));
    case Slice(items) =>
      MetInSlots(configuration, heap, Shown(configuration, ListSlots(items)), depth + 1, path, step,
                 SlotsHeight(ListSlots(items)));
  }

  lemma {:induction false} WithoutMarkerWalksAreFresh(
    configuration: Configuration, heap: Heap, node: Node, depth: nat, path: set<Visit>, trail: seq<Step>)
    requires NoCircular(Inside(configuration, heap, node, depth, path)) && Walk(configuration, heap, node, depth, trail)
    ensures Fresh(heap, trail, path)
    decreases |trail|
  {
    hide Inside, NodeMeets, Fresh;
    if trail == [] {
      NothingIsFresh(heap, path);
    } else {
      var step := trail[0];
      NodeMetIsInHeap(configuration, heap, node, depth, step);
      MetInNode(configuration, heap, node, depth, path, step);
      FreshFromFront(heap, trail, path);
      WithoutMarkerWalksAreFresh(configuration, heap, heap[step.cell].node, step.depth, path + {heap[step.cell].visit}, trail[1..]);
    }
  }

  lemma NothingIsFresh(heap: Heap, path: set<Visit>)
    ensures Fresh(heap, [], path)
  {
  }

  /**
   Exactly when a payload gets a circular marker: if some walk of references, within the limits on
   depth and items and past no secret, meets two cells with one visit, or the root's.
   */
  lemma CircularMarkerExactly(configuration: Configuration, heap: Heap, root: CellId)
    requires root in heap && configuration.maxDepth >= 1
    ensures NoCircular(Inside(configuration, heap, heap[root].node, 1, {heap[root].visit}))
            <==> forall trail :: Walk(configuration, heap, heap[root].node, 1, trail) ==> Fresh(heap, trail, {heap[root].visit})
  {
    hide Inside, Walk, Fresh;
    var node, path := heap[root].node, {heap[root].visit};
    if WalksAreFresh(configuration, heap, node, 1, path) {
      FreshNodeHasNoMarker(configuration, heap, node, 1, path);
    }
    if NoCircular(Inside(configuration, heap, node, 1, path)) {
      forall trail | Walk(configuration, heap, node, 1, trail) ensures Fresh(heap, trail, path) {
        WithoutMarkerWalksAreFresh(configuration, heap, node, 1, path, trail);
      }
    }
  }

  // Acyclic payloads

  /**
   An acyclic payload, however much it shares, is sanitized as the tree that it unfolds to exactly
   if no walk meets two cells with one visit; that tree has no circular marker.
   */
  lemma SharingIsHarmless(configuration: Configuration, r: Ranking, root: CellId)
    requires Acyclic(configuration, r) && root in r.cells && configuration.maxDepth >= 1
    ensures root in r.heap && NodeBelow(configuration, r, r.heap[root].node, r.rank(root))
    ensures var tree := TreeMeaning(configuration, UnfoldNode(configuration, r, r.heap[root].node, r.rank(root)), 1);
            var path := {r.heap[root].visit};
            && NoCircular(tree)
            && (Inside(configuration, r.heap, r.heap[root].node, 1, path) == tree
                <==> WalksAreFresh(configuration, r.heap, r.heap[root].node, 1, path))
            && (WalksAreFresh(configuration, r.heap, r.heap[root].node, 1, path) ==>
                  Sanitized(configuration, r.heap, root) == Emit(configuration, Cut(tree, configuration.maxPayloadNodes)))
  {
    hide Acyclic, Inside, TreeMeaning, UnfoldNode, NodeBelow, Walk, Fresh, Emit, Cut;
    CellIsBelow(configuration, r, root);
    var node, path := r.heap[root].node, {r.heap[root].visit};
    CircularMarkerExactly(configuration, r.heap, root);
    TreesHaveNoCircularMarker(configuration, UnfoldNode(configuration, r, node, r.rank(root)), 1);
    if WalksAreFresh(configuration, r.heap, node, 1, path) {
      NodeMeansItsUnfolding(configuration, r, node, r.rank(root), 1, path);
    }
  }

  /** Visits tell the cells apart: only slices of one base and type share a visit. */
  ghost predicate NoAliases(r: Ranking) {
    && r.cells <= r.heap.Keys
    && forall c, d :: c in r.cells && d in r.cells && r.heap[c].visit == r.heap[d].visit ==> c == d
  }

  lemma {:induction false} MetIsBelow(configuration: Configuration, r: Ranking, value: Value, limit: nat, depth: nat, step: Step)
    requires ValueBelow(configuration, r, value, limit) && Meets(configuration, r.heap, value, depth, step)
    ensures step.cell in r.cells && r.rank(step.cell) < limit
    decreases Height(value), 1
  {
    hide SlotsBelow, SlotsMeet;
    match value
    case Marshaled(_, decoded) => MetIsBelow(configuration, r, decoded.value, limit, depth, step);
    case GoArray(items) =>
      SlotMetIsBelow(configuration, r, Shown(configuration, ListSlots(items)), limit, depth + 1, step, Height(value));
    case Struct(fields) =>
      StructSlotsBelow(fields, Height(value));
      SlotMetIsBelow(configuration, r, StructSlots(fields), limit, depth + 1, step, Height(value));
    case _ =>
  }

  lemma {:induction false} SlotMetIsBelow(
    configuration: Configuration, r: Ranking, slots: seq<Slot>, limit: nat, depth: nat, step: Step, bound: nat)
    requires Below(slots, bound) && SlotsBelow(configuration, r, slots, limit, bound)
    requires SlotsMeet(configuration, r.heap, slots, depth, step, bound)
    ensures step.cell in r.cells && r.rank(step.cell) < limit
    decreases bound, 0
  {
    hide ValueBelow, Meets;
    var i :| 0 <= i < |slots| && !Secret(configuration, slots[i].place)
             && Meets(configuration, r.heap, slots[i].value, depth, step);
    MetIsBelow(configuration, r, slots[i].value, limit, depth, step);
  }

  lemma NodeMetIsBelow(configuration: Configuration, r: Ranking, node: Node, limit: nat, depth: nat, step: Step)
    requires NodeBelow(configuration, r, node, limit) && NodeMeets(configuration, r.heap, node, depth, step)
    ensures step.cell in r.cells && r.rank(step.cell) < limit
  {
    hide ValueBelow, Meets, SlotsBelow, SlotsMeet;
    match node
    case Pointee(value) => MetIsBelow(configuration, r, value, limit, depth, step);
    case OtherMap(_, decoded) => MetIsBelow(configuration, r, decoded.value, limit, depth, step);
    case StringMap(entries) =>
      SlotMetIsBelow(configuration, r, MapSlots(entries), limit, depth + 1, step, SlotsHeight(MapSlots(entries)));
    case Slice(items) =>
      SlotMetIsBelow(configuration, r, Shown(configuration, ListSlots(items)), limit, depth + 1, step,
                     SlotsHeight(ListSlots(items)));
  }

  /** Walks go down in rank, so they never return; and without aliases no visit comes twice. */
  lemma {:induction false} AcyclicWalksAreFresh(
    configuration: Configuration, r: Ranking, node: Node, limit: nat, depth: nat, trail: seq<Step>, path: set<Visit>)
    requires Acyclic(configuration, r) && NoAliases(r) && NodeBelow(configuration, r, node, limit)
    requires Walk(configuration, r.heap, node, depth, trail)
    requires forall cell :: cell in r.cells && r.rank(cell) < limit ==> r.heap[cell].visit !in path
    ensures Fresh(r.heap, trail, path)
    decreases |trail|
  {
    hide Acyclic, NodeBelow, NodeMeets, Fresh;
    if trail == [] {
      NothingIsFresh(r.heap, path);
    } else {
      var step := trail[0];
      NodeMetIsBelow(configuration, r, node, limit, depth, step);
      CellIsBelow(configuration, r, step.cell);
      FreshFromFront(r.heap, trail, path);
      AcyclicWalksAreFresh(configuration, r, r.heap[step.cell].node, r.rank(step.cell), step.depth, trail[1..],
                           path + {r.heap[step.cell].visit});
    }
  }

  /** Where visits tell cells apart, a circular marker is evidence of a cycle: without one there is none. */
  lemma CircularMarkerMeansCycleOrAlias(configuration: Configuration, r: Ranking, root: CellId)
    requires Acyclic(configuration, r) && root in r.cells && NoAliases(r) && configuration.maxDepth >= 1
    ensures root in r.heap && NoCircular(Inside(configuration, r.heap, r.heap[root].node, 1, {r.heap[root].visit}))
  {
    hide Acyclic, Inside, NodeBelow, Walk, Fresh;
    CellIsBelow(configuration, r, root);
    var node, path := r.heap[root].node, {r.heap[root].visit};
    forall trail | Walk(configuration, r.heap, node, 1, trail) ensures Fresh(r.heap, trail, path) {
      AcyclicWalksAreFresh(configuration, r, node, r.rank(root), 1, trail, path);
    }
    CircularMarkerExactly(configuration, r.heap, root);
  }

  // A false alarm

  const SLICE_VISIT := Visit("[]any", 1)

  /** `s := []any{1, nil}; s[1] = s[:1]` under one key: two slices of one base, one inside the other. */
  const ALIASED: Heap := map[
    0 := Cell(Visit("map", 0), StringMap(map["s" := Ref(1)])),
    1 := Cell(SLICE_VISIT, Slice([Prim(Int(1)), Ref(2)])),
    2 := Cell(SLICE_VISIT, Slice([Prim(Int(1))]))
  ]

  /** The payload is the tree {"s": [1, [1]]}, without a cycle, and yet it gets a circular marker. */
  lemma AliasedSlicesLookCircular(configuration: Configuration)
    requires configuration.maxDepth >= 3 && configuration.maxArrayItems >= 2 && !configuration.sensitive("s")
    ensures Acyclic(configuration, Ranking(ALIASED, {0, 1, 2}, cell => if cell < 3 then 3 - cell else 0))
    ensures !NoCircular(Inside(configuration, ALIASED, ALIASED[0].node, 1, {ALIASED[0].visit}))
  {
    AliasedIsAcyclic(configuration);
    AliasedWalk(configuration);
    var trail := [Step(1, 2), Step(2, 3)];
    CircularMarkerExactly(configuration, ALIASED, 0);
    assert trail[0].cell in ALIASED && ALIASED[trail[0].cell].visit == ALIASED[trail[1].cell].visit;
    assert !Fresh(ALIASED, trail, {ALIASED[0].visit});
  }

  lemma RootSlots()
    ensures MapSlots(map["s" := Ref(1)]) == [Slot(Key("s"), Ref(1))]
  {
    var entries: map<string, Value> := map["s" := Ref(1)];
    assert entries.Keys == {"s"};
    var slots := MapSlots(entries);
    assert |slots| == 1;
  }

  lemma AliasedIsAcyclic(configuration: Configuration)
    ensures Acyclic(configuration, Ranking(ALIASED, {0, 1, 2}, cell => if cell < 3 then 3 - cell else 0))
  {
    RootSlots();
    var r := Ranking(ALIASED, {0, 1, 2}, cell => if cell < 3 then 3 - cell else 0);
    assert NodeBelow(configuration, r, ALIASED[0].node, 3);
    assert NodeBelow(configuration, r, ALIASED[1].node, 2);
    assert NodeBelow(configuration, r, ALIASED[2].node, 1);
  }

  lemma AliasedWalk(configuration: Configuration)
    requires configuration.maxDepth >= 3 && configuration.maxArrayItems >= 2 && !configuration.sensitive("s")
    ensures Walk(configuration, ALIASED, ALIASED[0].node, 1, [Step(1, 2), Step(2, 3)])
  {
    RootSlots();
    var trail := [Step(1, 2), Step(2, 3)];
    var root := MapSlots(map["s" := Ref(1)]);
    assert Meets(configuration, ALIASED, root[0].value, 2, trail[0]);
    assert NodeMeets(configuration, ALIASED, ALIASED[0].node, 1, trail[0]);
    var items := [Prim(Int(1)), Ref(2)];
    var shown := Shown(configuration, ListSlots(items));
    assert shown[1] == Slot(Index(1), Ref(2)) && Meets(configuration, ALIASED, shown[1].value, 3, trail[1]);
    assert NodeMeets(configuration, ALIASED, ALIASED[1].node, 2, trail[1]);
    assert trail[1..][1..] == [];
    assert Walk(configuration, ALIASED, ALIASED[2].node, 3, []);
    assert Walk(configuration, ALIASED, ALIASED[1].node, 2, trail[1..]);
  }
}
