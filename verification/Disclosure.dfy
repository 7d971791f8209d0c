/**
 What masking does not hide: a value under no sensitive name, within the limits, is in the output,
 so payloads that differ there are sanitized differently.
 */
module Disclosure {
  import opened Wrappers
  import opened Configurations
  import opened Payload
  import opened Budget
  import opened Output
  import opened Sanitizers
  import opened Markers
  import opened Emission
  import opened Telling
  import opened Lex
  import Keys

  // In the payload

  /**
   The payload holds this primitive at that place: the way there passes no sensitive name, enters
   no reference twice, and keeps to the limits on depth and items.
   */
  ghost predicate HoldsPrim(
    configuration: Configuration, heap: Heap, value: Value, depth: nat, path: set<Visit>, at: Path, prim: Prim)
    decreases Unseen(heap, path), Height(value), 1
  {
    match value
    case Prim(own) => at == [] && own == prim
    case Marshaled(_, decoded) =>
      depth <= configuration.maxDepth && decoded.Some? && HoldsPrim(configuration, heap, decoded.value, depth, path, at, prim)
    case GoArray(items) =>
      depth <= configuration.maxDepth && ItemHoldsPrim(configuration, heap, items, depth, path, at, prim, Height(value))
    case Struct(fields) =>
      && depth <= configuration.maxDepth && at != [] && at[0].Key? && !configuration.sensitive(at[0].name)
      && VisibleName(fields, at[0].name)
      && exists j :: 0 <= j < |fields| && Counts(fields, j, at[0].name)
                     && HoldsPrim(configuration, heap, fields[j].value, depth + 1, path, at[1..], prim)
    case Ref(cell) =>
      && cell in heap && depth <= configuration.maxDepth && heap[cell].visit !in path
      && (EnteringLeavesLess(heap, cell, path);
          NodeHoldsPrim(configuration, heap, heap[cell].node, depth, path + {heap[cell].visit}, at, prim))
    case _ => false
  }

  ghost predicate NodeHoldsPrim(
    configuration: Configuration, heap: Heap, node: Node, depth: nat, path: set<Visit>, at: Path, prim: Prim)
    decreases Unseen(heap, path), NodeHeight(node), 2
  {
    match node
    case Pointee(value) => HoldsPrim(configuration, heap, value, depth, path, at, prim)
    case OtherMap(_, decoded) => decoded.Some? && HoldsPrim(configuration, heap, decoded.value, depth, path, at, prim)
    case StringMap(entries) =>
      EntriesAreBelow(entries);
      && at != [] && at[0].Key? && !configuration.sensitive(at[0].name)
      && at[0].name in entries && HoldsPrim(configuration, heap, entries[at[0].name], depth + 1, path, at[1..], prim)
    case Slice(items) =>
      ItemsAreBelow(items);
      ItemHoldsPrim(configuration, heap, items, depth, path, at, prim, NodeHeight(node))
  }

  ghost predicate ItemHoldsPrim(
    configuration: Configuration, heap: Heap, items: seq<Value>, depth: nat, path: set<Visit>, at: Path, prim: Prim, bound: nat)
    requires forall i :: 0 <= i < |items| ==> Height(items[i]) < bound
    decreases Unseen(heap, path), bound, 0
  {
    && at != [] && at[0].Index? && at[0].at < |items| && at[0].at < configuration.maxArrayItems
    && HoldsPrim(configuration, heap, items[at[0].at], depth + 1, path, at[1..], prim)
  }

  // In the tree

  /** The first kid at that place. */
  function KidAtPlace(kids: seq<Kid>, place: Place): (i: nat)
    ensures i <= |kids|
    ensures i < |kids| ==> kids[i].place == place
    ensures forall j :: 0 <= j < i ==> kids[j].place != place
  {
    if kids == [] then 0 else if kids[0].place == place then 0 else 1 + KidAtPlace(kids[1..], place)
  }

  function TreeAt(tree: Tree, at: Path): Option<Tree>
    decreases |at|
  {
    if at == [] then Some(tree)
    else if tree.Atom? || KidAtPlace(tree.kids, at[0]) >= |tree.kids| then None
    else TreeAt(tree.kids[KidAtPlace(tree.kids, at[0])].tree, at[1..])
  }

  lemma FirstKidAtPlace(kids: seq<Kid>, place: Place, i: nat)
    requires i < |kids| && kids[i].place == place
    ensures KidAtPlace(kids, place) <= i
  {
  }

  lemma {:induction false} ToldTreesHold(
    configuration: Configuration, heap: Heap, value: Value, depth: nat, path: set<Visit>, tree: Tree, at: Path, prim: Prim)
    requires Tells(configuration, heap, value, depth, path, tree)
    requires HoldsPrim(configuration, heap, value, depth, path, at, prim)
    ensures TreeAt(tree, at) == Some(Atom(Plain(prim)))
    decreases Unseen(heap, path), Height(value), 1
  {
    hide TellsText, TellsBytes, NodeTells, NodeHoldsPrim, ItemsTell, ItemHoldsPrim, ShowsNames, Unseen, TreeAt, Counts, VisibleName;
    match value
    case Prim(_) => NothingBelow(tree);
    case Marshaled(_, decoded) =>
      ToldTreesHold(configuration, heap, decoded.value, depth, path, tree, at, prim);
    case GoArray(items) => ToldListsHold(configuration, heap, items, depth, path, tree, at, prim, Height(value));
    case Struct(fields) =>
      var name := at[0].name;
      var j :| 0 <= j < |fields| && Counts(fields, j, name)
               && HoldsPrim(configuration, heap, fields[j].value, depth + 1, path, at[1..], prim);
      FieldsAreBelow(fields, j);
      var i := NamedKid(tree, (iset n | VisibleName(fields, n)), name);
      ToldTreesHold(configuration, heap, fields[j].value, depth + 1, path, tree.kids[i].tree, at[1..], prim);
      GoDown(tree, at, i);
    case Ref(cell) =>
      EnteringLeavesLess(heap, cell, path);
      ToldNodesHold(configuration, heap, heap[cell].node, depth, path + {heap[cell].visit}, tree, at, prim);
  }

  lemma NothingBelow(tree: Tree)
    ensures TreeAt(tree, []) == Some(tree)
  {
  }

  lemma GoDown(tree: Tree, at: Path, i: nat)
    requires at != [] && tree.Branch? && i < |tree.kids| && i == KidAtPlace(tree.kids, at[0])
    ensures TreeAt(tree, at) == TreeAt(tree.kids[i].tree, at[1..])
  {
  }

  /** A shown name has a kid. */
  lemma NamedKid(tree: Tree, names: iset<string>, name: string) returns (i: nat)
    requires ShowsNames(tree, names) && name in names
    ensures tree.Branch? && i < |tree.kids| && tree.kids[i].place == Key(name) && i == KidAtPlace(tree.kids, Key(name))
    ensures AreNamed(tree.kids)
  {
    var k :| 0 <= k < |tree.kids| && NamesOf(tree.kids)[k] == name;
    FirstKidAtPlace(tree.kids, Key(name), k);
    i := KidAtPlace(tree.kids, Key(name));
  }

  lemma {:induction false} ToldNodesHold(
    configuration: Configuration, heap: Heap, node: Node, depth: nat, path: set<Visit>, tree: Tree, at: Path, prim: Prim)
    requires NodeTells(configuration, heap, node, depth, path, tree)
    requires NodeHoldsPrim(configuration, heap, node, depth, path, at, prim)
    ensures TreeAt(tree, at) == Some(Atom(Plain(prim)))
    decreases Unseen(heap, path), NodeHeight(node), 2
  {
    hide Tells, HoldsPrim, ItemsTell, ItemHoldsPrim, ShowsNames, Unseen, TreeAt;
    match node
    case Pointee(value) => ToldTreesHold(configuration, heap, value, depth, path, tree, at, prim);
    case OtherMap(_, decoded) => ToldTreesHold(configuration, heap, decoded.value, depth, path, tree, at, prim);
    case StringMap(entries) =>
      EntriesAreBelow(entries);
      var name := at[0].name;
      var i := NamedKid(tree, (iset n | n in entries), name);
      ToldTreesHold(configuration, heap, entries[name], depth + 1, path, tree.kids[i].tree, at[1..], prim);
      GoDown(tree, at, i);
    case Slice(items) =>
      ItemsAreBelow(items);
      ToldListsHold(configuration, heap, items, depth, path, tree, at, prim, NodeHeight(node));
  }

  lemma {:induction false} ToldListsHold(
    configuration: Configuration, heap: Heap, items: seq<Value>, depth: nat, path: set<Visit>, tree: Tree, at: Path, prim: Prim,
    bound: nat)
    requires forall i :: 0 <= i < |items| ==> Height(items[i]) < bound
    requires ItemsTell(configuration, heap, items, depth, path, tree, bound)
    requires ItemHoldsPrim(configuration, heap, items, depth, path, at, prim, bound)
    ensures TreeAt(tree, at) == Some(Atom(Plain(prim)))
    decreases Unseen(heap, path), bound, 0
  {
    hide Tells, HoldsPrim, Unseen, TreeAt, Height;
    var i := at[0].at;
    FirstKidAtPlace(tree.kids, at[0], i);
    assert i == KidAtPlace(tree.kids, at[0]);
    ToldTreesHold(configuration, heap, items[i], depth + 1, path, tree.kids[i].tree, at[1..], prim);
    GoDown(tree, at, i);
  }

  // Within the budget

  /** What is left of a tree at a place is trimmed from what was there. */
  lemma {:induction false} TrimmedAt(cut: Tree, whole: Tree, at: Path)
    requires Trims(cut, whole) && TreeAt(cut, at).Some?
    ensures TreeAt(whole, at).Some? && Trims(TreeAt(cut, at).value, TreeAt(whole, at).value)
    decreases |at|
  {
    if at != [] {
      var i := KidAtPlace(cut.kids, at[0]);
      FirstKidAtPlace(whole.kids, at[0], i);
      assert forall j :: 0 <= j < i ==> whole.kids[j].place == cut.kids[j].place;
      assert KidAtPlace(whole.kids, at[0]) == i;
      TrimmedAt(cut.kids[i].tree, whole.kids[i].tree, at[1..]);
    }
  }

  /** What has a preorder rank is there. */
  lemma {:induction false} RankedIsThere(tree: Tree, at: Path, down: Path)
    requires at + down in Preorder(tree, at) && WellPlaced(tree)
    ensures TreeAt(tree, down).Some?
    decreases tree
  {
    if tree.Branch? { RankedKidIsThere(tree.kids, at, down, tree); }
  }

  lemma {:induction false} RankedKidIsThere(kids: seq<Kid>, at: Path, down: Path, tree: Tree)
    requires at + down in KidsPreorder(kids, at)
    requires tree.Branch? && kids <= tree.kids && WellPlaced(tree)
    ensures TreeAt(tree, down).Some?
    decreases tree, |kids|
  {
    var before, kid := kids[..|kids| - 1], Last(kids);
    var here := at + [kid.place];
    if at + down in KidsPreorder(before, at) {
      RankedKidIsThere(before, at, down, tree);
    } else {
      var i := |kids| - 1;
      assert tree.kids[i] == kid;
      PathsBelow(kid.tree, here);
      if at + down == here {
        assert down == (at + down)[|at|..] && here[|at|..] == [kid.place];
        DownOne(tree, down, i);
      } else {
        assert here <= at + down;
        assert down[0] == (at + down)[|at|] == kid.place;
        assert here + down[1..] == at + down;
        RankedIsThere(kid.tree, here, down[1..]);
        DownOne(tree, down, i);
      }
    }
  }

  /** Different kids have different places: names in an object, and their own indices in a list. */
  ghost predicate WellPlaced(tree: Tree) {
    match tree
    case Atom(_) => true
    case Branch(shape, kids, _) =>
      && (forall i, j :: 0 <= i < j < |kids| ==> kids[i].place != kids[j].place)
      && (forall i :: 0 <= i < |kids| ==> if shape.Object? then kids[i].place.Key? else kids[i].place == Index(i))
      && forall i :: 0 <= i < |kids| ==> WellPlaced(kids[i].tree)
  }

  lemma {:induction false} DownOne(tree: Tree, down: Path, i: nat)
    requires tree.Branch? && WellPlaced(tree) && i < |tree.kids| && down != [] && down[0] == tree.kids[i].place
    ensures TreeAt(tree, down) == TreeAt(tree.kids[i].tree, down[1..])
    ensures WellPlaced(tree.kids[i].tree)
    ensures TreeAt(tree.kids[i].tree, []).Some?
  {
    FirstKidAtPlace(tree.kids, down[0], i);
    assert KidAtPlace(tree.kids, down[0]) == i;
  }

  lemma {:induction false} PathsBelow(tree: Tree, at: Path)
    ensures forall p :: p in Preorder(tree, at) ==> at <= p && |p| > |at|
  {
    if tree.Branch? { KidsPathsBelow(tree.kids, at); }
  }

  lemma {:induction false} KidsPathsBelow(kids: seq<Kid>, at: Path)
    ensures forall p :: p in KidsPreorder(kids, at) ==> at <= p && |p| > |at|
  {
    if kids != [] {
      var kid := Last(kids);
      KidsPathsBelow(kids[..|kids| - 1], at);
      PathsBelow(kid.tree, at + [kid.place]);
    }
  }

  lemma {:induction false} ToldTreesAreDistinct(
    configuration: Configuration, heap: Heap, value: Value, depth: nat, path: set<Visit>, tree: Tree)
    requires Tells(configuration, heap, value, depth, path, tree)
    ensures WellPlaced(tree)
    decreases Unseen(heap, path), Height(value), 1
  {
    hide TellsText, TellsBytes, NodeTells, ItemsTell, FieldsTell, Unseen;
    if tree.Branch? {
      match value
      case Marshaled(_, decoded) => ToldTreesAreDistinct(configuration, heap, decoded.value, depth, path, tree);
      case GoArray(items) => ToldListsAreDistinct(configuration, heap, items, depth, path, tree, Height(value));
      case Struct(fields) => ToldStructsAreDistinct(configuration, heap, fields, depth, path, tree, Height(value));
      case Ref(cell) =>
        EnteringLeavesLess(heap, cell, path);
        ToldNodesAreDistinct(configuration, heap, heap[cell].node, depth, path + {heap[cell].visit}, tree);
    }
  }

  lemma {:induction false} ToldNodesAreDistinct(
    configuration: Configuration, heap: Heap, node: Node, depth: nat, path: set<Visit>, tree: Tree)
    requires NodeTells(configuration, heap, node, depth, path, tree)
    ensures WellPlaced(tree)
    decreases Unseen(heap, path), NodeHeight(node), 2
  {
    hide Tells, ItemsTell, EntriesTell, Unseen;
    if tree.Branch? {
      match node
      case Pointee(value) => ToldTreesAreDistinct(configuration, heap, value, depth, path, tree);
      case OtherMap(_, decoded) => ToldTreesAreDistinct(configuration, heap, decoded.value, depth, path, tree);
      case StringMap(entries) =>
        EntriesAreBelow(entries);
        ToldMapsAreDistinct(configuration, heap, entries, depth, path, tree, NodeHeight(node));
      case Slice(items) =>
        ItemsAreBelow(items);
        ToldListsAreDistinct(configuration, heap, items, depth, path, tree, NodeHeight(node));
    }
  }

  lemma {:induction false} ToldListsAreDistinct(
    configuration: Configuration, heap: Heap, items: seq<Value>, depth: nat, path: set<Visit>, tree: Tree, bound: nat)
    requires forall i :: 0 <= i < |items| ==> Height(items[i]) < bound
    requires ItemsTell(configuration, heap, items, depth, path, tree, bound)
    ensures WellPlaced(tree)
    decreases Unseen(heap, path), bound, 0
  {
    hide Tells, Unseen, Height;
    forall i | 0 <= i < |tree.kids| ensures WellPlaced(tree.kids[i].tree) {
      ToldTreesAreDistinct(configuration, heap, items[i], depth + 1, path, tree.kids[i].tree);
    }
  }

  lemma NamedKidsAreDistinct(tree: Tree, names: iset<string>)
    requires ShowsNames(tree, names)
    ensures tree.Branch? && tree.shape.Object? && AreNamed(tree.kids)
    ensures forall i :: 0 <= i < |tree.kids| ==> tree.kids[i].place.name in names
    ensures forall i, j :: 0 <= i < j < |tree.kids| ==> tree.kids[i].place != tree.kids[j].place
  {
    hide Less;
    forall i | 0 <= i < |tree.kids| ensures tree.kids[i].place.name in names {
      assert NamesOf(tree.kids)[i] in NamesOf(tree.kids);
    }
    forall i, j | 0 <= i < j < |tree.kids| ensures tree.kids[i].place != tree.kids[j].place {
      assert Less(NamesOf(tree.kids)[i], NamesOf(tree.kids)[j]);
      Trichotomy(NamesOf(tree.kids)[i], NamesOf(tree.kids)[j]);
    }
  }

  lemma {:induction false} ToldMapsAreDistinct(
    configuration: Configuration, heap: Heap, entries: map<string, Value>, depth: nat, path: set<Visit>, tree: Tree, bound: nat)
    requires forall name :: name in entries ==> Height(entries[name]) < bound
    requires EntriesTell(configuration, heap, entries, depth, path, tree, bound)
    ensures WellPlaced(tree)
    decreases Unseen(heap, path), bound, 0
  {
    hide Tells, Unseen, Height, ShowsNames;
    NamedKidsAreDistinct(tree, iset name | name in entries);
    forall i | 0 <= i < |tree.kids| ensures WellPlaced(tree.kids[i].tree) {
      var name := tree.kids[i].place.name;
      if !configuration.sensitive(name) {
        ToldTreesAreDistinct(configuration, heap, entries[name], depth + 1, path, tree.kids[i].tree);
      }
    }
  }

  lemma {:induction false} ToldStructsAreDistinct(
    configuration: Configuration, heap: Heap, fields: seq<Field>, depth: nat, path: set<Visit>, tree: Tree, bound: nat)
    requires FieldsHeight(fields) < bound
    requires FieldsTell(configuration, heap, fields, depth, path, tree, bound)
    ensures WellPlaced(tree)
    decreases Unseen(heap, path), bound, 0
  {
    hide Tells, Unseen, Height, FieldsHeight, ShowsNames, Counts;
    NamedKidsAreDistinct(tree, iset name | VisibleName(fields, name));
    forall i | 0 <= i < |tree.kids| ensures WellPlaced(tree.kids[i].tree) {
      var name := tree.kids[i].place.name;
      if !configuration.sensitive(name) {
        var j :| Counts(fields, j, name);
        CountsIsAField(fields, j, name);
        FieldsAreBelow(fields, j);
        ToldTreesAreDistinct(configuration, heap, fields[j].value, depth + 1, path, tree.kids[i].tree);
      }
    }
  }

  lemma {:induction false} TrimmedTreesAreDistinct(cut: Tree, whole: Tree)
    requires Trims(cut, whole) && WellPlaced(whole)
    ensures WellPlaced(cut)
    decreases cut
  {
    if cut.Branch? {
      forall i | 0 <= i < |cut.kids| ensures WellPlaced(cut.kids[i].tree) {
        TrimmedTreesAreDistinct(cut.kids[i].tree, whole.kids[i].tree);
      }
    }
  }

  /** An atom with a preorder rank below the budget is in the cut tree. */
  lemma RankedAtomsAreKept(whole: Tree, budget: nat, at: Path, leaf: Leaf)
    requires WellPlaced(whole) && TreeAt(whole, at) == Some(Atom(leaf))
    requires at in Take(Preorder(whole, []), budget)
    ensures TreeAt(Cut(whole, budget), at) == Some(Atom(leaf)) && WellPlaced(Cut(whole, budget))
  {
    hide Trims, Cut, WellPlaced, TreeAt, Preorder;
    var cut := Cut(whole, budget);
    CutTrims(whole, budget);
    CutKeepsAPreorderPrefix(whole, budget, []);
    TrimmedTreesAreDistinct(cut, whole);
    assert [] + at == at;
    RankedIsThere(cut, [], at);
    TrimmedAt(cut, whole, at);
    TrimmedAtoms(TreeAt(cut, at).value, leaf);
  }

  lemma TrimmedAtoms(cut: Tree, leaf: Leaf)
    requires Trims(cut, Atom(leaf))
    ensures cut == Atom(leaf)
  {
  }

  // In the output

  /** The output at a place: keys as they are assigned, list items by index. */
  function OutAt(configuration: Configuration, out: Out, at: Path): Option<Out>
    decreases |at|
  {
    if at == [] then Some(out)
    else
      match out
      case Scalar(_) => None
      case Data(fields, _) =>
        if at[0].Index? then None
        else
          var key := Keys.AssignedKey(configuration.digest, configuration.maxKeyBytes, at[0].name);
          if key in fields then OutAt(configuration, fields[key], at[1..]) else None
      case Items(items, _) =>
        if at[0].Index? && at[0].at < |items| then OutAt(configuration, items[at[0].at], at[1..]) else None
  }

  /** No key on the way is overwritten by a later one. */
  ghost predicate Remains(configuration: Configuration, tree: Tree, at: Path)
    decreases |at|
  {
    at != [] && tree.Branch? && KidAtPlace(tree.kids, at[0]) < |tree.kids| ==>
      var i := KidAtPlace(tree.kids, at[0]);
      && Stays(configuration, tree.shape, tree.kids, i)
      && Remains(configuration, tree.kids[i].tree, at[1..])
  }

  lemma {:induction false} EmittedAt(configuration: Configuration, tree: Tree, at: Path)
    requires TreeAt(tree, at).Some? && Remains(configuration, tree, at) && WellPlaced(tree)
    ensures OutAt(configuration, Emit(configuration, tree), at) == Some(Emit(configuration, TreeAt(tree, at).value))
    decreases |at|
  {
    hide Stays, Assigned, Emitted, Keys.AssignedKey;
    if at != [] {
      var i := KidAtPlace(tree.kids, at[0]);
      EmittedAt(configuration, tree.kids[i].tree, at[1..]);
      if tree.shape.Object? {
        AssignedAreTheLast(configuration, tree.kids);
        assert KeyAt(configuration, tree.kids, i)
            == Keys.AssignedKey(configuration.digest, configuration.maxKeyBytes, at[0].name);
      } else {
        EmittedAreAll(configuration, tree.kids);
      }
    }
  }

  // What is shown

  /** The budget-free tree of a payload map. */
  ghost function WholeTree(configuration: Configuration, heap: Heap, root: CellId): Tree
    requires root in heap
  {
    Inside(configuration, heap, heap[root].node, 1, {heap[root].visit})
  }

  /** The payload map holds this primitive under no sensitive name, within the depth and item limits. */
  ghost predicate PayloadHolds(configuration: Configuration, heap: Heap, root: CellId, at: Path, prim: Prim) {
    root in heap && NodeHoldsPrim(configuration, heap, heap[root].node, 1, {heap[root].visit}, at, prim)
  }

  /** Its place has a preorder rank below the budget, and no key on the way there is overwritten. */
  ghost predicate IsKept(configuration: Configuration, heap: Heap, root: CellId, at: Path)
    requires root in heap
  {
    var whole := WholeTree(configuration, heap, root);
    && at in Take(Preorder(whole, []), configuration.maxPayloadNodes)
    && Remains(configuration, Cut(whole, configuration.maxPayloadNodes), at)
  }

  /** The sanitized payload is the emitted cut of the one tree that tells the payload. */
  lemma SanitizedTellsThePayload(configuration: Configuration, heap: Heap, root: CellId, tree: Tree)
    requires root in heap && NodeTells(configuration, heap, heap[root].node, 1, {heap[root].visit}, tree)
    ensures Sanitized(configuration, heap, root) == Emit(configuration, Cut(tree, configuration.maxPayloadNodes))
  {
    hide NodeTells, Inside, Cut, Emit;
    InsideTells(configuration, heap, heap[root].node, 1, {heap[root].visit});
    OneNodeTells(configuration, heap, heap[root].node, 1, {heap[root].visit}, tree, WholeTree(configuration, heap, root));
  }

  /** A payload that is nil is sanitized as an empty one. */
  lemma NilPayloadsAreEmpty(configuration: Configuration, heap: Heap, root: CellId)
    ensures root !in heap ==> Sanitized(configuration, heap, root) == Data(map[], 0)
  {
  }

  /** Such a primitive is in the output, at its place. */
  lemma PrimitivesAreShown(configuration: Configuration, heap: Heap, root: CellId, at: Path, prim: Prim)
    requires PayloadHolds(configuration, heap, root, at, prim) && IsKept(configuration, heap, root, at)
    ensures OutAt(configuration, Sanitized(configuration, heap, root), at) == Some(Scalar(Plain(prim)))
  {
    hide NodeTells, NodeHoldsPrim, Inside, Cut, TreeAt, Remains, Preorder, WellPlaced, OutAt;
    var node, path, whole := heap[root].node, {heap[root].visit}, WholeTree(configuration, heap, root);
    InsideTells(configuration, heap, node, 1, path);
    ToldNodesHold(configuration, heap, node, 1, path, whole, at, prim);
    ToldNodesAreDistinct(configuration, heap, node, 1, path, whole);
    RankedAtomsAreKept(whole, configuration.maxPayloadNodes, at, Plain(prim));
    EmittedAt(configuration, Cut(whole, configuration.maxPayloadNodes), at);
  }

  /**
   The converse of non-interference: payloads that hold different primitives at one place, shown in
   both, are sanitized differently.
   */
  lemma WhatIsNotMaskedInterferes(
    configuration: Configuration, h: Heap, root: CellId, h': Heap, root': CellId, at: Path, prim: Prim, prim': Prim)
    requires PayloadHolds(configuration, h, root, at, prim) && IsKept(configuration, h, root, at)
    requires PayloadHolds(configuration, h', root', at, prim') && IsKept(configuration, h', root', at)
    requires prim != prim'
    ensures Sanitized(configuration, h, root) != Sanitized(configuration, h', root')
  {
    hide PayloadHolds, IsKept, OutAt, Sanitized;
    PrimitivesAreShown(configuration, h, root, at, prim);
    PrimitivesAreShown(configuration, h', root', at, prim');
  }
}
