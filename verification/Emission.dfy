/** Which leaves of a payload's tree reach the output: those within the budget that no later key overwrites. */
module Emission {
  import Keys
  import opened Configurations
  import opened Payload
  import opened Budget
  import opened Output
  import opened Sanitizers
  import opened Markers
  import opened Unfolding

  /** The leaf is somewhere in the tree. */
  ghost predicate Holds(tree: Tree, leaf: Leaf) {
    match tree
    case Atom(own) => own == leaf
    case Branch(_, kids, _) => exists i :: 0 <= i < |kids| && Holds(kids[i].tree, leaf)
  }

  // The budget

  /** The node with that preorder rank. */
  function NodeOfRank(tree: Tree, rank: nat): Tree
    requires rank < Nodes(tree)
  {
    KidOfRank(tree.kids, rank)
  }

  function KidOfRank(kids: seq<Kid>, rank: nat): Tree
    requires rank < KidNodes(kids)
  {
    var before, kid := kids[..|kids| - 1], Last(kids);
    if rank < KidNodes(before) then KidOfRank(before, rank)
    else if rank == KidNodes(before) then kid.tree
    else NodeOfRank(kid.tree, rank - KidNodes(before) - 1)
  }

  ghost predicate LeafAtRank(kids: seq<Kid>, leaf: Leaf, budget: nat) {
    exists rank: nat :: rank < budget && IsLeafOfRank(kids, leaf, rank)
  }

  ghost predicate IsLeafOfRank(kids: seq<Kid>, leaf: Leaf, rank: nat) {
    rank < KidNodes(kids) && KidOfRank(kids, rank) == Atom(leaf)
  }

  ghost predicate KidsHold(kids: seq<Kid>, leaf: Leaf) {
    exists i :: 0 <= i < |kids| && Holds(kids[i].tree, leaf)
  }

  lemma KidsHoldOneMore(kids: seq<Kid>, kid: Kid, leaf: Leaf)
    ensures KidsHold(kids + [kid], leaf) <==> KidsHold(kids, leaf) || Holds(kid.tree, leaf)
  {
    hide Holds;
    var more := kids + [kid];
    assert forall i :: 0 <= i < |kids| ==> more[i] == kids[i];
    assert more[|kids|] == kid;
  }

  lemma RankInOneMore(kids: seq<Kid>, leaf: Leaf, rank: nat)
    requires kids != []
    ensures var before, kid := kids[..|kids| - 1], kids[|kids| - 1];
            var first := KidNodes(before);
            IsLeafOfRank(kids, leaf, rank)
            <==> if rank < first then IsLeafOfRank(before, leaf, rank)
                 else if rank == first then kid.tree == Atom(leaf)
                 else kid.tree.Branch? && IsLeafOfRank(kid.tree.kids, leaf, rank - first - 1)
  {
    var kid, first := Last(kids), KidNodes(kids[..|kids| - 1]);
    assert KidNodes(kids) == first + 1 + Nodes(kid.tree);
    if first < rank < KidNodes(kids) {
      assert KidOfRank(kids, rank) == NodeOfRank(kid.tree, rank - first - 1);
      assert NodeOfRank(kid.tree, rank - first - 1) == KidOfRank(kid.tree.kids, rank - first - 1);
    }
  }

  /** The ranks of one more kid: its own, and those of its nodes behind it. */
  lemma RanksOfOneMore(kids: seq<Kid>, leaf: Leaf, budget: nat)
    requires kids != []
    ensures var before, kid := kids[..|kids| - 1], kids[|kids| - 1];
            var first := KidNodes(before);
            LeafAtRank(kids, leaf, budget)
            <==> || LeafAtRank(before, leaf, budget)
                 || (first < budget && (kid.tree == Atom(leaf)
                                        || (kid.tree.Branch? && LeafAtRank(kid.tree.kids, leaf, budget - first - 1))))
  {
    hide IsLeafOfRank;
    var before, kid := kids[..|kids| - 1], kids[|kids| - 1];
    var first := KidNodes(before);
    if rank: nat :| rank < budget && IsLeafOfRank(before, leaf, rank) {
      LeavesHaveRanks(before, leaf, rank);
      RankInOneMore(kids, leaf, rank);
    }
    if first < budget && kid.tree == Atom(leaf) {
      RankInOneMore(kids, leaf, first);
    }
    if first < budget && kid.tree.Branch? && LeafAtRank(kid.tree.kids, leaf, budget - first - 1) {
      var rank: nat :| rank < budget - first - 1 && IsLeafOfRank(kid.tree.kids, leaf, rank);
      RankInOneMore(kids, leaf, first + 1 + rank);
    }
    if rank: nat :| rank < budget && IsLeafOfRank(kids, leaf, rank) {
      RankInOneMore(kids, leaf, rank);
    }
  }

  lemma LeavesHaveRanks(kids: seq<Kid>, leaf: Leaf, rank: nat)
    requires IsLeafOfRank(kids, leaf, rank)
    ensures rank < KidNodes(kids)
  {
  }

  lemma RanksOfTheTree(tree: Tree, leaf: Leaf, budget: nat)
    requires tree.Branch?
    ensures LeafAtRank(tree.kids, leaf, budget)
            <==> exists rank: nat :: rank < Nodes(tree) && rank < budget && NodeOfRank(tree, rank) == Atom(leaf)
  {
    hide KidOfRank;
    if rank: nat :| rank < budget && IsLeafOfRank(tree.kids, leaf, rank) {
      assert NodeOfRank(tree, rank) == Atom(leaf);
    }
    if rank: nat :| rank < Nodes(tree) && rank < budget && NodeOfRank(tree, rank) == Atom(leaf) {
      assert IsLeafOfRank(tree.kids, leaf, rank);
    }
  }

  /** A leaf stays in the cut tree exactly if it is there with a rank below the budget. */
  lemma {:induction false} CutKeepsLeavesByRank(kids: seq<Kid>, leaf: Leaf, budget: nat)
    ensures KidsHold(CutKids(kids, budget), leaf) <==> LeafAtRank(kids, leaf, budget)
  {
    hide LeafAtRank, KidsHold, IsLeafOfRank;
    if kids == [] {
      NothingHeld(leaf, budget);
    } else {
      var before, kid := kids[..|kids| - 1], Last(kids);
      var first := KidNodes(before);
      CutKeepsLeavesByRank(before, leaf, budget);
      RanksOfOneMore(kids, leaf, budget);
      if first < budget {
        var cut := Kid(kid.place, Cut(kid.tree, budget - first - 1));
        KidsHoldOneMore(CutKids(before, budget), cut, leaf);
        if kid.tree.Branch? {
          CutKeepsLeavesByRank(kid.tree.kids, leaf, budget - first - 1);
          BranchHolds(cut.tree, leaf);
        }
      }
    }
  }

  lemma NothingHeld(leaf: Leaf, budget: nat)
    ensures !KidsHold([], leaf) && !LeafAtRank([], leaf, budget)
  {
  }

  lemma BranchHolds(tree: Tree, leaf: Leaf)
    requires tree.Branch?
    ensures Holds(tree, leaf) <==> KidsHold(tree.kids, leaf)
  {
  }

  // Keys

  /** The leaf is somewhere in the output. */
  ghost predicate Appears(out: Out, leaf: Leaf) {
    match out
    case Scalar(own) => own == leaf
    case Data(fields, _) => exists key :: key in fields && Appears(fields[key], leaf)
    case Items(items, _) => exists i :: 0 <= i < |items| && Appears(items[i], leaf)
  }

  /** No later kid of an object is assigned the same key. */
  ghost predicate Stays(configuration: Configuration, shape: Shape, kids: seq<Kid>, i: nat)
    requires i < |kids|
  {
    shape.Object? ==> forall j :: i < j < |kids| ==> KeyAt(configuration, kids, j) != KeyAt(configuration, kids, i)
  }

  /** The leaf is somewhere in the tree, under keys that all stay. */
  ghost predicate Survives(configuration: Configuration, tree: Tree, leaf: Leaf) {
    match tree
    case Atom(own) => own == leaf
    case Branch(shape, kids, _) =>
      exists i :: 0 <= i < |kids| && Stays(configuration, shape, kids, i) && Survives(configuration, kids[i].tree, leaf)
  }

  lemma StaysWithOneMore(configuration: Configuration, kids: seq<Kid>, i: nat)
    requires i < |kids|
    ensures var last := |kids| - 1;
            && (i == last ==> Stays(configuration, Object, kids, i))
            && (i < last ==>
                  && KeyAt(configuration, kids[..last], i) == KeyAt(configuration, kids, i)
                  && (Stays(configuration, Object, kids, i) <==>
                        && Stays(configuration, Object, kids[..last], i)
                        && KeyAt(configuration, kids, i) != KeyAt(configuration, kids, last)))
  {
    hide Keys.AssignedKey, NameOf;
    var last := |kids| - 1;
    assert forall j :: 0 <= j < last ==> KeyAt(configuration, kids[..last], j) == KeyAt(configuration, kids, j);
  }

  lemma AssignedOneMore(configuration: Configuration, kids: seq<Kid>)
    requires kids != []
    ensures var last := |kids| - 1;
            Assigned(configuration, kids)
            == Assigned(configuration, kids[..last])[KeyAt(configuration, kids, last) := Emit(configuration, kids[last].tree)]
  {
    hide Keys.AssignedKey, NameOf, Emit;
  }

  /** What stays is what the object is assigned. */
  lemma {:induction false} AssignedAreTheLast(configuration: Configuration, kids: seq<Kid>)
    ensures forall i :: 0 <= i < |kids| && Stays(configuration, Object, kids, i) ==>
              && KeyAt(configuration, kids, i) in Assigned(configuration, kids)
              && Assigned(configuration, kids)[KeyAt(configuration, kids, i)] == Emit(configuration, kids[i].tree)
    ensures forall key :: key in Assigned(configuration, kids) ==>
              exists i :: 0 <= i < |kids| && Stays(configuration, Object, kids, i) && KeyAt(configuration, kids, i) == key
  {
    hide Emit, KeyAt, Stays, Assigned;
    if kids == [] {
      NothingAssigned(configuration);
    } else {
      var last := |kids| - 1;
      var before := kids[..last];
      AssignedAreTheLast(configuration, before);
      AssignedOneMore(configuration, kids);
      StaysWithOneMore(configuration, kids, last);
      forall i | 0 <= i < |kids| && Stays(configuration, Object, kids, i)
        ensures KeyAt(configuration, kids, i) in Assigned(configuration, kids)
        ensures Assigned(configuration, kids)[KeyAt(configuration, kids, i)] == Emit(configuration, kids[i].tree)
      {
        StaysWithOneMore(configuration, kids, i);
      }
      forall key | key in Assigned(configuration, kids)
        ensures exists i :: 0 <= i < |kids| && Stays(configuration, Object, kids, i) && KeyAt(configuration, kids, i) == key
      {
        if key != KeyAt(configuration, kids, last) {
          var i :| 0 <= i < last && Stays(configuration, Object, before, i) && KeyAt(configuration, before, i) == key;
          StaysWithOneMore(configuration, kids, i);
        }
      }
    }
  }

  lemma NothingAssigned(configuration: Configuration)
    ensures Assigned(configuration, []) == map[]
  {
  }

  lemma {:induction false} EmittedAreAll(configuration: Configuration, kids: seq<Kid>)
    ensures |Emitted(configuration, kids)| == |kids|
    ensures forall i :: 0 <= i < |kids| ==> Emitted(configuration, kids)[i] == Emit(configuration, kids[i].tree)
  {
    hide Emit;
    if kids != [] { EmittedAreAll(configuration, kids[..|kids| - 1]); }
  }

  /** A leaf is in the output exactly if it survives. */
  lemma {:induction false} EmittedExactlyIfSurviving(configuration: Configuration, tree: Tree, leaf: Leaf)
    ensures Appears(Emit(configuration, tree), leaf) <==> Survives(configuration, tree, leaf)
  {
    hide Stays, KeyAt, Assigned, Emitted;
    if tree.Branch? {
      forall i | 0 <= i < |tree.kids|
        ensures Appears(Emit(configuration, tree.kids[i].tree), leaf) <==> Survives(configuration, tree.kids[i].tree, leaf)
      {
        EmittedExactlyIfSurviving(configuration, tree.kids[i].tree, leaf);
      }
      AssignedAreTheLast(configuration, tree.kids);
      EmittedAreAll(configuration, tree.kids);
      ListsStay(configuration, tree.kids);
    }
  }

  lemma ListsStay(configuration: Configuration, kids: seq<Kid>)
    ensures forall i :: 0 <= i < |kids| ==> Stays(configuration, List, kids, i)
  {
  }

  /** No two keys of any object in the tree are assigned alike. */
  ghost predicate CollisionFree(configuration: Configuration, tree: Tree) {
    match tree
    case Atom(_) => true
    case Branch(shape, kids, _) =>
      && (shape.Object? ==> NoCollisions(configuration, kids))
      && forall i :: 0 <= i < |kids| ==> CollisionFree(configuration, kids[i].tree)
  }

  lemma {:induction false} SurvivorsAreHeld(configuration: Configuration, tree: Tree, leaf: Leaf)
    ensures Survives(configuration, tree, leaf) ==> Holds(tree, leaf)
    ensures CollisionFree(configuration, tree) ==> (Survives(configuration, tree, leaf) <==> Holds(tree, leaf))
  {
    hide KeyAt;
    if tree.Branch? {
      forall i | 0 <= i < |tree.kids|
        ensures Survives(configuration, tree.kids[i].tree, leaf) ==> Holds(tree.kids[i].tree, leaf)
        ensures CollisionFree(configuration, tree.kids[i].tree) ==>
                  (Survives(configuration, tree.kids[i].tree, leaf) <==> Holds(tree.kids[i].tree, leaf))
      {
        SurvivorsAreHeld(configuration, tree.kids[i].tree, leaf);
      }
      assert CollisionFree(configuration, tree) ==>
          forall i :: 0 <= i < |tree.kids| ==> Stays(configuration, tree.shape, tree.kids, i);
    }
  }

  // Circular markers

  lemma {:induction false} CircularIsHeld(tree: Tree)
    ensures NoCircular(tree) <==> !Holds(tree, CircularReference)
  {
    if tree.Branch? {
      forall i | 0 <= i < |tree.kids| ensures NoCircular(tree.kids[i].tree) <==> !Holds(tree.kids[i].tree, CircularReference) {
        CircularIsHeld(tree.kids[i].tree);
      }
      assert forall kid :: kid in tree.kids <==> exists i :: 0 <= i < |tree.kids| && tree.kids[i] == kid;
    }
  }

  /**
   Exactly when the sanitized payload shows a circular marker: if, of the places where a walk of
   references meets a visit again, one has a preorder rank within the budget and is not overwritten
   by a colliding key. Without collisions the rank alone decides.
   */
  lemma CircularMarkerIsEmittedExactly(configuration: Configuration, heap: Heap, root: CellId)
    requires root in heap && heap[root].node.StringMap? && configuration.maxDepth >= 1
    ensures var node, path := heap[root].node, {heap[root].visit};
            var whole := Inside(configuration, heap, node, 1, path);
            var cut := Cut(whole, configuration.maxPayloadNodes);
            var inBudget := exists rank: nat ::
              rank < Nodes(whole) && rank < configuration.maxPayloadNodes && NodeOfRank(whole, rank) == Atom(CircularReference);
            && (Holds(whole, CircularReference) <==>
                  exists trail :: Walk(configuration, heap, node, 1, trail) && !Fresh(heap, trail, path))
            && (Holds(cut, CircularReference) <==> inBudget)
            && (Appears(Sanitized(configuration, heap, root), CircularReference) <==>
                  Survives(configuration, cut, CircularReference))
            && (Appears(Sanitized(configuration, heap, root), CircularReference) ==> inBudget)
            && (CollisionFree(configuration, cut) ==>
                  (Appears(Sanitized(configuration, heap, root), CircularReference) <==> inBudget))
  {
    hide Kids, Reference, Walk, Fresh, Holds, Appears, Survives, CollisionFree, Emit, CutKids, MapSlots;
    hide LeafAtRank, NodeOfRank, KidsHold;
    var node, path := heap[root].node, {heap[root].visit};
    var whole := Inside(configuration, heap, node, 1, path);
    var cut := Cut(whole, configuration.maxPayloadNodes);
    CircularMarkerExactly(configuration, heap, root);
    CircularIsHeld(whole);
    CutKeepsLeavesByRank(whole.kids, CircularReference, configuration.maxPayloadNodes);
    RanksOfTheTree(whole, CircularReference, configuration.maxPayloadNodes);
    BranchHolds(cut, CircularReference);
    EmittedExactlyIfSurviving(configuration, cut, CircularReference);
    SurvivorsAreHeld(configuration, cut, CircularReference);
  }
}
