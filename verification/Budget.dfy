/**
 The payload node budget as an operation on finished trees: keep the first `budget` nodes in
 depth-first preorder and count the rest as omitted where they were dropped.
 */
module Budget {
  import opened Payload

  /** The payload nodes below the root; the root itself costs nothing. */
  function Nodes(tree: Tree): nat {
    match tree
    case Atom(_) => 0
    case Branch(_, kids, _) => KidNodes(kids)
  }

  function KidNodes(kids: seq<Kid>): nat {
    if kids == [] then 0
    else
      var kid := Last(kids);
      KidNodes(kids[..|kids| - 1]) + 1 + Nodes(kid.tree)
  }

  function Last(kids: seq<Kid>): (kid: Kid)
    requires kids != []
    ensures kid == kids[|kids| - 1] && kid.tree < kid
  {
    kids[|kids| - 1]
  }

  function Cut(tree: Tree, budget: nat): Tree {
    match tree
    case Atom(_) => tree
    case Branch(shape, kids, omitted) =>
      var kept := CutKids(kids, budget);
      Branch(shape, kept, omitted + |kids| - |kept|)
  }

  /** A kid stays exactly if its preorder rank, the nodes before it, is below the budget. */
  function CutKids(kids: seq<Kid>, budget: nat): (kept: seq<Kid>)
    ensures |kept| <= |kids|
  {
    if kids == [] then []
    else
      var before, kid := kids[..|kids| - 1], Last(kids);
      var rank := KidNodes(before);
      if budget <= rank then CutKids(before, budget)
      else CutKids(before, budget) + [Kid(kid.place, Cut(kid.tree, budget - rank - 1))]
  }

  // Preorder

  type Path = seq<Place>

  function Preorder(tree: Tree, at: Path): seq<Path> {
    match tree
    case Atom(_) => []
    case Branch(_, kids, _) => KidsPreorder(kids, at)
  }

  function KidsPreorder(kids: seq<Kid>, at: Path): seq<Path> {
    if kids == [] then []
    else
      var kid := Last(kids);
      KidsPreorder(kids[..|kids| - 1], at) + [at + [kid.place]] + Preorder(kid.tree, at + [kid.place])
  }

  function Take<T>(s: seq<T>, n: nat): seq<T> {
    if n < |s| then s[..n] else s
  }

  lemma {:induction false} PreorderCountsNodes(tree: Tree, at: Path)
    ensures |Preorder(tree, at)| == Nodes(tree)
  {
    if tree.Branch? { KidsPreorderCountsNodes(tree.kids, at); }
  }

  lemma {:induction false} KidsPreorderCountsNodes(kids: seq<Kid>, at: Path)
    ensures |KidsPreorder(kids, at)| == KidNodes(kids)
  {
    if kids != [] {
      var kid := Last(kids);
      KidsPreorderCountsNodes(kids[..|kids| - 1], at);
      PreorderCountsNodes(kid.tree, at + [kid.place]);
    }
  }

  /** The nodes of a cut tree are the first `budget` nodes of the whole tree, in preorder. */
  lemma {:induction false} CutKeepsAPreorderPrefix(tree: Tree, budget: nat, at: Path)
    ensures Preorder(Cut(tree, budget), at) == Take(Preorder(tree, at), budget)
  {
    if tree.Branch? { CutKidsKeepAPreorderPrefix(tree.kids, budget, at); }
  }

  lemma {:induction false} CutKidsKeepAPreorderPrefix(kids: seq<Kid>, budget: nat, at: Path)
    ensures KidsPreorder(CutKids(kids, budget), at) == Take(KidsPreorder(kids, at), budget)
  {
    if kids != [] {
      var before, kid := kids[..|kids| - 1], Last(kids);
      var rank := KidNodes(before);
      KidsPreorderCountsNodes(before, at);
      CutKidsKeepAPreorderPrefix(before, budget, at);
      if rank < budget {
        CutKeepsAPreorderPrefix(kid.tree, budget - rank - 1, at + [kid.place]);
        var kept := CutKids(kids, budget);
        assert kept[..|kept| - 1] == CutKids(before, budget);
      }
    }
  }

  /** Node for node, `cut` is `whole` with trailing kids turned into omitted counts. */
  ghost predicate Trims(cut: Tree, whole: Tree) {
    match cut
    case Atom(_) => cut == whole
    case Branch(shape, kids, omitted) =>
      && whole.Branch?
      && shape == whole.shape
      && |kids| <= |whole.kids|
      && |kids| + omitted == |whole.kids| + whole.omitted
      && forall i :: 0 <= i < |kids| ==>
           kids[i].place == whole.kids[i].place && Trims(kids[i].tree, whole.kids[i].tree)
  }

  lemma {:induction false} CutTrims(tree: Tree, budget: nat)
    ensures Trims(Cut(tree, budget), tree)
  {
    if tree.Branch? { CutKidsTrim(tree.kids, budget); }
  }

  lemma {:induction false} CutKidsTrim(kids: seq<Kid>, budget: nat)
    ensures var kept := CutKids(kids, budget);
            forall i :: 0 <= i < |kept| ==>
              kept[i].place == kids[i].place && Trims(kept[i].tree, kids[i].tree)
  {
    if kids != [] {
      var before, kid := kids[..|kids| - 1], Last(kids);
      CutKidsTrim(before, budget);
      CutKidsAreAPrefix(before, budget);
      if KidNodes(before) < budget { CutTrims(kid.tree, budget - KidNodes(before) - 1); }
    }
  }

  /** Kids are dropped only from the first one whose rank reaches the budget. */
  lemma {:induction false} CutKidsAreAPrefix(kids: seq<Kid>, budget: nat)
    ensures KidNodes(kids) <= budget ==> |CutKids(kids, budget)| == |kids|
    ensures kids != [] && KidNodes(kids[..|kids| - 1]) < budget ==> |CutKids(kids, budget)| == |kids|
  {
    if kids != [] { CutKidsAreAPrefix(kids[..|kids| - 1], budget); }
  }

  /** A trimmed tree is determined by its preorder. */
  lemma {:induction false} PreorderDeterminesTrimmed(a: Tree, b: Tree, whole: Tree, at: Path)
    requires Trims(a, whole) && Trims(b, whole)
    requires Preorder(a, at) == Preorder(b, at)
    ensures a == b
    decreases whole, 1, 0
  {
    if a.Branch? {
      PreorderDeterminesTrimmedKids(a.kids, b.kids, whole, at);
    }
  }

  lemma {:induction false} PreorderDeterminesTrimmedKids(a: seq<Kid>, b: seq<Kid>, whole: Tree, at: Path)
    requires whole.Branch? && |a| <= |whole.kids| && |b| <= |whole.kids|
    requires forall i :: 0 <= i < |a| ==> a[i].place == whole.kids[i].place && Trims(a[i].tree, whole.kids[i].tree)
    requires forall i :: 0 <= i < |b| ==> b[i].place == whole.kids[i].place && Trims(b[i].tree, whole.kids[i].tree)
    requires KidsPreorder(a, at) == KidsPreorder(b, at)
    ensures a == b
    decreases whole, 0, |a| + |b|
  {
    hide Trims;
    if a != [] && b != [] {
      var x, y := a[|a| - 1], b[|b| - 1];
      PathsGoDown(x.tree, at + [x.place]);
      PathsGoDown(y.tree, at + [y.place]);
      LastShortPathSplits(
        KidsPreorder(a[..|a| - 1], at), at + [x.place], Preorder(x.tree, at + [x.place]),
        KidsPreorder(b[..|b| - 1], at), at + [y.place], Preorder(y.tree, at + [y.place]));
      assert x.place == (at + [x.place])[|at|] == (at + [y.place])[|at|] == y.place;
      assert KidsPreorder(a[..|a| - 1], at) == KidsPreorder(b[..|b| - 1], at);
      PreorderDeterminesTrimmedKids(a[..|a| - 1], b[..|b| - 1], whole, at);
      PreorderDeterminesTrimmed(x.tree, y.tree, whole.kids[|a| - 1].tree, at + [x.place]);
      assert a == a[..|a| - 1] + [x] && b == b[..|b| - 1] + [y];
    }
  }

  /** A sequence splits in one way at its last path of a given length, if all later ones are longer. */
  lemma LastShortPathSplits(
    before: seq<Path>, path: Path, below: seq<Path>, before': seq<Path>, path': Path, below': seq<Path>)
    requires before + [path] + below == before' + [path'] + below'
    requires |path| == |path'|
    requires forall i :: 0 <= i < |below| ==> |below[i]| > |path|
    requires forall i :: 0 <= i < |below'| ==> |below'[i]| > |path|
    ensures before == before' && path == path' && below == below'
  {
    var all := before + [path] + below;
    assert all[|before|] == path && all[|before'|] == path';
    assert forall i :: |before| < i < |all| ==> all[i] == below[i - |before| - 1];
    assert forall i :: |before'| < i < |all| ==> all[i] == below'[i - |before'| - 1];
    assert |before| == |before'|;
    assert before == all[..|before|] == before';
    assert below == all[|before| + 1..] == below';
  }

  lemma {:induction false} PathsGoDown(tree: Tree, at: Path)
    ensures forall i :: 0 <= i < |Preorder(tree, at)| ==> |Preorder(tree, at)[i]| > |at|
  {
    if tree.Branch? { KidsPathsGoDown(tree.kids, at); }
  }

  lemma {:induction false} KidsPathsGoDown(kids: seq<Kid>, at: Path)
    ensures forall i :: 0 <= i < |KidsPreorder(kids, at)| ==> |KidsPreorder(kids, at)[i]| > |at|
  {
    if kids != [] {
      var kid := Last(kids);
      KidsPathsGoDown(kids[..|kids| - 1], at);
      PathsGoDown(kid.tree, at + [kid.place]);
    }
  }

  /**
   The budget as a property, without saying how to cut: `cut` is the tree that trims `whole`
   and whose preorder is the first `budget` nodes of `whole`. There is exactly one.
   */
  lemma CutIsThePreorderCut(cut: Tree, whole: Tree, budget: nat)
    ensures cut == Cut(whole, budget)
            <==> Trims(cut, whole) && Preorder(cut, []) == Take(Preorder(whole, []), budget)
  {
    CutTrims(whole, budget);
    CutKeepsAPreorderPrefix(whole, budget, []);
    if Trims(cut, whole) && Preorder(cut, []) == Take(Preorder(whole, []), budget) {
      PreorderDeterminesTrimmed(cut, Cut(whole, budget), whole, []);
    }
  }

  /** The budget is spent in full before anything is omitted for it. */
  lemma CutSpends(whole: Tree, budget: nat)
    ensures Nodes(Cut(whole, budget)) == if Nodes(whole) <= budget then Nodes(whole) else budget
    ensures Cut(whole, budget) == whole <==> Nodes(whole) <= budget
  {
    PreorderCountsNodes(whole, []);
    PreorderCountsNodes(Cut(whole, budget), []);
    CutKeepsAPreorderPrefix(whole, budget, []);
    if Nodes(whole) <= budget {
      TrimsIsReflexive(whole);
      CutIsThePreorderCut(whole, whole, budget);
    }
  }

  lemma {:induction false} TrimsIsReflexive(tree: Tree)
    ensures Trims(tree, tree)
  {
    if tree.Branch? {
      forall i | 0 <= i < |tree.kids| ensures Trims(tree.kids[i].tree, tree.kids[i].tree) {
        TrimsIsReflexive(tree.kids[i].tree);
      }
    }
  }
}
