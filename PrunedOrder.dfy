/**
 * Specification of the pruned preorder that the mutable predicate iterator
 * yields: a pair (parent, child) for every node that satisfies the predicate
 * and whose ancestors all do, the root included.
 *
 * `Pruned` is the stack-frame view (one pending frame: a parent and the
 * candidate slot, with the candidate's later siblings); `PrunedPre`,
 * `PrunedForest` and `PrunedTree` are the textbook view of filtering a tree.
 */
module PrunedOrder {
  import opened Tree

  /** One yielded pair, as the two locations it grants mutable access to. */
  datatype Visit = Visit(parent: NodeIndex, child: Idx)

  function Candidates(visits: seq<Visit>): seq<Idx>
  {
    seq(|visits|, k requires 0 <= k < |visits| => visits[k].child)
  }

  /** The value at `n` (the inline root or a live arena node) satisfies `pred`. */
  ghost predicate Admits<T>(g: SceneGraph<T>, pred: T -> bool, n: NodeIndex)
  {
    match n
    case Root => pred(g.root)
    case Branch(i) => i in g.arena && pred(g.arena[i].value)
  }

  /**
   * What a frame (parent, candidate) contributes, together with the frames for
   * the candidate's later siblings: nothing at all under a rejected root; a
   * rejected candidate is dropped with its subtree but its siblings are kept.
   */
  ghost function Pruned<T>(g: SceneGraph<T>, pred: T -> bool, parent: NodeIndex, link: Option<Idx>): (visits: seq<Visit>)
    requires WellFormed(g) && Resolves(g, link)
    ensures forall k :: 0 <= k < |visits| ==> visits[k].child in Walk(g, link)
    decreases Height(g, link)
  {
    if link.None? || (parent.Root? && !pred(g.root)) then []
    else
      var c := link.value;
      var node := g.arena[c];
      var siblings := Pruned(g, pred, parent, node.nextSibling);
      if !pred(node.value) then siblings
      else [Visit(parent, c)] + Pruned(g, pred, Branch(c), First(node.children)) + siblings
  }

  /** Everything the iterator started at the root yields. */
  ghost function PrunedFromRoot<T>(g: SceneGraph<T>, pred: T -> bool): seq<Visit>
    requires WellFormed(g)
  {
    Pruned(g, pred, Root, FirstChildOf(g, Root))
  }

  /** The subtree at `s` filtered by `pred`, each kept node paired with its parent. */
  ghost function PrunedPre<T>(g: SceneGraph<T>, pred: T -> bool, parent: NodeIndex, s: Idx): seq<Visit>
    requires WellFormed(g) && s in g.arena
    decreases Rank(g)[s], 1
  {
    if !pred(g.arena[s].value) then []
    else [Visit(parent, s)] + PrunedForest(g, pred, Branch(s), ChildrenOf(g, Branch(s)))
  }

  /** The filtered subtrees of the children `cs` of `parent`, in sibling order. */
  ghost function PrunedForest<T>(g: SceneGraph<T>, pred: T -> bool, parent: NodeIndex, cs: seq<Idx>): seq<Visit>
    requires WellFormed(g) && forall k :: 0 <= k < |cs| ==> cs[k] in g.arena
    decreases Bound(g, cs), 0, |cs|
  {
    if cs == [] then [] else PrunedPre(g, pred, parent, cs[0]) + PrunedForest(g, pred, parent, cs[1..])
  }

  /** The whole tree filtered by `pred`: nothing if the root itself is rejected. */
  ghost function PrunedTree<T>(g: SceneGraph<T>, pred: T -> bool): seq<Visit>
    requires WellFormed(g)
  {
    if !pred(g.root) then [] else PrunedForest(g, pred, Root, ChildrenOf(g, Root))
  }

  /** Under an admitted parent, the frame view is the textbook filtered preorder of the sibling chain. */
  lemma {:induction false} PrunedIsPrunedPreorder<T>(g: SceneGraph<T>, pred: T -> bool, parent: NodeIndex, link: Option<Idx>)
    requires WellFormed(g) && Resolves(g, link)
    requires parent.Root? ==> pred(g.root)
    ensures Pruned(g, pred, parent, link) == PrunedForest(g, pred, parent, Chain(g, link))
    decreases Height(g, link)
  {
    if link.Some? {
      var c := link.value;
      var node := g.arena[c];
      PrunedIsPrunedPreorder(g, pred, Branch(c), First(node.children));
      PrunedIsPrunedPreorder(g, pred, parent, node.nextSibling);
      var chain := Chain(g, link);
      assert chain[1..] == Chain(g, node.nextSibling);
    }
  }

  /**
   * From the root, the iterator yields exactly the tree filtered by `pred`;
   * in particular, a rejected root empties the whole sequence.
   */
  lemma PrunedFromRootIsPrunedTree<T>(g: SceneGraph<T>, pred: T -> bool)
    requires WellFormed(g)
    ensures PrunedFromRoot(g, pred) == PrunedTree(g, pred)
    ensures !pred(g.root) ==> PrunedFromRoot(g, pred) == []
  {
    if pred(g.root) {
      PrunedIsPrunedPreorder(g, pred, Root, FirstChildOf(g, Root));
    }
  }

  /** With a predicate that admits everything, the candidates follow the plain preorder walk. */
  lemma {:induction false} AlwaysTrueMatchesWalk<T>(g: SceneGraph<T>, pred: T -> bool, parent: NodeIndex, link: Option<Idx>)
    requires WellFormed(g) && Resolves(g, link)
    requires forall v :: pred(v)
    ensures Candidates(Pruned(g, pred, parent, link)) == Walk(g, link)
    decreases Height(g, link)
  {
    if link.Some? {
      var c := link.value;
      var node := g.arena[c];
      var sub := Pruned(g, pred, Branch(c), First(node.children));
      var siblings := Pruned(g, pred, parent, node.nextSibling);
      AlwaysTrueMatchesWalk(g, pred, Branch(c), First(node.children));
      AlwaysTrueMatchesWalk(g, pred, parent, node.nextSibling);
      assert pred(g.root) && pred(node.value);
      assert Pruned(g, pred, parent, link) == [Visit(parent, c)] + sub + siblings;
      CandidatesAppend([Visit(parent, c)] + sub, siblings);
      CandidatesAppend([Visit(parent, c)], sub);
    }
  }

  /**
   * Every yielded pair is a real parent/child edge: the child is among the
   * parent's children, it satisfies `pred`, a `Branch` parent is a different
   * slot from the child (the disjointness the paired mutable lookup needs), a
   * `Root` parent satisfies `pred`, and any parent other than the frame's own
   * was itself admitted.
   */
  lemma {:induction false} VisitsAreAdmittedEdges<T>(g: SceneGraph<T>, pred: T -> bool, parent: NodeIndex, link: Option<Idx>)
    requires WellFormed(g) && Resolves(g, link)
    requires link.Some? ==> link.value in ChildrenOf(g, parent)
    ensures forall v :: v in Pruned(g, pred, parent, link) ==>
      v.child in ChildrenOf(g, v.parent) && pred(g.arena[v.child].value) &&
      (v.parent.Branch? ==> v.parent.idx != v.child) &&
      (v.parent.Root? ==> pred(g.root)) &&
      (v.parent != parent ==> Admits(g, pred, v.parent))
    decreases Height(g, link)
  {
    if link.Some? && !(parent.Root? && !pred(g.root)) {
      var c := link.value;
      var node := g.arena[c];
      if node.nextSibling.Some? {
        ChainClosed(g, FirstChildOf(g, parent), c);
      }
      VisitsAreAdmittedEdges(g, pred, parent, node.nextSibling);
      if pred(node.value) {
        VisitsAreAdmittedEdges(g, pred, Branch(c), First(node.children));
        assert parent.Branch? ==> parent.idx in g.arena;
      }
    }
  }

  lemma CandidatesAppend(a: seq<Visit>, b: seq<Visit>)
    ensures Candidates(a + b) == Candidates(a) + Candidates(b)
  {
  }

  lemma NoDupSplit(a: seq<Idx>, b: seq<Idx>)
    requires NoDup(a + b)
    ensures NoDup(a) && NoDup(b)
    ensures forall x :: x in a ==> x !in b
  {
    assert multiset(a + b) == multiset(a) + multiset(b);
    forall x ensures multiset(a)[x] <= 1 && multiset(b)[x] <= 1 {
      assert multiset(a + b)[x] <= 1;
    }
    forall x | x in a ensures x !in b {
      assert multiset(a)[x] >= 1;
      assert multiset(a + b)[x] <= 1;
    }
  }

  /** The descendants of a node met in a walk are part of that walk. */
  lemma DescendantsInWalk<T>(g: SceneGraph<T>, link: Option<Idx>, n: Idx)
    requires WellFormed(g) && Resolves(g, link) && n in Walk(g, link)
    ensures forall x :: x in Descendants(g, Branch(n)) ==> x in Walk(g, link)
  {
    var sub := Descendants(g, Branch(n));
    SubWalk(g, link, n);
    assert Walk(g, Some(n)) == [n] + sub + Walk(g, g.arena[n].nextSibling);
    forall x | x in sub ensures x in Walk(g, link) {
      assert multiset(Walk(g, Some(n)))[x] >= 1;
    }
  }

  /** A duplicate-free head, middle and tail are each duplicate-free and pairwise disjoint. */
  lemma NoDupCons(c: Idx, inner: seq<Idx>, outer: seq<Idx>)
    requires NoDup([c] + (inner + outer))
    ensures NoDup(inner) && NoDup(outer) && c !in inner && c !in outer
    ensures forall x :: x in inner ==> x !in outer
  {
    NoDupSplit([c], inner + outer);
    NoDupSplit(inner, outer);
    assert forall x :: x in inner ==> x in inner + outer;
    assert forall x :: x in outer ==> x in inner + outer;
  }

  /** No visit in `visits` has a child in `bad`. */
  ghost predicate Avoids(visits: seq<Visit>, bad: seq<Idx>)
  {
    forall k :: 0 <= k < |visits| ==> visits[k].child !in bad
  }

  /** Visits whose children all lie in `w` avoid every `bad` outside `w`. */
  lemma AvoidsWithin(visits: seq<Visit>, w: seq<Idx>, bad: seq<Idx>)
    requires forall k :: 0 <= k < |visits| ==> visits[k].child in w
    requires forall x :: x in bad ==> x !in w
    ensures Avoids(visits, bad)
  {
  }

  lemma AvoidsConcat(a: seq<Visit>, b: seq<Visit>, bad: seq<Idx>)
    requires Avoids(a, bad) && Avoids(b, bad)
    ensures Avoids(a + b, bad)
  {
    forall k | 0 <= k < |a + b|
      ensures (a + b)[k].child !in bad
    {
      if k < |a| {
        assert (a + b)[k] == a[k];
      } else {
        assert (a + b)[k] == b[k - |a|];
      }
    }
  }

  /** `n` and its descendants: the slots a rejected `n` keeps out of the output. */
  ghost function Subtree<T>(g: SceneGraph<T>, n: Idx): seq<Idx>
    requires WellFormed(g)
  {
    [n] + Descendants(g, Branch(n))
  }

  /** A node met in a walk has its whole subtree inside that walk. */
  lemma SubtreeInWalk<T>(g: SceneGraph<T>, link: Option<Idx>, n: Idx)
    requires WellFormed(g) && Resolves(g, link) && n in Walk(g, link)
    ensures forall x :: x in Subtree(g, n) ==> x in Walk(g, link)
  {
    DescendantsInWalk(g, link, n);
  }

  /** One unfolding of `PrunedAvoids`, given what the recursive calls establish. */
  lemma AvoidsStep<T>(g: SceneGraph<T>, pred: T -> bool, parent: NodeIndex, c: Idx, n: Idx)
    requires WellFormed(g) && c in g.arena && !(parent.Root? && !pred(g.root))
    requires
      var node := g.arena[c];
      var inner := Walk(g, First(node.children));
      var outer := Walk(g, node.nextSibling);
      var bad := Subtree(g, n);
      c !in outer && (forall x :: x in inner ==> x !in outer) &&
      (n == c || n in inner || n in outer) && (n == c ==> !pred(node.value)) &&
      (n != c ==> c !in inner && forall x :: x in bad ==> x in inner + outer) &&
      (n in inner ==> forall x :: x in bad ==> x in inner) &&
      (n in outer ==> forall x :: x in bad ==> x in outer) &&
      (n in inner && pred(node.value) ==> Avoids(Pruned(g, pred, Branch(c), First(node.children)), bad)) &&
      (n in outer ==> Avoids(Pruned(g, pred, parent, node.nextSibling), bad))
    ensures Avoids(Pruned(g, pred, parent, Some(c)), Subtree(g, n))
  {
    var node := g.arena[c];
    var inner := Walk(g, First(node.children));
    var outer := Walk(g, node.nextSibling);
    var sub := Pruned(g, pred, Branch(c), First(node.children));
    var siblings := Pruned(g, pred, parent, node.nextSibling);
    var bad := Subtree(g, n);
    if n == c {
      assert bad == [c] + inner;
      AvoidsWithin(siblings, outer, bad);
    } else if n in inner {
      AvoidsWithin(siblings, outer, bad);
      if pred(node.value) {
        AvoidsConcat([Visit(parent, c)], sub, bad);
        AvoidsConcat([Visit(parent, c)] + sub, siblings, bad);
      }
    } else {
      if pred(node.value) {
        AvoidsWithin([Visit(parent, c)] + sub, [c] + inner, bad);
        AvoidsConcat([Visit(parent, c)] + sub, siblings, bad);
      }
    }
  }

  /** The inductive core of `RejectedSubtreePruned`. */
  lemma {:induction false} PrunedAvoids<T>(g: SceneGraph<T>, pred: T -> bool, parent: NodeIndex, link: Option<Idx>, n: Idx)
    requires WellFormed(g) && Resolves(g, link)
    requires NoDup(Walk(g, link)) && n in Walk(g, link) && !pred(g.arena[n].value)
    ensures Avoids(Pruned(g, pred, parent, link), Subtree(g, n))
    decreases Height(g, link)
  {
    if !(parent.Root? && !pred(g.root)) {
      var c := link.value;
      var node := g.arena[c];
      var inner := Walk(g, First(node.children));
      var outer := Walk(g, node.nextSibling);
      assert Walk(g, link) == [c] + (inner + outer);
      NoDupCons(c, inner, outer);
      SubtreeInWalk(g, link, n);
      if n in inner {
        SubtreeInWalk(g, First(node.children), n);
        if pred(node.value) {
          PrunedAvoids(g, pred, Branch(c), First(node.children), n);
        }
      }
      if n in outer {
        SubtreeInWalk(g, node.nextSibling, n);
        PrunedAvoids(g, pred, parent, node.nextSibling, n);
      }
      AvoidsStep(g, pred, parent, c, n);
    }
  }

  /**
   * In a tree, a rejected node `n` is never yielded and neither is any of its
   * descendants, whatever they satisfy: its whole subtree is pruned.
   */
  lemma RejectedSubtreePruned<T>(g: SceneGraph<T>, pred: T -> bool, parent: NodeIndex, link: Option<Idx>, n: Idx)
    requires WellFormed(g) && Resolves(g, link)
    requires NoDup(Walk(g, link)) && n in Walk(g, link) && !pred(g.arena[n].value)
    ensures forall v :: v in Pruned(g, pred, parent, link) ==>
      v.child != n && v.child !in Descendants(g, Branch(n))
  {
    PrunedAvoids(g, pred, parent, link, n);
    forall v | v in Pruned(g, pred, parent, link)
      ensures v.child != n && v.child !in Descendants(g, Branch(n))
    {
      var k :| 0 <= k < |Pruned(g, pred, parent, link)| && Pruned(g, pred, parent, link)[k] == v;
      assert v.child !in Subtree(g, n);
    }
  }
}
