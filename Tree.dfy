/**
 * The arena-backed scene graph that both traversal engines walk.
 *
 * Non-root nodes live in an arena keyed by slot; each node keeps the first/last
 * slots of its child list and a link to its next sibling. The root value sits
 * inline in the graph and owns its own child range. Generations of the arena's
 * slots are abstracted away: a stale slot is simply one the map does not hold.
 *
 * Besides the data model this module holds the specification of a preorder
 * walk: `Walk`, the stack-frame view (a slot, its subtree, then its later
 * siblings' subtrees), and `Pre`/`PreForest`, the textbook view (a node, then
 * the preorders of its children in sibling order).
 */
module Tree {

  datatype Option<T> = None | Some(value: T)

  /** A slot of the generational arena. */
  type Idx = nat

  /** Names either the inline root value or a node resident in the arena. */
  datatype NodeIndex = Root | Branch(idx: Idx)

  /** Head and tail of a child list; only `first` is used by the traversals. */
  datatype ChildRange = ChildRange(first: Idx, last: Idx)

  datatype Node<T> = Node(value: T, children: Option<ChildRange>, nextSibling: Option<Idx>)

  datatype SceneGraph<T> = SceneGraph(root: T, rootChildren: Option<ChildRange>, arena: map<Idx, Node<T>>)

  function First(range: Option<ChildRange>): Option<Idx>
  {
    if range.Some? then Some(range.value.first) else None
  }

  /** A link resolves in the arena (a `None` link trivially does). */
  ghost predicate Resolves<T>(g: SceneGraph<T>, link: Option<Idx>)
  {
    link.Some? ==> link.value in g.arena
  }

  ghost predicate LinkBelow<T>(arena: map<Idx, Node<T>>, rank: map<Idx, nat>, link: Option<Idx>, bound: nat)
  {
    link.Some? ==> link.value in arena && link.value in rank && rank[link.value] < bound
  }

  /**
   * `rank` witnesses that the links form a finite acyclic structure: every
   * first-child and next-sibling link resolves and leads to a smaller rank.
   */
  ghost predicate Ranked<T>(arena: map<Idx, Node<T>>, rank: map<Idx, nat>)
  {
    forall i :: i in arena ==>
      i in rank &&
      LinkBelow(arena, rank, First(arena[i].children), rank[i]) &&
      LinkBelow(arena, rank, arena[i].nextSibling, rank[i])
  }

  /** Every link resolves, the root's first child included, and no link chain cycles. */
  ghost predicate WellFormed<T>(g: SceneGraph<T>)
  {
    (exists rank :: Ranked(g.arena, rank)) && Resolves(g, First(g.rootChildren))
  }

  ghost function Rank<T>(g: SceneGraph<T>): (rank: map<Idx, nat>)
    requires WellFormed(g)
    ensures Ranked(g.arena, rank)
  {
    var rank :| Ranked(g.arena, rank); rank
  }

  /** One more than the rank of the slot a link names; 0 for no link. */
  ghost function Height<T>(g: SceneGraph<T>, link: Option<Idx>): nat
    requires WellFormed(g) && Resolves(g, link)
  {
    if link.None? then 0 else Rank(g)[link.value] + 1
  }

  /**
   * The first child of `n`: the root's child range for `Root`, the arena
   * entry's child range for a `Branch`, and nothing for a stale `Branch`.
   */
  function FirstChildOf<T>(g: SceneGraph<T>, n: NodeIndex): (first: Option<Idx>)
    ensures WellFormed(g) ==> Resolves(g, first)
    ensures n.Branch? && n.idx !in g.arena ==> first.None?
  {
    match n
    case Root => First(g.rootChildren)
    case Branch(i) => if i in g.arena then First(g.arena[i].children) else None
  }

  /** The sibling chain that starts at `link`, following `nextSibling`. */
  ghost function Chain<T>(g: SceneGraph<T>, link: Option<Idx>): (chain: seq<Idx>)
    requires WellFormed(g) && Resolves(g, link)
    ensures forall k :: 0 <= k < |chain| ==> chain[k] in g.arena && Rank(g)[chain[k]] < Height(g, link)
    decreases Height(g, link)
  {
    if link.None? then [] else [link.value] + Chain(g, g.arena[link.value].nextSibling)
  }

  /** The children of `n`, in sibling order (which is attachment order). */
  ghost function ChildrenOf<T>(g: SceneGraph<T>, n: NodeIndex): (children: seq<Idx>)
    requires WellFormed(g)
    ensures forall k :: 0 <= k < |children| ==> children[k] in g.arena
    ensures n.Branch? && n.idx in g.arena ==>
      forall k :: 0 <= k < |children| ==> Rank(g)[children[k]] < Rank(g)[n.idx]
  {
    Chain(g, FirstChildOf(g, n))
  }

  /** A sibling chain is closed under `nextSibling`. */
  lemma {:induction false} ChainClosed<T>(g: SceneGraph<T>, link: Option<Idx>, c: Idx)
    requires WellFormed(g) && Resolves(g, link)
    requires c in Chain(g, link) && g.arena[c].nextSibling.Some?
    ensures g.arena[c].nextSibling.value in Chain(g, link)
    decreases Height(g, link)
  {
    var next := g.arena[link.value].nextSibling;
    if c != link.value {
      ChainClosed(g, next, c);
    }
  }

  /**
   * The stack-frame view of a preorder walk: the node at `link`, then its
   * subtree (from its first child), then the walks of its later siblings.
   */
  ghost function Walk<T>(g: SceneGraph<T>, link: Option<Idx>): (walk: seq<Idx>)
    requires WellFormed(g) && Resolves(g, link)
    ensures forall k :: 0 <= k < |walk| ==> walk[k] in g.arena && Rank(g)[walk[k]] < Height(g, link)
    decreases Height(g, link)
  {
    if link.None? then []
    else
      var node := g.arena[link.value];
      [link.value] + Walk(g, First(node.children)) + Walk(g, node.nextSibling)
  }

  /** The proper descendants of `n` in preorder; empty for a stale `Branch`. */
  ghost function Descendants<T>(g: SceneGraph<T>, n: NodeIndex): seq<Idx>
    requires WellFormed(g)
  {
    Walk(g, FirstChildOf(g, n))
  }

  /** One more than the largest rank in `cs`; 0 for the empty sequence. */
  ghost function Bound<T>(g: SceneGraph<T>, cs: seq<Idx>): (b: nat)
    requires WellFormed(g) && forall k :: 0 <= k < |cs| ==> cs[k] in g.arena
    ensures forall k :: 0 <= k < |cs| ==> Rank(g)[cs[k]] < b
    ensures b == 0 || exists k :: 0 <= k < |cs| && b == Rank(g)[cs[k]] + 1
  {
    if cs == [] then 0
    else
      var rest := Bound(g, cs[1..]);
      var here := Rank(g)[cs[0]] + 1;
      if here < rest then
        assert exists k :: 1 <= k < |cs| && rest == Rank(g)[cs[k]] + 1 by {
          var j :| 0 <= j < |cs[1..]| && rest == Rank(g)[cs[1..][j]] + 1;
          assert cs[1..][j] == cs[j + 1];
        }
        rest
      else here
  }

  /** Textbook preorder of the subtree rooted at `s`: the node, then each child's preorder in order. */
  ghost function Pre<T>(g: SceneGraph<T>, s: Idx): seq<Idx>
    requires WellFormed(g) && s in g.arena
    decreases Rank(g)[s], 1
  {
    [s] + PreForest(g, ChildrenOf(g, Branch(s)))
  }

  /** The preorders of the subtrees rooted at `cs`, concatenated in order. */
  ghost function PreForest<T>(g: SceneGraph<T>, cs: seq<Idx>): seq<Idx>
    requires WellFormed(g) && forall k :: 0 <= k < |cs| ==> cs[k] in g.arena
    decreases Bound(g, cs), 0, |cs|
  {
    if cs == [] then [] else Pre(g, cs[0]) + PreForest(g, cs[1..])
  }

  /** Every slot occurs at most once. */
  ghost predicate NoDup(s: seq<Idx>)
  {
    forall x :: multiset(s)[x] <= 1
  }

  /** Where a link starts: the root's child range, or an arena entry's child range or sibling link. */
  datatype LinkSource = RootFirst | FirstOf(owner: Idx) | NextOf(owner: Idx)

  /** The slot a link names, if any; an entry that is not live has no links. */
  function Target<T>(g: SceneGraph<T>, s: LinkSource): (t: Option<Idx>)
    ensures WellFormed(g) ==> Resolves(g, t)
    ensures WellFormed(g) && t.Some? && !s.RootFirst? ==> s.owner in g.arena && Rank(g)[t.value] < Rank(g)[s.owner]
  {
    match s
    case RootFirst => First(g.rootChildren)
    case FirstOf(i) => if i in g.arena then First(g.arena[i].children) else None
    case NextOf(i) => if i in g.arena then g.arena[i].nextSibling else None
  }

  /** No slot is named by two different links: each node hangs in exactly one place. */
  ghost predicate UniqueLinks<T>(g: SceneGraph<T>)
  {
    forall s1, s2 :: Target(g, s1).Some? && Target(g, s1) == Target(g, s2) ==> s1 == s2
  }

  /** The graph is a tree: well formed, and every slot is the target of at most one link. */
  ghost predicate IsTree<T>(g: SceneGraph<T>)
  {
    WellFormed(g) && UniqueLinks(g)
  }

  /** The stack-frame walk from a link is the textbook preorder of its sibling chain. */
  lemma {:induction false} WalkIsPreorder<T>(g: SceneGraph<T>, link: Option<Idx>)
    requires WellFormed(g) && Resolves(g, link)
    ensures Walk(g, link) == PreForest(g, Chain(g, link))
    decreases Height(g, link)
  {
    if link.Some? {
      var c := link.value;
      var node := g.arena[c];
      WalkIsPreorder(g, First(node.children));
      WalkIsPreorder(g, node.nextSibling);
      var chain := Chain(g, link);
      assert chain[1..] == Chain(g, node.nextSibling);
    }
  }

  /**
   * The descendants of `n` are the textbook preorders of its children in
   * attachment order; for a live node, they are its own preorder minus itself.
   */
  lemma DescendantsArePreorder<T>(g: SceneGraph<T>, n: NodeIndex)
    requires WellFormed(g)
    ensures Descendants(g, n) == PreForest(g, ChildrenOf(g, n))
    ensures n.Branch? && n.idx in g.arena ==> Pre(g, n.idx) == [n.idx] + Descendants(g, n)
  {
    WalkIsPreorder(g, FirstChildOf(g, n));
  }

  /** A node is never among its own descendants, and a leaf has none. */
  lemma StartNotDescendant<T>(g: SceneGraph<T>, i: Idx)
    requires WellFormed(g) && i in g.arena
    ensures i !in Descendants(g, Branch(i))
    ensures g.arena[i].children.None? ==> Descendants(g, Branch(i)) == []
  {
  }

  /** The walk from a node in a walk is contained in it, counting multiplicity. */
  lemma {:induction false} SubWalk<T>(g: SceneGraph<T>, link: Option<Idx>, s: Idx)
    requires WellFormed(g) && Resolves(g, link)
    requires s in Walk(g, link)
    ensures multiset(Walk(g, Some(s))) <= multiset(Walk(g, link))
    decreases Height(g, link)
  {
    var c := link.value;
    var node := g.arena[c];
    if s != c {
      if s in Walk(g, First(node.children)) {
        SubWalk(g, First(node.children), s);
      } else {
        SubWalk(g, node.nextSibling, s);
      }
    }
  }

  /**
   * In a tree, every slot met in the walk from a link is named by that link
   * or by a link whose owner is met in the same walk.
   */
  lemma {:induction false} LinkInsideWalk<T>(g: SceneGraph<T>, s: LinkSource, x: Idx) returns (into: LinkSource)
    requires IsTree(g) && x in Walk(g, Target(g, s))
    ensures Target(g, into) == Some(x)
    ensures into == s || (!into.RootFirst? && into.owner in Walk(g, Target(g, s)))
    decreases Height(g, Target(g, s))
  {
    var c := Target(g, s).value;
    var node := g.arena[c];
    assert Walk(g, Target(g, s)) == [c] + Walk(g, Target(g, FirstOf(c))) + Walk(g, Target(g, NextOf(c)));
    if x == c {
      into := s;
    } else if x in Walk(g, Target(g, FirstOf(c))) {
      into := LinkInsideWalk(g, FirstOf(c), x);
    } else {
      into := LinkInsideWalk(g, NextOf(c), x);
    }
  }

  /** In a tree, the only link naming a slot met in a walk is inside that walk. */
  lemma OnlyLinkInsideWalk<T>(g: SceneGraph<T>, s: LinkSource, x: Idx, other: LinkSource)
    requires IsTree(g) && x in Walk(g, Target(g, s)) && Target(g, other) == Some(x)
    ensures other == s || (!other.RootFirst? && other.owner in Walk(g, Target(g, s)))
  {
    var into := LinkInsideWalk(g, s, x);
    assert into == other;
  }

  /** In a tree, a node's subtree and the subtrees of its later siblings share no slot. */
  lemma {:induction false} SubtreeApartFromSiblings<T>(g: SceneGraph<T>, c: Idx, x: Idx)
    requires IsTree(g) && c in g.arena && x in Walk(g, Target(g, FirstOf(c)))
    ensures x !in Walk(g, Target(g, NextOf(c)))
    decreases Rank(g)[c] - Rank(g)[x]
  {
    var inner := Walk(g, Target(g, FirstOf(c)));
    var outer := Walk(g, Target(g, NextOf(c)));
    if x in outer {
      var into := LinkInsideWalk(g, FirstOf(c), x);
      OnlyLinkInsideWalk(g, NextOf(c), x, into);
      if into == FirstOf(c) {
        assert false;
      } else if into == NextOf(c) {
        assert false;
      } else {
        SubtreeApartFromSiblings(g, c, into.owner);
      }
    }
  }

  /** A head, a middle and a tail, each duplicate-free and pairwise apart, join without duplicates. */
  lemma NoDupJoin(c: Idx, inner: seq<Idx>, outer: seq<Idx>)
    requires NoDup(inner) && NoDup(outer) && c !in inner && c !in outer
    requires forall x :: x in inner ==> x !in outer
    ensures NoDup([c] + (inner + outer))
  {
    var all := [c] + (inner + outer);
    assert multiset(all) == multiset([c]) + multiset(inner) + multiset(outer);
    forall x ensures multiset(all)[x] <= 1 {
      if x in inner {
        assert multiset(outer)[x] == 0;
      }
    }
  }

  /** A walk whose two sub-walks are duplicate-free is duplicate-free in a tree. */
  lemma WalkOnceStep<T>(g: SceneGraph<T>, s: LinkSource)
    requires IsTree(g) && Target(g, s).Some?
    requires NoDup(Walk(g, Target(g, FirstOf(Target(g, s).value))))
    requires NoDup(Walk(g, Target(g, NextOf(Target(g, s).value))))
    ensures NoDup(Walk(g, Target(g, s)))
  {
    var c := Target(g, s).value;
    var inner := Walk(g, Target(g, FirstOf(c)));
    var outer := Walk(g, Target(g, NextOf(c)));
    forall x | x in inner ensures x !in outer {
      SubtreeApartFromSiblings(g, c, x);
    }
    assert Walk(g, Target(g, s)) == [c] + (inner + outer);
    NoDupJoin(c, inner, outer);
  }

  /** In a tree, the walk from any link lists every slot at most once. */
  lemma {:induction false} WalkOnce<T>(g: SceneGraph<T>, s: LinkSource)
    requires IsTree(g)
    ensures NoDup(Walk(g, Target(g, s)))
    decreases Height(g, Target(g, s))
  {
    if Target(g, s).Some? {
      var c := Target(g, s).value;
      WalkOnce(g, FirstOf(c));
      WalkOnce(g, NextOf(c));
      WalkOnceStep(g, s);
    }
  }

  /** In a tree, a traversal from the root or from any node lists every descendant exactly once. */
  lemma DescendantsOnce<T>(g: SceneGraph<T>, n: NodeIndex)
    requires IsTree(g)
    ensures forall x :: x in Descendants(g, n) ==> multiset(Descendants(g, n))[x] == 1
  {
    var s := if n.Root? then RootFirst else FirstOf(n.idx);
    assert Descendants(g, n) == Walk(g, Target(g, s));
    WalkOnce(g, s);
  }

  /** Regrouping a four-part concatenation, front first. */
  lemma Regroup<X>(a: seq<X>, b: seq<X>, c: seq<X>, d: seq<X>)
    ensures a + b + c + d == a + (b + (c + d))
  {
  }
}
