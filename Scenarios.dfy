/**
 * The trees built by the source's tests, written out directly as arenas
 * (attachment appends at the tail of a child list, so sibling order is
 * attachment order), with what each traversal yields on them.
 */
module Scenarios {
  import opened Tree
  import opened PrunedOrder
  import IterWithIndex
  import IterMutPredicate

  /** A root with no children. */
  function EmptyGraph(): SceneGraph<string>
  {
    SceneGraph("Root", None, map[])
  }

  /** Root -> "First Child". */
  function SingleGraph(): SceneGraph<string>
  {
    SceneGraph("Root", Some(ChildRange(0, 0)), map[0 := Node("First Child", None, None)])
  }

  /** Root -> "First Child", "Second Child"; "Second Child" -> "First Grandchild". */
  function NormalGraph(): SceneGraph<string>
  {
    SceneGraph("Root", Some(ChildRange(0, 1)), map[
      0 := Node("First Child", None, Some(1)),
      1 := Node("Second Child", Some(ChildRange(2, 2)), None),
      2 := Node("First Grandchild", None, None)])
  }

  /** Root -> "First Child" -> "Second Child". */
  function StaggerGraph(): SceneGraph<string>
  {
    SceneGraph("Root", Some(ChildRange(0, 0)), map[
      0 := Node("First Child", Some(ChildRange(1, 1)), None),
      1 := Node("Second Child", None, None)])
  }

  /** Root -> "First Child" -> "Child 1-1", "Child 1-2". */
  function StaggerBranchGraph(): SceneGraph<string>
  {
    SceneGraph("Root", Some(ChildRange(0, 0)), map[
      0 := Node("First Child", Some(ChildRange(1, 2)), None),
      1 := Node("Child 1-1", None, Some(2)),
      2 := Node("Child 1-2", None, None)])
  }

  datatype ConditionalNode = ConditionalNode(name: string, condition: bool)

  function Condition(node: ConditionalNode): bool
  {
    node.condition
  }

  /** Rejected root -> "Child 1". */
  function RejectedRootGraph(): SceneGraph<ConditionalNode>
  {
    SceneGraph(ConditionalNode("Root", false), Some(ChildRange(0, 0)), map[
      0 := Node(ConditionalNode("Child 1", true), None, None)])
  }

  /**
   * Root -> "Child 1", "Child 2" (rejected), "Child 3";
   * "Child 1" -> "Child of child 1"; "Child 2" -> "Child of child 2".
   */
  function ConditionalGraph(rootCondition: bool): SceneGraph<ConditionalNode>
  {
    SceneGraph(ConditionalNode("Root", rootCondition), Some(ChildRange(0, 2)), map[
      0 := Node(ConditionalNode("Child 1", true), Some(ChildRange(3, 3)), Some(1)),
      1 := Node(ConditionalNode("Child 2", false), Some(ChildRange(4, 4)), Some(2)),
      2 := Node(ConditionalNode("Child 3", true), None, None),
      3 := Node(ConditionalNode("Child of child 1", true), None, None),
      4 := Node(ConditionalNode("Child of child 2", true), None, None)])
  }

  /** The test trees are well formed, one lemma per tree. */
  lemma EmptyWellFormed()
    ensures WellFormed(EmptyGraph())
  {
    assert Ranked(EmptyGraph().arena, map[]);
  }

  lemma SingleWellFormed()
    ensures WellFormed(SingleGraph())
  {
    assert Ranked(SingleGraph().arena, map[0 := 0]);
  }

  lemma RejectedRootWellFormed()
    ensures WellFormed(RejectedRootGraph())
  {
    assert Ranked(RejectedRootGraph().arena, map[0 := 0]);
  }

  lemma NormalWellFormed()
    ensures WellFormed(NormalGraph())
  {
    var g := NormalGraph();
    var rank := map[0 := 2, 1 := 1, 2 := 0];
    assert g.arena.Keys == {0, 1, 2};
    assert Ranked(g.arena, rank) by {
      forall i | i in g.arena
        ensures i in rank && LinkBelow(g.arena, rank, First(g.arena[i].children), rank[i]) &&
                LinkBelow(g.arena, rank, g.arena[i].nextSibling, rank[i])
      {
        assert i == 0 || i == 1 || i == 2;
      }
    }
  }

  lemma StaggerWellFormed()
    ensures WellFormed(StaggerGraph())
  {
    var g := StaggerGraph();
    var rank := map[0 := 1, 1 := 0];
    assert g.arena.Keys == {0, 1};
    assert Ranked(g.arena, rank) by {
      forall i | i in g.arena
        ensures i in rank && LinkBelow(g.arena, rank, First(g.arena[i].children), rank[i]) &&
                LinkBelow(g.arena, rank, g.arena[i].nextSibling, rank[i])
      {
        assert i == 0 || i == 1;
      }
    }
  }

  lemma StaggerBranchWellFormed()
    ensures WellFormed(StaggerBranchGraph())
  {
    var g := StaggerBranchGraph();
    var rank := map[0 := 2, 1 := 1, 2 := 0];
    assert g.arena.Keys == {0, 1, 2};
    assert Ranked(g.arena, rank) by {
      forall i | i in g.arena
        ensures i in rank && LinkBelow(g.arena, rank, First(g.arena[i].children), rank[i]) &&
                LinkBelow(g.arena, rank, g.arena[i].nextSibling, rank[i])
      {
        assert i == 0 || i == 1 || i == 2;
      }
    }
  }

  lemma ConditionalWellFormed(rootCondition: bool)
    ensures WellFormed(ConditionalGraph(rootCondition))
  {
    var g := ConditionalGraph(rootCondition);
    var rank := map[0 := 3, 1 := 2, 2 := 0, 3 := 0, 4 := 0];
    assert g.arena.Keys == {0, 1, 2, 3, 4};
    assert Ranked(g.arena, rank) by {
      forall i | i in g.arena
        ensures i in rank && LinkBelow(g.arena, rank, First(g.arena[i].children), rank[i]) &&
                LinkBelow(g.arena, rank, g.arena[i].nextSibling, rank[i])
      {
        assert i == 0 || i == 1 || i == 2 || i == 3 || i == 4;
      }
    }
  }

  /** The read walk of an empty tree yields nothing from the root; a leaf yields nothing from itself. */
  lemma EmptyIteration()
    ensures WellFormed(EmptyGraph()) && Descendants(EmptyGraph(), Root) == []
    ensures WellFormed(SingleGraph()) && Descendants(SingleGraph(), Branch(0)) == []
  {
    EmptyWellFormed();
    SingleWellFormed();
  }

  /** The predicate walk of an empty tree yields nothing. */
  lemma EmptyVisit()
    ensures WellFormed(EmptyGraph()) && PrunedFromRoot(EmptyGraph(), (s: string) => true) == []
  {
    EmptyWellFormed();
  }

  /** The read walk yields siblings in attachment order, each followed by its own subtree. */
  lemma NormalIteration()
    ensures WellFormed(NormalGraph()) && Descendants(NormalGraph(), Root) == [0, 1, 2]
  {
    NormalWellFormed();
    var g := NormalGraph();
    assert Walk(g, Some(2)) == [2];
    assert Walk(g, Some(1)) == [1, 2];
  }

  /** The predicate walk with an always-true predicate visits the same nodes in the same order. */
  lemma NormalVisit()
    ensures WellFormed(NormalGraph()) && Candidates(PrunedFromRoot(NormalGraph(), (s: string) => true)) == [0, 1, 2]
  {
    NormalIteration();
    AlwaysTrueMatchesWalk(NormalGraph(), (s: string) => true, Root, Some(0));
  }

  /** The read walk goes down a chain of single children. */
  lemma StaggerIteration()
    ensures WellFormed(StaggerGraph()) && Descendants(StaggerGraph(), Root) == [0, 1]
  {
    StaggerWellFormed();
    var g := StaggerGraph();
    assert Walk(g, Some(1)) == [1];
  }

  /** So does the predicate walk with an always-true predicate. */
  lemma StaggerVisit()
    ensures WellFormed(StaggerGraph()) && Candidates(PrunedFromRoot(StaggerGraph(), (s: string) => true)) == [0, 1]
  {
    StaggerIteration();
    AlwaysTrueMatchesWalk(StaggerGraph(), (s: string) => true, Root, Some(0));
  }

  /** Starting at a branch yields its children and not the branch itself. */
  lemma StaggerIterationFromBranch()
    ensures WellFormed(StaggerBranchGraph()) && Descendants(StaggerBranchGraph(), Branch(0)) == [1, 2]
  {
    StaggerBranchWellFormed();
    var g := StaggerBranchGraph();
    assert Walk(g, Some(2)) == [2];
    assert Walk(g, Some(1)) == [1, 2];
  }

  /** The read walk of a single child yields that child only. */
  lemma SingleIteration()
    ensures WellFormed(SingleGraph()) && Descendants(SingleGraph(), Root) == [0]
  {
    SingleWellFormed();
  }

  /** The predicate walk of a single child yields that child only, with the root as its parent. */
  lemma SingleVisit()
    ensures WellFormed(SingleGraph()) && PrunedFromRoot(SingleGraph(), (s: string) => true) == [Visit(Root, 0)]
  {
    SingleWellFormed();
  }

  /** A rejected root yields nothing, although its child would be admitted. */
  lemma VisitsNoneWhenRootDoesNotMatch()
    ensures WellFormed(RejectedRootGraph()) && PrunedFromRoot(RejectedRootGraph(), Condition) == []
  {
    RejectedRootWellFormed();
  }

  /** "Child 2" is rejected, so its admitted child is pruned with it; "Child 3" is still visited. */
  lemma VisitsOnlyMatchingNodes()
    ensures WellFormed(ConditionalGraph(true))
    ensures PrunedFromRoot(ConditionalGraph(true), Condition) == [Visit(Root, 0), Visit(Branch(0), 3), Visit(Root, 2)]
  {
    var g := ConditionalGraph(true);
    ConditionalWellFormed(true);
    var third := Pruned(g, Condition, Root, Some(2));
    var second := Pruned(g, Condition, Root, Some(1));
    var grandchild := Pruned(g, Condition, Branch(0), Some(3));
    assert third == [Visit(Root, 2)];
    assert second == third;
    assert grandchild == [Visit(Branch(0), 3)];
    assert Pruned(g, Condition, Root, Some(0)) == [Visit(Root, 0)] + grandchild + second;
  }

  /**
   * Drains the read iterator, as collecting it into a vector does: the items
   * are the identifiers it had still to yield, each with its arena value.
   */
  method CollectWithIndex<T>(iter: IterWithIndex.SceneGraphIterWithIndex<T>) returns (items: seq<(NodeIndex, T)>)
    requires iter.Valid()
    modifies iter
    ensures iter.Valid() && iter.Remaining() == []
    ensures |items| == |old(iter.Remaining())|
    ensures forall k :: 0 <= k < |items| ==>
      items[k].0 == Branch(old(iter.Remaining())[k]) && items[k].0.idx in iter.sg.arena &&
      items[k].1 == iter.sg.arena[items[k].0.idx].value
  {
    ghost var all := iter.Remaining();
    ghost var taken: seq<Idx> := [];
    items := [];
    while true
      invariant iter.Valid()
      invariant taken + iter.Remaining() == all && |taken| == |items|
      invariant forall k :: 0 <= k < |items| ==>
        items[k].0 == Branch(taken[k]) && items[k].0.idx in iter.sg.arena &&
        items[k].1 == iter.sg.arena[items[k].0.idx].value
      decreases |iter.Remaining()|
    {
      var item := iter.Next();
      if item.None? {
        assert taken == all;
        return;
      }
      taken := taken + [item.value.0.idx];
      items := items + [item.value];
    }
  }

  /** Drains the predicate iterator: the visits are exactly those it had still to yield. */
  method CollectVisits<T>(iter: IterMutPredicate.SceneGraphIterMutPredicate<T>) returns (visits: seq<Visit>)
    requires iter.Valid()
    modifies iter
    ensures iter.Valid() && iter.Remaining() == []
    ensures visits == old(iter.Remaining())
  {
    ghost var all := iter.Remaining();
    visits := [];
    while true
      invariant iter.Valid()
      invariant visits + iter.Remaining() == all
      decreases |iter.Remaining()|
    {
      ghost var before := iter.Remaining();
      var item := iter.Next();
      if item.None? {
        assert visits == all;
        return;
      }
      ghost var after := iter.Remaining();
      assert before == [item.value] + after;
      assert visits + [item.value] + after == visits + before;
      visits := visits + [item.value];
    }
  }

  /** The read iterator over the normal tree, collected. */
  method NormalIterationDriver() returns (items: seq<(NodeIndex, string)>)
    ensures items == [(Branch(0), "First Child"), (Branch(1), "Second Child"), (Branch(2), "First Grandchild")]
  {
    var g := NormalGraph();
    NormalIteration();
    var r := IterWithIndex.IterFromNodeWithIndex(g, Root);
    items := CollectWithIndex(r.iter);
    assert |items| == 3;
    assert items[0] == (Branch(0), "First Child");
    assert items[1] == (Branch(1), "Second Child");
    assert items[2] == (Branch(2), "First Grandchild");
  }

  /** The names the predicate iterator yields over the conditional tree, collected. */
  method VisitsOnlyMatchingNodesDriver() returns (names: seq<string>)
    ensures names == ["Child 1", "Child of child 1", "Child 3"]
  {
    var g := ConditionalGraph(true);
    VisitsOnlyMatchingNodes();
    var iter := new IterMutPredicate.SceneGraphIterMutPredicate(g, Root, Condition);
    assert iter.Remaining() == [Visit(Root, 0), Visit(Branch(0), 3), Visit(Root, 2)];
    var visits := CollectVisits(iter);
    names := ChildNames(g, visits);
  }

  /** The name of each visited child, in order. */
  function ChildNames(g: SceneGraph<ConditionalNode>, visits: seq<Visit>): (names: seq<string>)
    requires forall k :: 0 <= k < |visits| ==> visits[k].child in g.arena
    ensures |names| == |visits|
    ensures forall k :: 0 <= k < |visits| ==> names[k] == g.arena[visits[k].child].value.name
  {
    if visits == [] then [] else [g.arena[visits[0].child].value.name] + ChildNames(g, visits[1..])
  }
}
