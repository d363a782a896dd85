/**
 * The mutable predicate iterator: a preorder walk from a start node that
 * yields, for every admitted node, the pair (its parent, itself) as two
 * locations the caller may mutate at once. A node failing the predicate is
 * skipped together with its whole subtree, its later siblings still being
 * visited; a root failing the predicate empties the whole walk.
 *
 * Frames hold (parent identifier, candidate slot); the top of the stack is
 * the end of the sequence. Values are read from a graph that stays fixed for
 * the iterator's lifetime.
 */
module IterMutPredicate {
  import opened Tree
  import opened PrunedOrder

  datatype StackState = StackState(parent: NodeIndex, currentChild: Idx)

  /** The frame's candidate is one of its parent's children. */
  ghost predicate FrameOk<T>(g: SceneGraph<T>, frame: StackState)
    requires WellFormed(g)
  {
    frame.currentChild in ChildrenOf(g, frame.parent)
  }

  ghost predicate FramesOk<T>(g: SceneGraph<T>, stacks: seq<StackState>)
    requires WellFormed(g)
  {
    forall k :: 0 <= k < |stacks| ==> FrameOk(g, stacks[k])
  }

  /**
   * A frame's parent is either the root or a live arena node different from
   * the candidate: exactly what the paired mutable lookup of the arena needs.
   */
  lemma ParentDisjoint<T>(g: SceneGraph<T>, frame: StackState)
    requires WellFormed(g) && FrameOk(g, frame)
    ensures frame.currentChild in g.arena
    ensures frame.parent.Branch? ==> frame.parent.idx in g.arena && frame.parent.idx != frame.currentChild
  {
  }

  /** What the frames still yield: each frame's pruned walk, the top frame's first. */
  ghost function Pending<T>(g: SceneGraph<T>, pred: T -> bool, stacks: seq<StackState>): seq<Visit>
    requires WellFormed(g) && FramesOk(g, stacks)
  {
    if stacks == [] then []
    else
      var top := stacks[|stacks| - 1];
      assert FrameOk(g, top);
      Pruned(g, pred, top.parent, Some(top.currentChild)) + Pending(g, pred, stacks[..|stacks| - 1])
  }

  /** An upper bound on the frames still to be popped: the sizes of the frames' unpruned walks. */
  ghost function Work<T>(g: SceneGraph<T>, stacks: seq<StackState>): nat
    requires WellFormed(g) && FramesOk(g, stacks)
  {
    if stacks == [] then 0
    else
      var top := stacks[|stacks| - 1];
      assert FrameOk(g, top);
      |Walk(g, Some(top.currentChild))| + Work(g, stacks[..|stacks| - 1])
  }

  /** The frame for `link` under `parent`, if there is one. */
  function FrameFor(parent: NodeIndex, link: Option<Idx>): seq<StackState>
  {
    if link.Some? then [StackState(parent, link.value)] else []
  }

  /** Pushing the frame for a link, if any, puts that link's pruned walk in front of what was pending. */
  lemma PendingPushLink<T>(g: SceneGraph<T>, pred: T -> bool, stacks: seq<StackState>, parent: NodeIndex, link: Option<Idx>)
    requires WellFormed(g) && FramesOk(g, stacks)
    requires link.Some? ==> link.value in ChildrenOf(g, parent)
    ensures FramesOk(g, stacks + FrameFor(parent, link))
    ensures Pending(g, pred, stacks + FrameFor(parent, link)) == Pruned(g, pred, parent, link) + Pending(g, pred, stacks)
    ensures Work(g, stacks + FrameFor(parent, link)) == |Walk(g, link)| + Work(g, stacks)
  {
    var after := stacks + FrameFor(parent, link);
    if link.Some? {
      assert after[..|stacks|] == stacks;
    } else {
      assert after == stacks;
    }
  }

  /** A frame under a rejected root contributes nothing and is dropped. */
  lemma DropUnderRejectedRoot<T>(g: SceneGraph<T>, pred: T -> bool, rest: seq<StackState>, frame: StackState)
    requires WellFormed(g) && FramesOk(g, rest) && FrameOk(g, frame)
    requires frame.parent.Root? && !pred(g.root)
    ensures FramesOk(g, rest + [frame])
    ensures Pending(g, pred, rest + [frame]) == Pending(g, pred, rest)
    ensures Work(g, rest) < Work(g, rest + [frame])
  {
    PendingPushLink(g, pred, rest, frame.parent, Some(frame.currentChild));
  }

  /**
   * Under an admitted (or `Branch`) parent, popping a frame and pushing the
   * candidate's sibling frame under the same parent leaves the candidate's
   * own pair and subtree, if it is admitted, in front of what is pending.
   */
  lemma PushSibling<T>(g: SceneGraph<T>, pred: T -> bool, rest: seq<StackState>, frame: StackState)
    requires WellFormed(g) && FramesOk(g, rest) && FrameOk(g, frame)
    requires frame.parent.Root? ==> pred(g.root)
    ensures frame.currentChild in g.arena
    ensures
      var node := g.arena[frame.currentChild];
      var withSibling := rest + FrameFor(frame.parent, node.nextSibling);
      FramesOk(g, rest + [frame]) && FramesOk(g, withSibling) &&
      Work(g, withSibling) < Work(g, rest + [frame]) &&
      Pending(g, pred, rest + [frame]) ==
        if pred(node.value) then
          [Visit(frame.parent, frame.currentChild)] +
          (Pruned(g, pred, Branch(frame.currentChild), First(node.children)) + Pending(g, pred, withSibling))
        else Pending(g, pred, withSibling)
  {
    var c := frame.currentChild;
    var node := g.arena[c];
    PendingPushLink(g, pred, rest, frame.parent, Some(c));
    if node.nextSibling.Some? {
      ChainClosed(g, FirstChildOf(g, frame.parent), c);
    }
    PendingPushLink(g, pred, rest, frame.parent, node.nextSibling);
    if pred(node.value) {
      Regroup([Visit(frame.parent, c)], Pruned(g, pred, Branch(c), First(node.children)),
              Pruned(g, pred, frame.parent, node.nextSibling), Pending(g, pred, rest));
    }
  }

  /**
   * One whole step under an admitted (or `Branch`) parent: popping `frame`,
   * pushing the sibling frame and, for an admitted candidate, the first-child
   * frame leaves what was pending minus the candidate's own pair; a rejected
   * candidate leaves what the sibling frame and the rest yield.
   */
  lemma ExpandFrame<T>(g: SceneGraph<T>, pred: T -> bool, rest: seq<StackState>, frame: StackState)
    requires WellFormed(g) && FramesOk(g, rest) && FrameOk(g, frame)
    requires frame.parent.Root? ==> pred(g.root)
    ensures frame.currentChild in g.arena
    ensures
      var node := g.arena[frame.currentChild];
      var withSibling := rest + FrameFor(frame.parent, node.nextSibling);
      var after := withSibling + FrameFor(Branch(frame.currentChild), First(node.children));
      FramesOk(g, withSibling) && FramesOk(g, after) &&
      Work(g, withSibling) < Work(g, rest + [frame]) &&
      (pred(node.value) ==> Pending(g, pred, rest + [frame]) == [Visit(frame.parent, frame.currentChild)] + Pending(g, pred, after)) &&
      (!pred(node.value) ==> Pending(g, pred, rest + [frame]) == Pending(g, pred, withSibling))
  {
    var node := g.arena[frame.currentChild];
    var withSibling := rest + FrameFor(frame.parent, node.nextSibling);
    PushSibling(g, pred, rest, frame);
    PendingPushLink(g, pred, withSibling, Branch(frame.currentChild), First(node.children));
  }

  /**
   * The arena's paired mutable lookup: each slot is looked up on its own (a
   * stale slot gives none); the two slots must differ, since two mutable
   * references to one entry cannot be handed out.
   */
  function GetDisjoint<T>(arena: map<Idx, Node<T>>, a: Idx, b: Idx): (r: (Option<Node<T>>, Option<Node<T>>))
    requires a != b
    ensures r.0.Some? <==> a in arena
    ensures r.1.Some? <==> b in arena
    ensures r.0.Some? ==> r.0.value == arena[a]
    ensures r.1.Some? ==> r.1.value == arena[b]
  {
    (if a in arena then Some(arena[a]) else None, if b in arena then Some(arena[b]) else None)
  }

  class SceneGraphIterMutPredicate<T> {
    const sg: SceneGraph<T>
    const pred: T -> bool
    var stacks: seq<StackState>

    ghost predicate Valid()
      reads this
    {
      WellFormed(sg) && FramesOk(sg, stacks)
    }

    /** The pairs this iterator will still yield, in order. */
    ghost function Remaining(): seq<Visit>
      reads this
      requires Valid()
    {
      Pending(sg, pred, stacks)
    }

    /**
     * One frame (start, first child of start) if the start has children, and
     * none otherwise; a `Branch` start that does not resolve has no children.
     */
    constructor (sg: SceneGraph<T>, rootNodeIdx: NodeIndex, pred: T -> bool)
      requires WellFormed(sg)
      ensures Valid() && this.sg == sg && this.pred == pred
      ensures stacks == FrameFor(rootNodeIdx, FirstChildOf(sg, rootNodeIdx))
      ensures Remaining() == Pruned(sg, pred, rootNodeIdx, FirstChildOf(sg, rootNodeIdx))
    {
      this.sg := sg;
      this.pred := pred;
      var firstChild := FirstChildOf(sg, rootNodeIdx);
      var stacks := [];
      if firstChild.Some? {
        stacks := stacks + [StackState(rootNodeIdx, firstChild.value)];
      }
      PendingPushLink(sg, pred, [], rootNodeIdx, firstChild);
      this.stacks := stacks;
    }

    /**
     * The node of a popped frame's candidate: none when the parent is a
     * rejected root, so that the frame is dropped; otherwise the candidate's
     * arena entry, found through the paired lookup under a `Branch` parent.
     */
    method FrameNodes(frame: StackState) returns (child: Option<Node<T>>)
      requires WellFormed(sg) && FrameOk(sg, frame)
      ensures child.None? <==> frame.parent.Root? && !pred(sg.root)
      ensures child.Some? ==> frame.currentChild in sg.arena && child.value == sg.arena[frame.currentChild]
    {
      ParentDisjoint(sg, frame);
      match frame.parent {
        case Root =>
          if !pred(sg.root) {
            return None;
          }
          child := Some(sg.arena[frame.currentChild]);
        case Branch(idx) =>
          var (parentNode, currentChild) := GetDisjoint(sg.arena, idx, frame.currentChild);
          assert parentNode.Some? && currentChild.Some?;
          child := currentChild;
      }
    }

    /**
     * Pops frames until one yields: a frame under a rejected root is dropped;
     * otherwise the candidate's sibling frame is pushed first, a rejected
     * candidate is dropped, and an admitted one gets its first-child frame
     * pushed and is yielded with its parent. Yields nothing exactly when
     * nothing remained, leaving the stack empty.
     */
    method Next() returns (item: Option<Visit>)
      requires Valid()
      modifies this
      ensures Valid()
      ensures item.None? <==> old(Remaining()) == []
      ensures item.None? ==> stacks == []
      ensures item.Some? ==> old(Remaining()) == [item.value] + Remaining()
      ensures item.Some? ==>
        var v := item.value;
        v.child in ChildrenOf(sg, v.parent) && pred(sg.arena[v.child].value) &&
        (v.parent.Branch? ==> v.parent.idx != v.child) &&
        (v.parent.Root? ==> pred(sg.root))
    {
      while stacks != []
        invariant Valid()
        invariant Remaining() == old(Remaining())
        decreases Work(sg, stacks)
      {
        var frame := stacks[|stacks| - 1];
        assert stacks == stacks[..|stacks| - 1] + [frame];
        stacks := stacks[..|stacks| - 1];
        ghost var rest := stacks;
        assert FrameOk(sg, frame);
        var found := FrameNodes(frame);
        if found.None? {
          DropUnderRejectedRoot(sg, pred, rest, frame);
          continue;
        }
        var child := found.value;
        ExpandFrame(sg, pred, rest, frame);

        if child.nextSibling.Some? {
          stacks := stacks + [StackState(frame.parent, child.nextSibling.value)];
        }
        assert stacks == rest + FrameFor(frame.parent, child.nextSibling);

        if !pred(child.value) {
          continue;
        }

        ghost var withSibling := stacks;
        if child.children.Some? {
          stacks := stacks + [StackState(Branch(frame.currentChild), child.children.value.first)];
        }
        assert stacks == withSibling + FrameFor(Branch(frame.currentChild), First(child.children));
        return Some(Visit(frame.parent, frame.currentChild));
      }
      return None;
    }
  }
}
