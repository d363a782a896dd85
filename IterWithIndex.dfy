/**
 * The read iterator: a depth-first preorder walk over the proper descendants
 * of a start node, yielding each node's identifier with its value.
 *
 * The pending work is an explicit stack of frames, its top at the end of the
 * sequence. Each call pops one frame, pushes the popped node's next sibling
 * and then its first child (so the child is popped first), and yields the
 * popped node.
 */
module IterWithIndex {
  import opened Tree

  /** A pending frame: a branch identifier and the node record it names. */
  datatype StackState<T> = StackState(currentChildIndex: NodeIndex, currentChild: Node<T>)

  /** The frame is a `Branch` whose arena entry is the frame's node. */
  ghost predicate FrameResolves<T>(g: SceneGraph<T>, frame: StackState<T>)
  {
    frame.currentChildIndex.Branch? &&
    frame.currentChildIndex.idx in g.arena &&
    g.arena[frame.currentChildIndex.idx] == frame.currentChild
  }

  ghost predicate FramesResolve<T>(g: SceneGraph<T>, stacks: seq<StackState<T>>)
  {
    forall k :: 0 <= k < |stacks| ==> FrameResolves(g, stacks[k])
  }

  /** What the frames still yield: each frame's walk, the top frame's first. */
  ghost function Pending<T>(g: SceneGraph<T>, stacks: seq<StackState<T>>): seq<Idx>
    requires WellFormed(g) && FramesResolve(g, stacks)
  {
    if stacks == [] then []
    else
      var top := stacks[|stacks| - 1];
      assert FrameResolves(g, top);
      Walk(g, Some(top.currentChildIndex.idx)) + Pending(g, stacks[..|stacks| - 1])
  }

  /** Pushing a frame puts its walk in front of what was pending. */
  lemma PendingPush<T>(g: SceneGraph<T>, stacks: seq<StackState<T>>, frame: StackState<T>)
    requires WellFormed(g) && FramesResolve(g, stacks) && FrameResolves(g, frame)
    ensures FramesResolve(g, stacks + [frame])
    ensures Pending(g, stacks + [frame]) == Walk(g, Some(frame.currentChildIndex.idx)) + Pending(g, stacks)
  {
    assert (stacks + [frame])[..|stacks|] == stacks;
  }

  /** The frame for `link`, if there is one. */
  function FrameFor<T>(g: SceneGraph<T>, link: Option<Idx>): seq<StackState<T>>
    requires link.Some? ==> link.value in g.arena
  {
    if link.Some? then [StackState(Branch(link.value), g.arena[link.value])] else []
  }

  class SceneGraphIterWithIndex<T> {
    const sg: SceneGraph<T>
    var stacks: seq<StackState<T>>

    ghost predicate Valid()
      reads this
    {
      WellFormed(sg) && FramesResolve(sg, stacks)
    }

    /** The identifiers this iterator will still yield, in order. */
    ghost function Remaining(): seq<Idx>
      reads this
      requires Valid()
    {
      Pending(sg, stacks)
    }

    /**
     * Starts the walk at the first entry of `rootChildren`: one frame if the
     * range is present, none otherwise. The start node itself is never
     * yielded, so `rootIndex` plays no part in the walk.
     */
    constructor (sg: SceneGraph<T>, rootIndex: NodeIndex, rootChildren: Option<ChildRange>)
      requires WellFormed(sg) && Resolves(sg, First(rootChildren))
      ensures Valid() && this.sg == sg
      ensures stacks == FrameFor(sg, First(rootChildren))
      ensures Remaining() == Walk(sg, First(rootChildren))
    {
      this.sg := sg;
      var stacks := [];
      if rootChildren.Some? {
        var firstChild := rootChildren.value.first;
        stacks := stacks + [StackState(Branch(firstChild), sg.arena[firstChild])];
        PendingPush(sg, [], stacks[0]);
      }
      this.stacks := stacks;
    }

    /**
     * Yields nothing exactly when the stack is empty; otherwise pops the top
     * frame, pushes its sibling frame and then its first-child frame, and
     * yields the popped node's identifier and value, which is the head of what
     * remained to be yielded.
     */
    method Next() returns (item: Option<(NodeIndex, T)>)
      requires Valid()
      modifies this
      ensures Valid()
      ensures item.None? <==> old(stacks) == []
      ensures item.None? ==> stacks == old(stacks)
      ensures item.Some? ==>
        var top := old(stacks)[|old(stacks)| - 1];
        var node := top.currentChild;
        stacks == old(stacks)[..|old(stacks)| - 1] + FrameFor(sg, node.nextSibling) + FrameFor(sg, First(node.children)) &&
        item.value.0 == top.currentChildIndex && item.value.1 == node.value
      ensures item.Some? ==>
        item.value.0.Branch? && item.value.0.idx in sg.arena &&
        item.value.1 == sg.arena[item.value.0.idx].value &&
        old(Remaining()) == [item.value.0.idx] + Remaining()
    {
      if stacks == [] {
        return None;
      }
      var frame := stacks[|stacks| - 1];
      stacks := stacks[..|stacks| - 1];
      ghost var rest := stacks;
      if frame.currentChild.nextSibling.Some? {
        var nextSibling := frame.currentChild.nextSibling.value;
        stacks := stacks + [StackState(Branch(nextSibling), sg.arena[nextSibling])];
      }
      if frame.currentChild.children.Some? {
        var firstChild := frame.currentChild.children.value.first;
        stacks := stacks + [StackState(Branch(firstChild), sg.arena[firstChild])];
      }
      PushesExpandFrame(sg, rest, stacks, frame);
      item := Some((frame.currentChildIndex, frame.currentChild.value));
    }
  }

  /** Pushing the frame for a link, if any, puts that link's walk in front of what was pending. */
  lemma PendingPushLink<T>(g: SceneGraph<T>, stacks: seq<StackState<T>>, link: Option<Idx>)
    requires WellFormed(g) && FramesResolve(g, stacks) && Resolves(g, link)
    ensures FramesResolve(g, stacks + FrameFor(g, link))
    ensures Pending(g, stacks + FrameFor(g, link)) == Walk(g, link) + Pending(g, stacks)
  {
    if link.Some? {
      PendingPush(g, stacks, StackState(Branch(link.value), g.arena[link.value]));
    } else {
      assert stacks + FrameFor(g, link) == stacks;
    }
  }

  /**
   * Popping `frame` and pushing its sibling frame, then its first-child frame,
   * leaves exactly the frame's walk minus its own node to be yielded.
   */
  lemma PushesExpandFrame<T>(g: SceneGraph<T>, rest: seq<StackState<T>>, after: seq<StackState<T>>, frame: StackState<T>)
    requires WellFormed(g) && FrameResolves(g, frame) && FramesResolve(g, rest)
    requires after == rest + FrameFor(g, frame.currentChild.nextSibling) + FrameFor(g, First(frame.currentChild.children))
    ensures FramesResolve(g, after)
    ensures Pending(g, rest + [frame]) == [frame.currentChildIndex.idx] + Pending(g, after)
  {
    var node := frame.currentChild;
    var i := frame.currentChildIndex.idx;
    var withSibling := rest + FrameFor(g, node.nextSibling);
    assert Pending(g, rest + [frame]) ==
           [i] + Walk(g, First(node.children)) + Walk(g, node.nextSibling) + Pending(g, rest) by {
      PendingPush(g, rest, frame);
    }
    assert FramesResolve(g, withSibling) && Pending(g, withSibling) == Walk(g, node.nextSibling) + Pending(g, rest) by {
      PendingPushLink(g, rest, node.nextSibling);
    }
    assert FramesResolve(g, after) && Pending(g, after) == Walk(g, First(node.children)) + Pending(g, withSibling) by {
      PendingPushLink(g, withSibling, First(node.children));
    }
    Regroup([i], Walk(g, First(node.children)), Walk(g, node.nextSibling), Pending(g, rest));
  }

  /** The `NodeNotFound` outcome of starting a walk from a stale `Branch`. */
  datatype IterResult<T> = Found(iter: SceneGraphIterWithIndex<T>) | NodeNotFound

  /**
   * Starts a read walk from `start`: fails for a `Branch` that does not
   * resolve; otherwise the iterator will yield exactly the proper
   * descendants of `start`, in preorder.
   */
  method IterFromNodeWithIndex<T>(sg: SceneGraph<T>, start: NodeIndex) returns (r: IterResult<T>)
    requires WellFormed(sg)
    ensures r.NodeNotFound? <==> start.Branch? && start.idx !in sg.arena
    ensures r.Found? ==> fresh(r.iter) && r.iter.Valid() && r.iter.sg == sg
    ensures r.Found? ==> r.iter.Remaining() == Descendants(sg, start)
  {
    match start
    case Root =>
      var iter := new SceneGraphIterWithIndex(sg, start, sg.rootChildren);
      r := Found(iter);
    case Branch(i) =>
      if i !in sg.arena {
        return NodeNotFound;
      }
      var iter := new SceneGraphIterWithIndex(sg, start, sg.arena[i].children);
      r := Found(iter);
  }
}
