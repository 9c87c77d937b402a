/** The walks over a thread's frames and the operations built on them (pycore_retrace.h:369-383;
    retracemodule.c:794-859). The frame chain is the control stack read downwards. */
module CoordinateWalks {
  import opened CoordinateMachine
  import opened CoordinateThread
  import opened SlotDiscipline
  import opened SpaceRing

  /** Every frame of the control stack is visible, in the space the stack says. */
  ghost predicate Walkable(t: Thread)
    reads t, t.frames.Values
  {
    forall i :: 0 <= i < |t.stack| && t.stack[i].Fr? ==> Visible(t, t.stack[i])
  }

  ghost predicate Visible(t: Thread, item: Item)
    requires item.Fr?
    reads t, t.frames.Values
  {
    && item.frame in t.frames && t.frames[item.frame].space != null
    && Owned(t.nodes, t.frames[item.frame].space) && t.frames[item.frame].space.id == item.space
  }

  lemma {:induction false} PlacesOnStack(frames: map<FrameId, FrameRec>, stack: seq<Item>, base: SpaceId)
    requires StackOk(frames, stack, base)
    ensures forall i :: 0 <= i < |stack| && stack[i].Fr? ==>
              stack[i].frame in frames && frames[stack[i].frame].place == In(stack[i].space)
  {
    if stack != [] {
      PlacesOnStack(frames, Below(stack), base);
      assert forall i :: 0 <= i < |stack| - 1 ==> stack[i] == Below(stack)[i];
    }
  }

  /** In every reachable state the stack can be walked. */
  lemma {:induction false} InvWalkable(t: Thread)
    requires t.Valid() && Inv(t.View())
    ensures Walkable(t)
  {
    PlacesOnStack(t.View().frames, t.stack, t.base);
    forall i | 0 <= i < |t.stack| && t.stack[i].Fr?
      ensures Visible(t, t.stack[i])
    {
      var f := t.stack[i].frame;
      assert f in t.View().frames && t.View().frames[f] == RecOf(t.nodes, t.frames[f]);
    }
  }

  /** The nearest visible frame of a space, from the current frame down. */
  method NearestVisibleFrameInSpace(t: Thread, space: SpaceNode) returns (fr: Frame?)
    requires t.Valid() && Walkable(t) && Owned(t.nodes, space)
    ensures fr == null ==> Nearest(t.stack, space.id) == NoSlot
    ensures fr != null ==> t.Known(fr) && Nearest(t.stack, space.id) == FrameSlot(fr.id)
  {
    var i: nat := |t.stack|;
    assert t.stack[..i] == t.stack;
    while i > 0
      invariant i <= |t.stack| && Nearest(t.stack, space.id) == Nearest(t.stack[..i], space.id)
    {
      i := i - 1;
      assert Top(t.stack[..i + 1]) == t.stack[i] && Below(t.stack[..i + 1]) == t.stack[..i];
      match t.stack[i]
      case Fr(f, _, _) =>
        assert Visible(t, t.stack[i]);
        if t.frames[f].space == space {
          return t.frames[f];
        }
      case Sc(_) =>
    }
    return null;
  }

  method EnterSpace(t: Thread, id: SpaceId)
    requires t.Valid() && Walkable(t)
    modifies t
    ensures t.Valid() && t.View() == Enter(old(t.View()), id)
    ensures fresh(t.repr - old(t.repr)) && old(t.repr) <= t.repr && t.frames == old(t.frames)
  {
    EnterKnown(t.View(), id);
    var node := t.GetThreadSpace(id);
    assert forall i :: 0 <= i < |t.stack| && t.stack[i].Fr? ==> Visible(t, t.stack[i]);
    OpenScope(t, node);
  }

  lemma {:induction false} EnterKnown(s: State, space: SpaceId)
    ensures Enter(GetSpace(s, space), space) == Enter(s, space)
  {
  }

  /** Opens a scope on a space that is already in the list. */
  method OpenScope(t: Thread, node: SpaceNode)
    requires t.Valid() && Walkable(t) && Owned(t.nodes, node)
    modifies t`stack, t`current, t`slot
    ensures t.Valid() && t.View() == Enter(old(t.View()), node.id)
  {
    var parent := NearestVisibleFrameInSpace(t, node);
    assert t.View().spaces[node.id] == node.Record();
    var height: nat := |t.stack|;
    if parent == null {
      t.SetStack(t.stack + [Sc(Scope(t.current.id, t.slot, node.id, node.root, node.root, true))]);
      t.SetCurrent(node, LocalSlot(height));
    } else {
      t.SetStack(t.stack + [Sc(Scope(t.current.id, t.slot, node.id, 0, 0, false))]);
      t.SetCurrent(node, FrameSlot(parent.id));
    }
  }

  method LeaveSpace(t: Thread)
    requires t.Valid() && t.stack != [] && Top(t.stack).Sc?
    requires Top(t.stack).scope.prevSpace in t.nodes
    modifies t`stack, t`current, t`slot, t.nodes.Values`root
    ensures t.Valid() && t.View() == Exit(old(t.View()))
  {
    var scope := t.stack[|t.stack| - 1].scope;
    if scope.useLocal && scope.space in t.nodes {
      var local := scope.local;
      if local == scope.initial {
        local := local + 1;
      }
      t.SetRoot(t.nodes[scope.space], local);
    }
    t.SetStack(t.stack[..|t.stack| - 1]);
    t.SetCurrent(t.nodes[scope.prevSpace], scope.prevSlot);
  }
}
