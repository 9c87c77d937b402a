/** The interpreter drives the engine: each event of the machine is a short sequence of hooks, and any
    run of the machine is followed by the objects step for step. */
module CoordinateReplay {
  import opened CoordinateMachine
  import opened CoordinateQueries
  import opened CoordinateThread
  import opened CoordinateWalks
  import opened SlotDiscipline

  /** Links a frame into the chain and activates it. */
  method PushFrame(t: Thread, fr: Frame)
    requires t.Valid() && t.Known(fr)
    modifies t`slot, t`current, t`stack, fr, t.current`seen, t.current`depth
    ensures t.Valid() && t.View() == Push(old(t.View()), fr.id)
  {
    var items := t.stack + [Fr(fr.id, t.current.id, Entered)];
    t.ActivateFrame(fr);
    t.SetStack(items);
  }

  /** Unlinks the current frame and deactivates it. */
  method PopFrame(t: Thread)
    requires t.Valid() && t.stack != [] && Top(t.stack).Fr? && Top(t.stack).frame in t.frames
    modifies t`stack, t`slot, t`current, t.frames.Values, t.nodes.Values`root, t.nodes.Values`seen, t.nodes.Values`depth
    ensures t.Valid()
    ensures t.View() == Deactivate(old(t.View()).(stack := Below(old(t.stack))), Top(old(t.stack)).frame)
  {
    var f := t.stack[|t.stack| - 1].frame;
    t.SetStack(t.stack[..|t.stack| - 1]);
    t.DeactivateFrame(t.frames[f]);
  }

  /** An instruction boundary of the current frame. */
  method StepFrame(t: Thread, offset: nat)
    requires t.Valid() && t.stack != [] && Top(t.stack).Fr? && Top(t.stack).frame in t.frames
    requires t.View().frames[Top(t.stack).frame].place.In?
    modifies t`stack, t.frames.Values
    ensures t.Valid()
    ensures var f := Top(old(t.stack)).frame;
            t.View() == WithFrame(old(t.View()), f, BeginAt(old(t.View()).frames[f], offset))
                          .(stack := Below(old(t.stack)) + [Fr(f, Top(old(t.stack)).space, Ready)])
  {
    var f, space := t.stack[|t.stack| - 1].frame, t.stack[|t.stack| - 1].space;
    t.BeginInstruction(t.frames[f], offset);
    t.SetStack(t.stack[..|t.stack| - 1] + [Fr(f, space, Ready)]);
  }

  /** A jump of the current frame. */
  method JumpFrame(t: Thread, target: nat)
    requires t.Valid() && t.stack != [] && Top(t.stack).Fr? && Top(t.stack).frame in t.frames
    modifies t`stack, t.frames.Values
    ensures t.Valid()
    ensures var f := Top(old(t.stack)).frame;
            var rec := old(t.View()).frames[f];
            t.View() == WithFrame(old(t.View()), f, JumpTo(rec, rec.lasti, target))
                          .(stack := Below(old(t.stack)) + [Fr(f, Top(old(t.stack)).space, AfterJump(Top(old(t.stack)).mode, target))])
  {
    var Fr(f, space, mode) := t.stack[|t.stack| - 1];
    var fr := t.frames[f];
    assert t.View().frames[f] == RecOf(t.nodes, fr);
    t.CoordinateJump(fr, fr.lasti, target);
    t.SetStack(t.stack[..|t.stack| - 1] + [Fr(f, space, AfterJump(mode, target))]);
  }

  /** What every event can count on in a reachable state. */
  lemma {:induction false} ReadyFor(t: Thread, e: Event)
    requires t.Valid() && Inv(t.View()) && Enabled(t.View(), e)
    ensures Walkable(t)
    ensures e.Begin? || e.Jump? || e.Leave? ==> Top(t.stack).frame in t.frames && t.View().frames[Top(t.stack).frame].place.In?
    ensures e.LeaveSpace? ==> Top(t.stack).scope.prevSpace in t.nodes
  {
    InvWalkable(t);
    if e.LeaveSpace? {
      CurKnown(Below(t.stack), t.View().spaces, t.base);
    }
  }

  /** The current frame runs, jumps or leaves. */
  predicate OfCurrent(e: Event) {
    e.Leave? || e.Begin? || e.Jump?
  }

  method PerformOnCurrent(t: Thread, e: Event)
    requires t.Valid() && Inv(t.View()) && Enabled(t.View(), e) && OfCurrent(e)
    modifies t, t.repr
    ensures t.Valid() && t.View() == Next(old(t.View()), e) && t.repr == old(t.repr)
  {
    ReadyFor(t, e);
    match e
    case Leave => PopFrame(t);
    case Begin(offset) => StepFrame(t, offset);
    case Jump(target) => JumpFrame(t, target);
  }

  method PerformEntry(t: Thread, e: Event)
    requires t.Valid() && Inv(t.View()) && Enabled(t.View(), e) && (e.Call? || e.Resume?)
    modifies t, t.repr
    ensures t.Valid() && t.View() == Next(old(t.View()), e)
    ensures old(t.repr) <= t.repr && fresh(t.repr - old(t.repr))
  {
    match e
    case Call(f) =>
      var fr := t.NewFrame(f);
      PushFrame(t, fr);
    case Resume(f) => PushFrame(t, t.frames[f]);
  }

  method PerformAside(t: Thread, e: Event)
    requires t.Valid() && Inv(t.View()) && Enabled(t.View(), e)
    requires !OfCurrent(e) && !e.Call? && !e.Resume?
    modifies t, t.repr
    ensures t.Valid() && t.View() == Next(old(t.View()), e)
    ensures old(t.repr) <= t.repr && fresh(t.repr - old(t.repr))
  {
    ReadyFor(t, e);
    match e
    case EnterSpace(space) => CoordinateWalks.EnterSpace(t, space);
    case LeaveSpace => CoordinateWalks.LeaveSpace(t);
    case Query(space) => var _, _ := ThreadDelta(t, space);
    case Foreign(f, rec) => t.RunElsewhere(t.frames[f], rec);
    case ResetCache(f) => t.ResetLastCoordinate(t.frames[f]);
  }

  /** One event of the machine, performed by the hooks. */
  method Perform(t: Thread, e: Event)
    requires t.Valid() && Inv(t.View()) && Enabled(t.View(), e)
    modifies t, t.repr
    ensures t.Valid() && t.View() == Next(old(t.View()), e)
    ensures old(t.repr) <= t.repr && fresh(t.repr - old(t.repr))
  {
    if OfCurrent(e) {
      PerformOnCurrent(t, e);
    } else if e.Call? || e.Resume? {
      PerformEntry(t, e);
    } else {
      PerformAside(t, e);
    }
  }

  /** Any run of the machine is what the objects do. */
  method Replay(t: Thread, events: seq<Event>, ghost states: seq<State>)
    requires IsRun(states, events) && Initial(states[0]) && t.Valid() && t.View() == states[0]
    modifies t, t.repr
    ensures t.Valid() && t.View() == states[|events|]
  {
    for i := 0 to |events|
      invariant t.Valid() && t.View() == states[i]
      invariant old(t.repr) <= t.repr && fresh(t.repr - old(t.repr))
    {
      RunStep(states, events, i);
      Perform(t, events[i]);
    }
  }
}
