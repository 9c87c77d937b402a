/** The coordinate engine as the hooks run it (pycore_retrace.h:108-160, 277-299, 855-982;
    retracemodule.c:794-859): frames and spaces are objects that are written in place, and a
    pointer to a counter inside one is the name of that counter. Each method is proved to take the
    thread from one state of the machine to the next. */
module CoordinateThread {
  import opened CoordinateMachine
  import opened SlotDiscipline
  import opened SpaceRing

  class Frame {
    const id: FrameId
    var bias: int
    var lasti: int
    var ordinal: nat
    var saved: Slot
    var space: SpaceNode?
    var deltaSpace: SpaceNode?
    var deltaInstruction: nat
    var deltaOrdinal: nat

    constructor (id: FrameId)
      ensures this.id == id
      ensures bias == 0 && lasti == -1 && ordinal == 0 && saved == NoSlot && space == null && deltaSpace == null
    {
      this.id := id;
      bias, lasti, ordinal, saved, space := 0, -1, 0, NoSlot, null;
      deltaSpace, deltaInstruction, deltaOrdinal := null, 0, 0;
    }

    /** Forgets the coordinate state of a frame that is taken over as new. */
    method Init()
      modifies this`bias, this`ordinal, this`saved, this`space, this`deltaSpace
      ensures bias == 0 && ordinal == 0 && saved == NoSlot && space == null && deltaSpace == null
    {
      bias, ordinal, saved, space, deltaSpace := 0, 0, NoSlot, null, null;
    }

    /** The fields as another thread's hooks leave them. */
    method TakeOver(rec: FrameRec)
      modifies this`bias, this`lasti, this`ordinal, this`saved, this`space, this`deltaSpace
      ensures bias == rec.bias && lasti == rec.lasti && ordinal == rec.ordinal && saved == rec.slot
      ensures if rec.place.Elsewhere? then space != null && fresh(space) else space == null
      ensures deltaSpace == if rec.cache.Unset? then null else old(deltaSpace)
    {
      bias, lasti, ordinal, saved, space := rec.bias, rec.lasti, rec.ordinal, rec.slot, null;
      if rec.place.Elsewhere? {
        space := new SpaceNode(0);
      }
      if rec.cache.Unset? {
        deltaSpace := null;
      }
    }

    function Position(): nat
      reads this
    {
      if bias + lasti <= 0 then 0 else bias + lasti
    }
  }

  ghost function PlaceOf(nodes: map<SpaceId, SpaceNode>, node: SpaceNode?): Place {
    if node == null then Inactive else if Owned(nodes, node) then In(node.id) else Elsewhere
  }

  ghost function CacheOf(nodes: map<SpaceId, SpaceNode>, node: SpaceNode?, instruction: nat, ordinal: nat): Cache {
    if node == null || !Owned(nodes, node) then Unset else Words(node.id, instruction, ordinal)
  }

  ghost function RecOf(nodes: map<SpaceId, SpaceNode>, fr: Frame): FrameRec
    reads fr
  {
    FrameRec(fr.bias, fr.lasti, fr.ordinal, fr.saved, PlaceOf(nodes, fr.space),
             CacheOf(nodes, fr.deltaSpace, fr.deltaInstruction, fr.deltaOrdinal))
  }

  class Thread {
    const base: SpaceId
    var frames: map<FrameId, Frame>
    var nodes: map<SpaceId, SpaceNode>
    var stack: seq<Item>
    var current: SpaceNode
    var slot: Slot
    ghost var repr: set<object>

    ghost predicate Valid()
      reads this, repr
    {
      && Owned(nodes, current)
      && (forall f :: f in frames ==> frames[f] in repr && frames[f].id == f)
      && (forall id :: id in nodes ==> nodes[id] in repr && nodes[id].id == id)
    }

    ghost function FramesView(): map<FrameId, FrameRec>
      requires Valid()
      reads this, repr
    {
      map f | f in frames :: RecOf(nodes, frames[f])
    }

    ghost function SpacesView(): map<SpaceId, SpaceRec>
      requires Valid()
      reads this, repr
    {
      map id | id in nodes :: nodes[id].Record()
    }

    /** The state of the machine that the thread is in. */
    ghost function View(): State
      requires Valid()
      reads this, repr
    {
      State(FramesView(), SpacesView(), stack, current.id, slot, base)
    }

    constructor (base: SpaceId)
      ensures Valid() && fresh(repr)
      ensures Initial(View()) && View().base == base
    {
      var root := new SpaceNode(base);
      current, slot := root, RootSlot(base);
      this.base, frames, nodes, stack, repr := base, map[], map[base := root], [], {root};
    }

    predicate Known(fr: Frame)
      reads this
    {
      fr.id in frames && frames[fr.id] == fr
    }

    // ---------------------------------------------------------------- writes to one object

    /** Writes the counter of a frame. */
    method SetOrdinal(fr: Frame, value: nat)
      requires Valid() && Known(fr)
      modifies fr`ordinal
      ensures Valid() && View() == WithFrame(old(View()), fr.id, old(View()).frames[fr.id].(ordinal := value))
    {
      fr.ordinal := value;
      assert FramesView() == old(FramesView())[fr.id := RecOf(nodes, fr)];
      assert SpacesView() == old(SpacesView());
    }

    /** Takes over a frame left active by another thread. */
    method Reinitialize(fr: Frame)
      requires Valid() && Known(fr)
      modifies fr`bias, fr`ordinal, fr`saved, fr`space, fr`deltaSpace
      ensures Valid() && View() == WithFrame(old(View()), fr.id, Reinit(old(View()).frames[fr.id]))
    {
      fr.Init();
      assert FramesView() == old(FramesView())[fr.id := RecOf(nodes, fr)];
      assert SpacesView() == old(SpacesView());
    }

    /** Enters a frame into the current space, to count on the current slot when it leaves. */
    method Attach(fr: Frame)
      requires Valid() && Known(fr)
      modifies fr`space, fr`ordinal, fr`saved
      ensures Valid() && View() == WithFrame(old(View()), fr.id, old(View()).frames[fr.id].(place := In(current.id), ordinal := 0, slot := slot))
    {
      fr.space, fr.ordinal, fr.saved := current, 0, slot;
      assert FramesView() == old(FramesView())[fr.id := RecOf(nodes, fr)];
      assert SpacesView() == old(SpacesView());
    }

    /** Takes a frame out of its space. */
    method Release(fr: Frame)
      requires Valid() && Known(fr)
      modifies fr`space, fr`ordinal, fr`saved
      ensures Valid() && View() == WithFrame(old(View()), fr.id, Detach(old(View()).frames[fr.id]))
    {
      fr.space, fr.ordinal, fr.saved := null, 0, NoSlot;
      assert FramesView() == old(FramesView())[fr.id := RecOf(nodes, fr)];
      assert SpacesView() == old(SpacesView());
    }

    /** Moves a frame to an instruction. */
    method MoveTo(fr: Frame, offset: nat)
      requires Valid() && Known(fr)
      modifies fr`lasti
      ensures Valid() && View() == WithFrame(old(View()), fr.id, old(View()).frames[fr.id].(lasti := offset))
    {
      fr.lasti := offset;
      assert FramesView() == old(FramesView())[fr.id := RecOf(nodes, fr)];
      assert SpacesView() == old(SpacesView());
    }

    /** Remembers the words emitted for a frame. */
    method Remember(fr: Frame, space: SpaceNode)
      requires Valid() && Known(fr) && Owned(nodes, space)
      modifies fr`deltaSpace, fr`deltaInstruction, fr`deltaOrdinal
      ensures Valid() && View() == WithFrame(old(View()), fr.id, Emit(old(View()).frames[fr.id], space.id))
    {
      fr.deltaSpace, fr.deltaInstruction, fr.deltaOrdinal := space, fr.Position(), fr.ordinal;
      assert FramesView() == old(FramesView())[fr.id := RecOf(nodes, fr)];
      assert SpacesView() == old(SpacesView());
    }

    /** Forgets the words last emitted for a frame. */
    method ResetLastCoordinate(fr: Frame)
      requires Valid() && Known(fr)
      modifies fr`deltaSpace
      ensures Valid() && View() == WithFrame(old(View()), fr.id, old(View()).frames[fr.id].(cache := Unset))
    {
      fr.deltaSpace := null;
      assert FramesView() == old(FramesView())[fr.id := RecOf(nodes, fr)];
      assert SpacesView() == old(SpacesView());
    }

    /** What other threads did to a frame since it was last here: they moved it, left it inactive or
        active in a space of theirs, and may have emitted its words to somebody else. */
    method RunElsewhere(fr: Frame, rec: FrameRec)
      requires Valid() && Known(fr) && ForeignOk(View().frames[fr.id], rec)
      modifies fr
      ensures Valid() && View() == WithFrame(old(View()), fr.id, rec)
    {
      assert View().frames[fr.id] == RecOf(nodes, fr);
      fr.TakeOver(rec);
      assert RecOf(nodes, fr) == rec;
      assert FramesView() == old(FramesView())[fr.id := RecOf(nodes, fr)];
      assert SpacesView() == old(SpacesView());
    }

    /** Moves the bias so that the target reads one more than the source. */
    method CoordinateJump(fr: Frame, from: int, to: int)
      requires Valid() && Known(fr)
      modifies fr`bias
      ensures Valid() && View() == WithFrame(old(View()), fr.id, JumpTo(old(View()).frames[fr.id], from, to))
      ensures fr.bias + to == old(fr.bias) + from + 1
    {
      var fromCoordinate := fr.bias + from;
      fr.bias := fromCoordinate + 1 - to;
      assert FramesView() == old(FramesView())[fr.id := RecOf(nodes, fr)];
      assert SpacesView() == old(SpacesView());
    }

    /** Writes the activity of a space. */
    method SetDepth(node: SpaceNode, seen: bool, depth: nat)
      requires Valid() && Owned(nodes, node)
      modifies node`seen, node`depth
      ensures Valid() && View() == WithSpace(old(View()), node.id, old(View()).spaces[node.id].(seen := seen, depth := depth))
    {
      node.seen, node.depth := seen, depth;
      assert FramesView() == old(FramesView());
      assert SpacesView() == old(SpacesView())[node.id := node.Record()];
    }

    /** Writes the root counter of a space. */
    method SetRoot(node: SpaceNode, value: nat)
      requires Valid() && Owned(nodes, node)
      modifies node`root
      ensures Valid() && View() == WithSpace(old(View()), node.id, old(View()).spaces[node.id].(root := value))
    {
      node.root := value;
      assert FramesView() == old(FramesView());
      assert SpacesView() == old(SpacesView())[node.id := node.Record()];
    }

    /** Remembers the root count a delta was emitted under. */
    method RememberRoot(node: SpaceNode)
      requires Valid() && Owned(nodes, node)
      modifies node`deltaRoot
      ensures Valid() && View() == WithSpace(old(View()), node.id, old(View()).spaces[node.id].(deltaRoot := At(node.root)))
    {
      node.deltaRoot := At(node.root);
      assert FramesView() == old(FramesView());
      assert SpacesView() == old(SpacesView())[node.id := node.Record()];
    }

    method SetStack(items: seq<Item>)
      requires Valid()
      modifies this`stack
      ensures Valid() && stack == items && View() == old(View()).(stack := items)
    {
      stack := items;
      assert FramesView() == old(FramesView());
      assert SpacesView() == old(SpacesView());
    }

    method SetCurrent(node: SpaceNode, p: Slot)
      requires Valid() && Owned(nodes, node)
      modifies this`current, this`slot
      ensures Valid() && current == node && slot == p && View() == old(View()).(current := node.id, slot := p)
    {
      current, slot := node, p;
      assert FramesView() == old(FramesView());
      assert SpacesView() == old(SpacesView());
    }

    /** Registers a fresh frame under an id. */
    method NewFrame(id: FrameId) returns (fr: Frame)
      requires Valid()
      modifies this`frames, this`repr
      ensures Valid() && Known(fr) && fr.id == id && fresh(repr - old(repr)) && old(repr) <= repr
      ensures View() == WithFrame(old(View()), id, FRESH_FRAME)
    {
      fr := new Frame(id);
      frames, repr := frames[id := fr], repr + {fr};
      assert FramesView() == old(FramesView())[id := FRESH_FRAME];
      assert SpacesView() == old(SpacesView());
    }

    /** The space with this id, made on first use. */
    method GetThreadSpace(id: SpaceId) returns (node: SpaceNode)
      requires Valid()
      modifies this`nodes, this`repr
      ensures Valid() && Owned(nodes, node) && node.id == id && fresh(repr - old(repr)) && old(repr) <= repr
      ensures View() == GetSpace(old(View()), id)
      ensures forall k :: k in old(nodes) ==> k in nodes && nodes[k] == old(nodes)[k]
    {
      if id in nodes {
        return nodes[id];
      }
      node := new SpaceNode(id);
      AddSpace(node);
    }

    /** Lists a fresh space. */
    method AddSpace(node: SpaceNode)
      requires Valid() && node.id !in nodes && node.Record() == FRESH_SPACE
      requires node !in repr && forall f :: f in frames ==> frames[f].space != node && frames[f].deltaSpace != node
      modifies this`nodes, this`repr
      ensures Valid() && nodes == old(nodes)[node.id := node] && repr == old(repr) + {node}
      ensures View() == GetSpace(old(View()), node.id)
    {
      nodes, repr := nodes[node.id := node], repr + {node};
      assert FramesView() == old(FramesView());
      assert SpacesView() == old(SpacesView())[node.id := FRESH_SPACE];
    }

    // ---------------------------------------------------------------- hooks

    /** `++*p` */
    method Increment(p: Slot)
      requires Valid()
      modifies this`stack, frames.Values`ordinal, nodes.Values`root
      ensures Valid() && View() == Bump(old(View()), p)
    {
      match p
      case NoSlot =>
      case FrameSlot(f) =>
        if f in frames {
          SetOrdinal(frames[f], frames[f].ordinal + 1);
        }
      case RootSlot(sp) =>
        if sp in nodes {
          SetRoot(nodes[sp], nodes[sp].root + 1);
        }
      case LocalSlot(h) =>
        if h < |stack| && stack[h].Sc? {
          var scope := stack[h].scope;
          SetStack(stack[h := Sc(scope.(local := scope.local + 1))]);
        }
    }

    method ActivateFrame(fr: Frame)
      requires Valid() && Known(fr)
      modifies this`slot, this`current, fr, current`seen, current`depth
      ensures Valid() && View() == Activate(old(View()), fr.id)
    {
      ActivateIs(View(), fr.id);
      assert View().frames[fr.id] == RecOf(nodes, fr);
      if fr.space != null {
        if Owned(nodes, fr.space) {
          return;
        }
        Reinitialize(fr);
      }
      Join(fr);
    }

    /** The rest of activation, for a frame that is not active. */
    method Join(fr: Frame)
      requires Valid() && Known(fr)
      modifies this`slot, this`current, fr`space, fr`ordinal, fr`saved, current`seen, current`depth
      ensures Valid() && View() == Joined(old(View()), fr.id)
    {
      Attach(fr);
      SetCurrent(current, FrameSlot(fr.id));
      SetDepth(current, true, if current.depth != UINT32_MAX then current.depth + 1 else current.depth);
    }

    /** The frame part of an instruction boundary: only a visible frame has its counter cleared. */
    method BeginInstruction(fr: Frame, offset: nat)
      requires Valid() && Known(fr)
      modifies fr`lasti, fr`ordinal
      ensures Valid()
      ensures var rec := old(View()).frames[fr.id];
              View() == WithFrame(old(View()), fr.id, if rec.place.Inactive? then rec.(lasti := offset) else BeginAt(rec, offset))
    {
      ghost var s := View();
      assert s.frames[fr.id] == RecOf(nodes, fr);
      MoveTo(fr, offset);
      if fr.space != null {
        WithFrameTwice(s, fr.id, s.frames[fr.id].(lasti := offset), BeginAt(s.frames[fr.id], offset));
        SetOrdinal(fr, 0);
      }
    }

    method DeactivateFrame(fr: Frame)
      requires Valid() && Known(fr)
      modifies this`stack, this`slot, this`current, frames.Values`ordinal, nodes.Values`root, nodes.Values`seen, nodes.Values`depth, fr
      ensures Valid() && View() == Deactivate(old(View()), fr.id)
    {
      assert View().frames[fr.id] == RecOf(nodes, fr);
      if fr.space == null {
        return;
      }
      if !Owned(nodes, fr.space) {
        Reinitialize(fr);
        return;
      }
      Leave(fr);
    }

    /** Counts a departure and drops the depth of its space. */
    method CountOut(previous: Slot, node: SpaceNode)
      requires Valid() && Owned(nodes, node)
      modifies this`stack, frames.Values`ordinal, nodes.Values`root, node`seen, node`depth
      ensures Valid() && View() == DropDepth(Bump(old(View()), previous), node.id)
    {
      if previous != NoSlot {
        Increment(previous);
      }
      assert View().spaces[node.id] == node.Record();
      if node.depth > 0 {
        SetDepth(node, node.seen, node.depth - 1);
      }
    }

    /** The rest of deactivation, for a frame active in one of this thread's spaces. */
    method Leave(fr: Frame)
      requires Valid() && Known(fr) && fr.space != null && Owned(nodes, fr.space)
      modifies this`stack, this`slot, this`current, frames.Values`ordinal, nodes.Values`root, nodes.Values`seen, nodes.Values`depth, fr
      ensures Valid() && View() == Deactivate(old(View()), fr.id)
    {
      var previous, node := fr.saved, fr.space;
      assert View().frames[fr.id] == RecOf(nodes, fr);
      LeaveSteps(View(), fr.id);
      if slot == FrameSlot(fr.id) {
        SetCurrent(current, previous);
      }
      CountOut(previous, node);
      Release(fr);
      if slot == NoSlot {
        SetCurrent(current, RootSlot(current.id));
      }
    }
  }

  // ------------------------------------------------------------------ the machine's steps, write by write

  /** What activation does to a frame that is not active. */
  ghost function Joined(s: State, f: FrameId): State
    requires f in s.frames && s.current in s.spaces
  {
    var sp := s.spaces[s.current];
    s.(frames := s.frames[f := s.frames[f].(place := In(s.current), ordinal := 0, slot := s.slot)],
       spaces := s.spaces[s.current := sp.(seen := true, depth := if sp.depth != UINT32_MAX then sp.depth + 1 else sp.depth)],
       slot := FrameSlot(f))
  }

  lemma {:induction false} ActivateIs(s: State, f: FrameId)
    requires f in s.frames && s.current in s.spaces
    ensures Activate(s, f) == match s.frames[f].place
                              case Inactive => Joined(s, f)
                              case In(_) => s
                              case Elsewhere => Joined(WithFrame(s, f, Reinit(s.frames[f])), f)
  {
    var s' := WithFrame(s, f, Reinit(s.frames[f]));
    assert Joined(s', f).frames == Activate(s, f).frames || !s.frames[f].place.Elsewhere?;
  }

  /** Restore the pointer, count, leave the space, clear the frame, fall back to the root. */
  lemma {:induction false} LeaveSteps(s: State, f: FrameId)
    requires f in s.frames && s.frames[f].place.In?
    ensures var fr := s.frames[f];
            var restored := if s.slot == FrameSlot(f) then s.(slot := fr.slot) else s;
            var dropped := DropDepth(Bump(restored, fr.slot), fr.place.space);
            && f in dropped.frames
            && var cleared := WithFrame(dropped, f, Detach(dropped.frames[f]));
            Deactivate(s, f) == if cleared.slot == NoSlot then cleared.(slot := RootSlot(cleared.current)) else cleared
  {
    var fr := s.frames[f];
    BumpKeeps(s, fr.slot, f, fr.slot);
    DropKeeps(Bump(s, fr.slot), fr.place.space, fr.slot);
  }

  lemma {:induction false} BumpKeeps(s: State, p: Slot, f: FrameId, slot: Slot)
    requires f in s.frames
    ensures f in Bump(s, p).frames && Detach(Bump(s, p).frames[f]) == Detach(s.frames[f])
    ensures Bump(s, p).slot == s.slot && Bump(s, p).current == s.current
    ensures Bump(s.(slot := slot), p) == Bump(s, p).(slot := slot)
  {
  }

  lemma {:induction false} DropKeeps(s: State, sp: SpaceId, slot: Slot)
    ensures DropDepth(s, sp).frames == s.frames && DropDepth(s, sp).slot == s.slot && DropDepth(s, sp).current == s.current
    ensures DropDepth(s.(slot := slot), sp) == DropDepth(s, sp).(slot := slot)
  {
  }

  ghost function WithFrame(s: State, f: FrameId, rec: FrameRec): State {
    s.(frames := s.frames[f := rec])
  }

  lemma {:induction false} WithFrameTwice(s: State, f: FrameId, rec: FrameRec, rec': FrameRec)
    ensures WithFrame(WithFrame(s, f, rec), f, rec') == WithFrame(s, f, rec')
  {
  }

  ghost function WithSpace(s: State, sp: SpaceId, rec: SpaceRec): State {
    s.(spaces := s.spaces[sp := rec])
  }
}
