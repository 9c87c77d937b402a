/** Slot discipline: which ordinal slot every pointer of the engine holds, in every reachable state. */
module SlotDiscipline {
  import opened CoordinateMachine

  /** The current space implied by the control stack: that of the innermost open scope. */
  ghost function Cur(stack: seq<Item>, base: SpaceId): SpaceId {
    if stack == [] then base
    else match Top(stack)
      case Fr(_, _, _) => Cur(Below(stack), base)
      case Sc(scope) => scope.space
  }

  /** The slot a child activated on top of this stack must count on: the top frame, the nearest frame
      of the space a scope re-enters, that scope's local root, or the root of the base space. */
  ghost function SlotOf(stack: seq<Item>, base: SpaceId): Slot {
    if stack == [] then RootSlot(base)
    else match Top(stack)
      case Fr(f, _, _) => FrameSlot(f)
      case Sc(scope) => if scope.useLocal then LocalSlot(|stack| - 1) else Nearest(Below(stack), scope.space)
  }

  ghost predicate ItemOk(frames: map<FrameId, FrameRec>, below: seq<Item>, item: Item, base: SpaceId) {
    match item
    case Fr(f, space, _) =>
      && f in frames && !OnStack(below, f)
      && frames[f].place == In(space) && space == Cur(below, base)
      && frames[f].slot == SlotOf(below, base)
    case Sc(scope) =>
      && scope.prevSpace == Cur(below, base) && scope.prevSlot == SlotOf(below, base)
      && (scope.useLocal <==> Nearest(below, scope.space) == NoSlot)
      && scope.initial <= scope.local
  }

  /** Every saved pointer and saved space on the stack is the one implied by what lies below it. */
  ghost predicate StackOk(frames: map<FrameId, FrameRec>, stack: seq<Item>, base: SpaceId) {
    stack != [] ==>
      && StackOk(frames, Below(stack), base)
      && ItemOk(frames, Below(stack), Top(stack), base)
  }

  ghost predicate KnownSpaces(stack: seq<Item>, spaces: map<SpaceId, SpaceRec>) {
    stack != [] ==>
      && KnownSpaces(Below(stack), spaces)
      && match Top(stack)
         case Fr(_, space, _) => space in spaces && spaces[space].seen
         case Sc(scope) => scope.space in spaces
  }

  /** The mode of a frame; a frame off the stack is where its last instruction left it. */
  ghost function ModeOf(stack: seq<Item>, f: FrameId): Mode {
    if stack == [] then Ready
    else if Top(stack).Fr? && Top(stack).frame == f then Top(stack).mode
    else ModeOf(Below(stack), f)
  }

  ghost function NextAt(stack: seq<Item>, f: FrameId, fr: FrameRec): int {
    NextBegin(fr, ModeOf(stack, f))
  }

  /** The frame is active and has begun an instruction since it was activated. */
  ghost predicate Begun(stack: seq<Item>, f: FrameId) {
    OnStack(stack, f) && !ModeOf(stack, f).Entered? && !ModeOf(stack, f).Thrown?
  }

  /** Something has been entered on top of the frame. */
  ghost predicate Covered(stack: seq<Item>, f: FrameId) {
    stack != [] && OnStack(Below(stack), f)
  }

  ghost predicate RecOk(s: State, f: FrameId)
    requires f in s.frames
  {
    && (s.frames[f].place.In? ==> OnStack(s.stack, f))
    && s.frames[f].lasti >= -1
    && NextAt(s.stack, f, s.frames[f]) >= (if Begun(s.stack, f) || Covered(s.stack, f) then 1 else 0)
  }

  ghost predicate Inv(s: State) {
    && StackOk(s.frames, s.stack, s.base) && KnownSpaces(s.stack, s.spaces)
    && s.base in s.spaces
    && s.current == Cur(s.stack, s.base) && s.slot == SlotOf(s.stack, s.base)
    && forall f :: f in s.frames ==> RecOk(s, f)
  }

  // ------------------------------------------------------------------ frame conditions

  /** The stack part of the invariant depends only on places and slots of frames on the stack. */
  lemma {:induction false} StackFrame(frames: map<FrameId, FrameRec>, frames': map<FrameId, FrameRec>, stack: seq<Item>, base: SpaceId)
    requires StackOk(frames, stack, base)
    requires forall f :: f in frames && OnStack(stack, f) ==>
               f in frames' && frames'[f].place == frames[f].place && frames'[f].slot == frames[f].slot
    ensures StackOk(frames', stack, base)
  {
    if stack != [] {
      StackFrame(frames, frames', Below(stack), base);
    }
  }

  lemma {:induction false} KnownFrame(stack: seq<Item>, spaces: map<SpaceId, SpaceRec>, spaces': map<SpaceId, SpaceRec>)
    requires KnownSpaces(stack, spaces)
    requires forall sp :: sp in spaces ==> sp in spaces' && (spaces[sp].seen ==> spaces'[sp].seen)
    ensures KnownSpaces(stack, spaces')
  {
    if stack != [] {
      KnownFrame(Below(stack), spaces, spaces');
    }
  }

  lemma {:induction false} CurKnown(stack: seq<Item>, spaces: map<SpaceId, SpaceRec>, base: SpaceId)
    requires KnownSpaces(stack, spaces) && base in spaces
    ensures Cur(stack, base) in spaces
  {
    if stack != [] {
      CurKnown(Below(stack), spaces, base);
    }
  }

  lemma {:induction false} NearestOnStack(stack: seq<Item>, space: SpaceId)
    ensures Nearest(stack, space).FrameSlot? ==> OnStack(stack, Nearest(stack, space).frame)
  {
    if stack != [] {
      NearestOnStack(Below(stack), space);
    }
  }

  lemma {:induction false} OnStackOk(frames: map<FrameId, FrameRec>, stack: seq<Item>, base: SpaceId, f: FrameId)
    requires StackOk(frames, stack, base) && OnStack(stack, f)
    ensures f in frames && frames[f].place.In?
  {
    if !(Top(stack).Fr? && Top(stack).frame == f) {
      OnStackOk(frames, Below(stack), base, f);
    }
  }

  /** What the pointer of a well-formed stack is: the nearest active frame in the current space if
      there is one, else the local root of the innermost scope, which is open in that space, else
      the root of the base space with nothing active at all. It is always live. */
  lemma {:induction false} SlotMeaning(frames: map<FrameId, FrameRec>, stack: seq<Item>, base: SpaceId)
    requires StackOk(frames, stack, base)
    ensures var slot, cur := SlotOf(stack, base), Cur(stack, base);
            match slot
            case NoSlot => false
            case FrameSlot(g) => slot == Nearest(stack, cur) && OnStack(stack, g) && g in frames
            case LocalSlot(h) =>
              && Nearest(stack, cur) == NoSlot && stack != [] && h == |stack| - 1
              && Top(stack).Sc? && Top(stack).scope.useLocal && Top(stack).scope.space == cur
            case RootSlot(sp) => stack == [] && sp == base == cur
  {
    if stack != [] {
      match Top(stack)
      case Fr(f, space, _) =>
      case Sc(scope) =>
        NearestOnStack(Below(stack), scope.space);
        if !scope.useLocal {
          OnStackOk(frames, Below(stack), base, Nearest(Below(stack), scope.space).frame);
        }
    }
  }

  /** Counting on a local root changes nothing but the count. */
  lemma {:induction false} LocalBump(frames: map<FrameId, FrameRec>, stack: seq<Item>, base: SpaceId, spaces: map<SpaceId, SpaceRec>)
    requires stack != [] && Top(stack).Sc? && StackOk(frames, stack, base) && KnownSpaces(stack, spaces)
    ensures var h := |stack| - 1;
            var scope := Top(stack).scope;
            var stack' := stack[h := Sc(scope.(local := scope.local + 1))];
            && Below(stack') == Below(stack)
            && StackOk(frames, stack', base) && KnownSpaces(stack', spaces)
            && Cur(stack', base) == Cur(stack, base) && SlotOf(stack', base) == SlotOf(stack, base)
            && (forall f :: OnStack(stack', f) <==> OnStack(stack, f))
            && (forall f :: ModeOf(stack', f) == ModeOf(stack, f))
  {
    var h := |stack| - 1;
    var scope := Top(stack).scope;
    var stack' := stack[h := Sc(scope.(local := scope.local + 1))];
    assert Below(stack') == Below(stack);
  }

  lemma {:induction false} OffStackReady(stack: seq<Item>, f: FrameId)
    requires !OnStack(stack, f)
    ensures ModeOf(stack, f) == Ready
  {
    if stack != [] {
      OffStackReady(Below(stack), f);
    }
  }

  /** When the current frame can enter something, so could every frame below it. */
  lemma {:induction false} AllPlaced(s: State, g: FrameId)
    requires g in s.frames && RecOk(s, g) && Placed(s.frames, s.stack) && OnStack(s.stack, g)
    ensures NextAt(s.stack, g, s.frames[g]) >= 1
  {
  }

  // ------------------------------------------------------------------ preservation

  lemma {:induction false} PushInv(s: State, f: FrameId)
    requires Inv(s) && Placed(s.frames, s.stack) && !OnStack(s.stack, f) && f in s.frames
    ensures Inv(Push(s, f))
  {
    CurKnown(s.stack, s.spaces, s.base);
    var s' := Push(s, f);
    assert RecOk(s, f);
    assert Below(s'.stack) == s.stack;
    StackFrame(s.frames, s'.frames, s.stack, s.base);
    KnownFrame(s.stack, s.spaces, s'.spaces);
    OffStackReady(s.stack, f);
    forall g | g in s'.frames
      ensures RecOk(s', g)
    {
      assert RecOk(s, g);
      if OnStack(s.stack, g) {
        AllPlaced(s, g);
      }
    }
  }

  lemma {:induction false} CallInv(s: State, f: FrameId)
    requires Inv(s) && !OnStack(s.stack, f)
    ensures Inv(s.(frames := s.frames[f := FRESH_FRAME]))
  {
    var s' := s.(frames := s.frames[f := FRESH_FRAME]);
    StackFrame(s.frames, s'.frames, s.stack, s.base);
    OffStackReady(s.stack, f);
    forall g | g in s'.frames
      ensures RecOk(s', g)
    {
      assert g != f ==> RecOk(s, g);
    }
  }

  /** The bump a leaving frame makes on the slot it saved keeps the stack below it well formed. */
  lemma {:induction false} BumpInv(s: State)
    requires StackOk(s.frames, s.stack, s.base) && KnownSpaces(s.stack, s.spaces) && s.base in s.spaces
    ensures var s' := Bump(s, SlotOf(s.stack, s.base));
            && StackOk(s'.frames, s'.stack, s.base) && KnownSpaces(s'.stack, s'.spaces) && s.base in s'.spaces
            && Cur(s'.stack, s.base) == Cur(s.stack, s.base) && SlotOf(s'.stack, s.base) == SlotOf(s.stack, s.base)
            && s'.frames.Keys == s.frames.Keys && s'.spaces.Keys == s.spaces.Keys
            && (forall f :: OnStack(s'.stack, f) <==> OnStack(s.stack, f))
            && (forall f :: Covered(s'.stack, f) <==> Covered(s.stack, f))
            && (forall f :: ModeOf(s'.stack, f) == ModeOf(s.stack, f))
            && (forall f :: f in s.frames ==> s'.frames[f] == s.frames[f].(ordinal := s'.frames[f].ordinal))
            && s'.slot == s.slot && s'.current == s.current && s'.base == s.base
  {
    SlotMeaning(s.frames, s.stack, s.base);
    var slot := SlotOf(s.stack, s.base);
    var s' := Bump(s, slot);
    match slot
    case FrameSlot(g) => StackFrame(s.frames, s'.frames, s.stack, s.base);
    case LocalSlot(h) => LocalBump(s.frames, s.stack, s.base, s.spaces);
    case RootSlot(sp) => KnownFrame(s.stack, s.spaces, s'.spaces);
  }

  /** State after the top frame is unlinked and its saved slot bumped, before the rest of a leave. */
  ghost function Bumped(s: State): State
    requires Enabled(s, Leave) && Top(s.stack).frame in s.frames
  {
    Bump(s.(stack := Below(s.stack)), s.frames[Top(s.stack).frame].slot)
  }

  lemma {:induction false} LeaveIs(s: State)
    requires Inv(s) && Enabled(s, Leave)
    ensures Top(s.stack).frame in s.frames
    ensures var f, s1, s' := Top(s.stack).frame, Bumped(s), Next(s, Leave);
            && s'.frames == s1.frames[f := Detach(s.frames[f])]
            && s'.stack == s1.stack && s'.base == s.base && s'.current == s.current
            && s'.slot == s.frames[f].slot == SlotOf(Below(s.stack), s.base)
            && s'.spaces == DropDepth(s1, Top(s.stack).space).spaces
  {
    SlotMeaning(s.frames, Below(s.stack), s.base);
  }

  lemma {:induction false} LeaveInv(s: State)
    requires Inv(s) && Enabled(s, Leave)
    ensures Inv(Next(s, Leave))
  {
    LeaveIs(s);
    BumpInv(s.(stack := Below(s.stack)));
    var s1, s' := Bumped(s), Next(s, Leave);
    StackFrame(s1.frames, s'.frames, s1.stack, s.base);
    KnownFrame(s1.stack, s1.spaces, s'.spaces);
    forall g | g in s'.frames
      ensures RecOk(s', g)
    {
      LeaveRec(s, g);
    }
  }

  lemma {:induction false} LeaveRec(s: State, g: FrameId)
    requires Inv(s) && Enabled(s, Leave) && g in s.frames && g in Next(s, Leave).frames
    ensures RecOk(Next(s, Leave), g)
  {
    LeaveIs(s);
    BumpInv(s.(stack := Below(s.stack)));
    OffStackReady(Below(s.stack), Top(s.stack).frame);
    assert RecOk(s, g);
  }

  lemma {:induction false} StepFrameInv(s: State, e: Event)
    requires Inv(s) && Enabled(s, e) && (e.Begin? || e.Jump?)
    ensures Inv(Next(s, e))
  {
    var s' := Next(s, e);
    assert Below(s'.stack) == Below(s.stack);
    StackFrame(s.frames, s'.frames, Below(s.stack), s.base);
    forall g | g in s'.frames
      ensures RecOk(s', g)
    {
      assert RecOk(s, g);
    }
  }

  lemma {:induction false} ScopeOnTop(frames: map<FrameId, FrameRec>, stack: seq<Item>, base: SpaceId, scope: Scope)
    requires StackOk(frames, stack, base) && ItemOk(frames, stack, Sc(scope), base)
    ensures var longer := stack + [Sc(scope)];
            && StackOk(frames, longer, base) && Cur(longer, base) == scope.space
            && SlotOf(longer, base) == (if scope.useLocal then LocalSlot(|stack|) else Nearest(stack, scope.space))
            && (forall f :: OnStack(longer, f) <==> OnStack(stack, f))
  {
    assert Below(stack + [Sc(scope)]) == stack && Top(stack + [Sc(scope)]) == Sc(scope);
  }

  /** What entering a space changes. */
  lemma {:induction false} EnterShape(s: State, space: SpaceId)
    ensures var s', known := Enter(s, space), GetSpace(s, space);
            && space in known.spaces
            && s'.stack == s.stack + [Top(s'.stack)] && Below(s'.stack) == s.stack && Top(s'.stack).Sc?
            && var scope, root := Top(s'.stack).scope, known.spaces[space].root;
            && scope == (if Nearest(s.stack, space) == NoSlot then Scope(s.current, s.slot, space, root, root, true)
                         else Scope(s.current, s.slot, space, 0, 0, false))
            && s' == known.(stack := s'.stack, current := space,
                            slot := if scope.useLocal then LocalSlot(|s.stack|) else Nearest(s.stack, space))
  {
    var s' := Enter(s, space);
    assert s'.stack == s.stack + [Top(s'.stack)];
  }

  lemma {:induction false} EnterIs(s: State, space: SpaceId)
    requires s.current == Cur(s.stack, s.base) && s.slot == SlotOf(s.stack, s.base)
    ensures var s' := Enter(s, space);
            && s'.stack != [] && Top(s'.stack).Sc? && Below(s'.stack) == s.stack && s'.stack == s.stack + [Top(s'.stack)]
            && ItemOk(s.frames, s.stack, Top(s'.stack), s.base) && Top(s'.stack).scope.space == space
            && s'.frames == s.frames && s'.base == s.base && s'.current == space
            && s'.slot == (if Top(s'.stack).scope.useLocal then LocalSlot(|s.stack|) else Nearest(s.stack, space))
            && space in s'.spaces && (forall sp :: sp in s.spaces ==> sp in s'.spaces && s'.spaces[sp] == s.spaces[sp])
  {
    EnterShape(s, space);
  }

  lemma {:induction false} EnterInv(s: State, space: SpaceId)
    requires Inv(s) && Enabled(s, EnterSpace(space))
    ensures Inv(Next(s, EnterSpace(space)))
  {
    var s' := Enter(s, space);
    EnterIs(s, space);
    ScopeOnTop(s.frames, s.stack, s.base, Top(s'.stack).scope);
    KnownFrame(s.stack, s.spaces, s'.spaces);
    forall g | g in s'.frames
      ensures RecOk(s', g)
    {
      EnterRec(s, s', g);
    }
  }

  /** A frame below a scope is as it was. */
  lemma {:induction false} EnterRec(s: State, s': State, g: FrameId)
    requires g in s.frames && RecOk(s, g) && Placed(s.frames, s.stack) && s'.frames == s.frames
    requires s'.stack != [] && Below(s'.stack) == s.stack && Top(s'.stack).Sc?
    ensures RecOk(s', g)
  {
    if OnStack(s.stack, g) {
      AllPlaced(s, g);
    }
  }

  lemma {:induction false} ExitInv(s: State)
    requires Inv(s) && Enabled(s, LeaveSpace)
    ensures Inv(Next(s, LeaveSpace))
  {
    var s' := Next(s, LeaveSpace);
    KnownFrame(s'.stack, s.spaces, s'.spaces);
    forall g | g in s'.frames
      ensures RecOk(s', g)
    {
      assert RecOk(s, g);
    }
  }

  /** Hooks that only touch caches or frames that are not on the stack. */
  lemma {:induction false} AsideInv(s: State, e: Event)
    requires Inv(s) && Enabled(s, e) && (e.Query? || e.Foreign? || e.ResetCache?)
    ensures Inv(Next(s, e))
  {
    var s' := Next(s, e);
    StackFrame(s.frames, s'.frames, s.stack, s.base);
    KnownFrame(s.stack, s.spaces, s'.spaces);
    if e.Foreign? {
      OffStackReady(s.stack, e.frame);
    }
    forall g | g in s'.frames
      ensures RecOk(s', g)
    {
      assert RecOk(s, g);
    }
  }

  lemma {:induction false} StepInv(s: State, e: Event)
    requires Inv(s) && Enabled(s, e)
    ensures Inv(Next(s, e))
  {
    match e
    case Call(f) =>
      CallInv(s, f);
      PushInv(s.(frames := s.frames[f := FRESH_FRAME]), f);
    case Resume(f) => PushInv(s, f);
    case Leave => LeaveInv(s);
    case Begin(_) => StepFrameInv(s, e);
    case Jump(_) => StepFrameInv(s, e);
    case EnterSpace(space) => EnterInv(s, space);
    case LeaveSpace => ExitInv(s);
    case Query(_) => AsideInv(s, e);
    case Foreign(_, _) => AsideInv(s, e);
    case ResetCache(_) => AsideInv(s, e);
  }

  lemma {:induction false} RunInv(states: seq<State>, events: seq<Event>, i: nat)
    requires IsRun(states, events) && Initial(states[0]) && i < |states|
    ensures Inv(states[i])
  {
    if i > 0 {
      RunInv(states, events, i - 1);
      assert StepAt(states, events, i - 1);
      StepInv(states[i - 1], events[i - 1]);
    }
  }

  lemma {:induction false} RunStep(states: seq<State>, events: seq<Event>, i: nat)
    requires IsRun(states, events) && Initial(states[0]) && i < |events|
    ensures Inv(states[i]) && Enabled(states[i], events[i]) && states[i + 1] == Next(states[i], events[i])
  {
    RunInv(states, events, i);
    assert StepAt(states, events, i);
  }

  // ------------------------------------------------------------------ results

  /** In every reachable state the thread's ordinal pointer is the slot of the nearest active frame of
      the current space if there is one, else the local root of the open scope of that space, else
      the root of the base space, with nothing active. */
  lemma {:induction false} ThreadSlot(states: seq<State>, events: seq<Event>, i: nat)
    requires IsRun(states, events) && Initial(states[0]) && i < |states|
    ensures var s := states[i];
            match Nearest(s.stack, s.current)
            case FrameSlot(g) =>
              s.slot == FrameSlot(g) && OnStack(s.stack, g) && g in s.frames && s.frames[g].place == In(s.current)
            case _ =>
              if s.stack == [] then s.slot == RootSlot(s.base) && s.current == s.base
              else s.slot == LocalSlot(|s.stack| - 1) && Top(s.stack).Sc?
                   && Top(s.stack).scope.useLocal && Top(s.stack).scope.space == s.current
  {
    RunInv(states, events, i);
    var s := states[i];
    SlotMeaning(s.frames, s.stack, s.base);
    NearestPlace(s.frames, s.stack, s.base, s.current);
  }

  lemma {:induction false} NearestPlace(frames: map<FrameId, FrameRec>, stack: seq<Item>, base: SpaceId, space: SpaceId)
    requires StackOk(frames, stack, base)
    ensures var near := Nearest(stack, space);
            near.FrameSlot? ==> OnStack(stack, near.frame) && near.frame in frames && frames[near.frame].place == In(space)
  {
    if stack != [] {
      NearestPlace(frames, Below(stack), base, space);
    }
  }

  /** Every pointer saved on an active frame is live: it points into a lower active frame of the same
      space, into a lower open scope of that space, or at the root of the base space. */
  lemma {:induction false} SavedSlotLive(frames: map<FrameId, FrameRec>, stack: seq<Item>, base: SpaceId, f: FrameId)
    requires StackOk(frames, stack, base) && OnStack(stack, f)
    ensures f in frames && frames[f].place.In?
    ensures match frames[f].slot
            case NoSlot => false
            case FrameSlot(g) => g != f && OnStack(stack, g) && g in frames && frames[g].place == frames[f].place
            case LocalSlot(h) =>
              h < |stack| && stack[h].Sc? && stack[h].scope.useLocal && In(stack[h].scope.space) == frames[f].place
            case RootSlot(sp) => sp == base && frames[f].place == In(base)
  {
    var below := Below(stack);
    if Top(stack).Fr? && Top(stack).frame == f {
      SlotMeaning(frames, below, base);
      NearestPlace(frames, below, base, Top(stack).space);
    } else {
      SavedSlotLive(frames, below, base, f);
    }
  }

  /** A leaving frame counts once, on the nearest active frame of its own space; with none, on the
      scope it runs under or on the root of the base space. */
  lemma {:induction false} LeaveCounts(s: State, g: FrameId)
    requires Inv(s) && Enabled(s, Leave) && g in s.frames
    ensures var f, space, below := Top(s.stack).frame, Top(s.stack).space, Below(s.stack);
            var s' := Next(s, Leave);
            && g in s'.frames && f in s.frames
            && (g != f ==>
                  s'.frames[g] == s.frames[g].(ordinal := s.frames[g].ordinal
                                   + (if Nearest(below, space) == FrameSlot(g) then 1 else 0)))
            && s'.frames[f] == s.frames[f].(place := Inactive, slot := NoSlot, ordinal := 0)
            && (Nearest(below, space).FrameSlot? ==> s'.stack == below)
            && (Nearest(below, space).NoSlot? && below != [] ==>
                  Top(below).Sc? && Top(below).scope.useLocal && Top(below).scope.space == space
                  && s'.stack == Below(below) + [Sc(Top(below).scope.(local := Top(below).scope.local + 1))])
            && (forall sp :: sp in s.spaces ==>
                  && sp in s'.spaces
                  && s'.spaces[sp].root == s.spaces[sp].root + (if below == [] && sp == s.base then 1 else 0))
  {
    LeaveIs(s);
    SlotMeaning(s.frames, Below(s.stack), s.base);
  }

  /** Direct activations of f's own space finished under f since its instruction began: the events are
      read backwards to the boundary or activation of f, and no pointer is consulted. */
  ghost function FinishedUnder(states: seq<State>, events: seq<Event>, i: nat, f: FrameId): nat
    requires |states| == |events| + 1 && i < |states|
  {
    if i == 0 then 0
    else
      var s := states[i - 1];
      match events[i - 1]
      case Call(g) => if g == f then 0 else FinishedUnder(states, events, i - 1, f)
      case Resume(g) => if g == f then 0 else FinishedUnder(states, events, i - 1, f)
      case Begin(_) =>
        if s.stack != [] && Top(s.stack).Fr? && Top(s.stack).frame == f then 0 else FinishedUnder(states, events, i - 1, f)
      case Leave =>
        var counted := s.stack != [] && Top(s.stack).Fr? && Nearest(Below(s.stack), Top(s.stack).space) == FrameSlot(f);
        FinishedUnder(states, events, i - 1, f) + (if counted then 1 else 0)
      case _ => FinishedUnder(states, events, i - 1, f)
  }

  lemma {:induction false} OrdinalCounts(states: seq<State>, events: seq<Event>, i: nat, f: FrameId)
    requires IsRun(states, events) && Initial(states[0]) && i < |states|
    requires OnStack(states[i].stack, f)
    ensures f in states[i].frames
    ensures states[i].frames[f].ordinal == FinishedUnder(states, events, i, f)
  {
    RunInv(states, events, i);
    OnStackOk(states[i].frames, states[i].stack, states[i].base, f);
    if i > 0 {
      RunStep(states, events, i - 1);
      OrdinalStep(states[i - 1], events[i - 1], f);
      if OnStack(states[i - 1].stack, f) {
        OrdinalCounts(states, events, i - 1, f);
      }
    }
  }

  /** One event changes the ordinal of an active frame only at its own activation or boundary, which
      clear it, and when a frame leaves whose nearest frame it is. */
  lemma {:induction false} OrdinalStep(s: State, e: Event, f: FrameId)
    requires Inv(s) && Enabled(s, e) && OnStack(Next(s, e).stack, f)
    ensures f in Next(s, e).frames
    ensures var s' := Next(s, e);
            match e
            case Call(g) => if g == f then s'.frames[f].ordinal == 0 else Kept(s, s', f)
            case Resume(g) => if g == f then s'.frames[f].ordinal == 0 else Kept(s, s', f)
            case Begin(_) => if Top(s.stack).frame == f then s'.frames[f].ordinal == 0 else Kept(s, s', f)
            case Leave =>
              && OnStack(s.stack, f) && f in s.frames
              && s'.frames[f].ordinal == s.frames[f].ordinal
                   + (if Nearest(Below(s.stack), Top(s.stack).space) == FrameSlot(f) then 1 else 0)
            case _ => Kept(s, s', f)
  {
    StepInv(s, e);
    var s' := Next(s, e);
    OnStackOk(s'.frames, s'.stack, s'.base, f);
    CurKnown(s.stack, s.spaces, s.base);
    if e.Leave? {
      LeaveIs(s);
      BumpInv(s.(stack := Below(s.stack)));
      LeaveCounts(s, f);
    } else if e.Call? || e.Resume? || e.Begin? || e.Jump? || e.EnterSpace? {
      assert Below(s'.stack) == if e.Begin? || e.Jump? then Below(s.stack) else s.stack;
    }
    if OnStack(s.stack, f) {
      OnStackOk(s.frames, s.stack, s.base, f);
    }
  }

  ghost predicate Kept(s: State, s': State, f: FrameId) {
    OnStack(s.stack, f) && f in s.frames && f in s'.frames && s'.frames[f].ordinal == s.frames[f].ordinal
  }

  /** A frame left active by another thread is taken over as new: nothing of its coordinates is kept, on
      activation or when this thread sees it leave. */
  lemma {:induction false} TakenOver(s: State, f: FrameId)
    requires f in s.frames && s.frames[f].place.Elsewhere?
    ensures var lasti := s.frames[f].lasti;
            && (s.current in s.spaces ==> Activate(s, f).frames[f] == FrameRec(0, lasti, 0, s.slot, In(s.current), Unset))
            && Deactivate(s, f) == s.(frames := s.frames[f := FrameRec(0, lasti, 0, NoSlot, Inactive, Unset)])
  {
  }

  /** Leaving a frame that is no longer active, or activating one that is, does nothing. */
  lemma {:induction false} RepeatedHooks(s: State, f: FrameId)
    requires f in s.frames
    ensures Deactivate(Deactivate(s, f), f) == Deactivate(s, f)
    ensures s.current in s.spaces ==> Activate(Activate(s, f), f) == Activate(s, f)
  {
  }
}
