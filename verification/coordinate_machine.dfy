/** The per-thread coordinate engine as a state machine (pycore_retrace.h:145-160, 855-982;
    retracemodule.c:794-859): the words the engine stores, and the effect of each hook on them. */
module CoordinateMachine {

  type FrameId = nat
  type SpaceId = nat

  const UINT32_MAX: nat := 0xffff_ffff

  /** An ordinal slot, the target of a `uint64_t *`: a frame's counter, a space's root counter, or the
      local counter of the run_in_space scope at the given height of the control stack. */
  datatype Slot = NoSlot | FrameSlot(frame: FrameId) | RootSlot(space: SpaceId) | LocalSlot(height: nat)

  /** The space pointer of a frame: null, one of this thread's spaces, or another thread's. */
  datatype Place = Inactive | In(space: SpaceId) | Elsewhere

  /** The words last emitted for a frame; unset also stands for words emitted to another thread. */
  datatype Cache = Unset | Words(space: SpaceId, instruction: nat, ordinal: nat)

  datatype FrameRec = FrameRec(bias: int, lasti: int, ordinal: nat, slot: Slot, place: Place, cache: Cache)

  datatype DeltaRoot = NoDelta | At(root: nat)

  datatype SpaceRec = SpaceRec(seen: bool, depth: nat, root: nat, deltaRoot: DeltaRoot)

  datatype Scope = Scope(
    prevSpace: SpaceId,
    prevSlot: Slot,
    space: SpaceId,
    initial: nat,
    local: nat,
    useLocal: bool)

  /** A frame on the control stack has been activated but not begun an instruction, is in the middle
      of one, or has jumped and is about to begin at the target: from an instruction it began, or, when
      an exception is thrown into a suspended frame, from the one it was suspended at. */
  datatype Mode = Entered | Ready | Jumped(to: nat) | Thrown(to: nat)

  datatype Item = Fr(frame: FrameId, space: SpaceId, mode: Mode) | Sc(scope: Scope)

  datatype State = State(
    frames: map<FrameId, FrameRec>,
    spaces: map<SpaceId, SpaceRec>,
    stack: seq<Item>,
    current: SpaceId,
    slot: Slot,
    base: SpaceId)

  const FRESH_FRAME := FrameRec(0, -1, 0, NoSlot, Inactive, Unset)
  const FRESH_SPACE := SpaceRec(false, 0, 0, NoDelta)

  function Reinit(fr: FrameRec): FrameRec {
    FrameRec(0, fr.lasti, 0, NoSlot, Inactive, Unset)
  }

  /** The instruction coordinate; negative sums read as zero. */
  function Coordinate(fr: FrameRec): nat {
    if fr.bias + fr.lasti <= 0 then 0 else fr.bias + fr.lasti
  }

  function Below(stack: seq<Item>): seq<Item>
    requires stack != []
  {
    stack[..|stack| - 1]
  }

  function Top(stack: seq<Item>): Item
    requires stack != []
  {
    stack[|stack| - 1]
  }

  /** The nearest frame of a space, looking down from the top. */
  function Nearest(stack: seq<Item>, space: SpaceId): Slot
    ensures Nearest(stack, space).NoSlot? || Nearest(stack, space).FrameSlot?
  {
    if stack == [] then NoSlot
    else if Top(stack).Fr? && Top(stack).space == space then FrameSlot(Top(stack).frame)
    else Nearest(Below(stack), space)
  }

  // ------------------------------------------------------------------ hooks

  /** `++*slot` */
  function Bump(s: State, slot: Slot): State {
    match slot
    case NoSlot => s
    case FrameSlot(g) =>
      if g in s.frames then s.(frames := s.frames[g := s.frames[g].(ordinal := s.frames[g].ordinal + 1)]) else s
    case RootSlot(sp) =>
      if sp in s.spaces then s.(spaces := s.spaces[sp := s.spaces[sp].(root := s.spaces[sp].root + 1)]) else s
    case LocalSlot(h) =>
      if h < |s.stack| && s.stack[h].Sc? then
        s.(stack := s.stack[h := Sc(s.stack[h].scope.(local := s.stack[h].scope.local + 1))])
      else s
  }

  function Activate(s: State, f: FrameId): State
    requires f in s.frames && s.current in s.spaces
  {
    if s.frames[f].place.In? then s
    else
      var fr := if s.frames[f].place.Elsewhere? then Reinit(s.frames[f]) else s.frames[f];
      var sp := s.spaces[s.current];
      s.(frames := s.frames[f := fr.(place := In(s.current), ordinal := 0, slot := s.slot)],
         spaces := s.spaces[s.current := sp.(seen := true, depth := if sp.depth != UINT32_MAX then sp.depth + 1 else sp.depth)],
         slot := FrameSlot(f))
  }

  function DropDepth(s: State, space: SpaceId): State {
    if space in s.spaces && s.spaces[space].depth > 0 then
      s.(spaces := s.spaces[space := s.spaces[space].(depth := s.spaces[space].depth - 1)])
    else s
  }

  function Detach(fr: FrameRec): FrameRec {
    fr.(place := Inactive, slot := NoSlot, ordinal := 0)
  }

  function Deactivate(s: State, f: FrameId): State
    requires f in s.frames
  {
    var fr := s.frames[f];
    match fr.place
    case Inactive => s
    case Elsewhere => s.(frames := s.frames[f := Reinit(fr)])
    case In(space) =>
      var s1 := DropDepth(Bump(s, fr.slot), space);
      s1.(frames := s1.frames[f := Detach(fr)],
          slot := var slot := if s.slot == FrameSlot(f) then fr.slot else s.slot;
          if slot == NoSlot then RootSlot(s.current) else slot)
  }

  /** The counter reset at an instruction boundary, the frame's position being `offset`. */
  function BeginAt(fr: FrameRec, offset: nat): FrameRec {
    fr.(lasti := offset, ordinal := 0)
  }

  /** `coordinate_bias` is moved so that the target reads one more than the source. */
  function JumpTo(fr: FrameRec, from: int, to: int): FrameRec {
    fr.(bias := fr.bias + from + 1 - to)
  }

  function GetSpace(s: State, space: SpaceId): State {
    if space in s.spaces then s else s.(spaces := s.spaces[space := FRESH_SPACE])
  }

  function Enter(s: State, space: SpaceId): State {
    var s1 := GetSpace(s, space);
    var parent := Nearest(s.stack, space);
    var root := s1.spaces[space].root;
    if parent.FrameSlot? then
      s1.(stack := s.stack + [Sc(Scope(s.current, s.slot, space, 0, 0, false))], current := space, slot := parent)
    else
      s1.(stack := s.stack + [Sc(Scope(s.current, s.slot, space, root, root, true))], current := space, slot := LocalSlot(|s.stack|))
  }

  function FinalLocal(scope: Scope): nat {
    if scope.local == scope.initial then scope.local + 1 else scope.local
  }

  function Exit(s: State): State
    requires s.stack != [] && Top(s.stack).Sc?
  {
    var scope := Top(s.stack).scope;
    var spaces :=
      if scope.useLocal && scope.space in s.spaces then
        s.spaces[scope.space := s.spaces[scope.space].(root := FinalLocal(scope))]
      else s.spaces;
    s.(spaces := spaces, stack := Below(s.stack), current := scope.prevSpace, slot := scope.prevSlot)
  }

  // ------------------------------------------------------------------ coordinates and deltas

  /** The vector coordinates() returns for a space: a pair per active frame, oldest first. */
  function Vector(frames: map<FrameId, FrameRec>, stack: seq<Item>, space: SpaceId): seq<nat> {
    if stack == [] then []
    else
      var below := Vector(frames, Below(stack), space);
      match Top(stack)
      case Fr(f, sp, _) => if sp == space && f in frames then below + Pair(frames[f]) else below
      case Sc(_) => below
  }

  function Pair(fr: FrameRec): seq<nat> {
    [Coordinate(fr), fr.ordinal]
  }

  function Frames(stack: seq<Item>, space: SpaceId): seq<FrameId> {
    if stack == [] then []
    else if Top(stack).Fr? && Top(stack).space == space then Frames(Below(stack), space) + [Top(stack).frame]
    else Frames(Below(stack), space)
  }

  /** Leading words of a frame's pair that equal the words last emitted for it in this space. */
  function Remembered(fr: FrameRec, space: SpaceId): nat {
    if !fr.cache.Words? || fr.cache.space != space || fr.cache.instruction != Coordinate(fr) then 0
    else if fr.cache.ordinal != fr.ordinal then 1
    else 2
  }

  /** Length of the longest run of leading words, over the given frames, that are all remembered. */
  function CommonWords(frames: map<FrameId, FrameRec>, active: seq<FrameId>, space: SpaceId): nat {
    if active == [] then 0
    else
      var n := |active| - 1;
      var below := CommonWords(frames, active[..n], space);
      if below == 2 * n && active[n] in frames then below + Remembered(frames[active[n]], space) else below
  }

  function DeltaCount(s: State, space: SpaceId): nat {
    if space in s.spaces && s.spaces[space].deltaRoot == At(s.spaces[space].root)
    then CommonWords(s.frames, Frames(s.stack, space), space)
    else 0
  }

  /** A delta query remembers the words it emitted on the frames and on the space. */
  function AfterQuery(s: State, space: SpaceId): State {
    if space !in s.spaces || !s.spaces[space].seen then s
    else
      var active := Frames(s.stack, space);
      s.(frames := map f | f in s.frames :: if f in active then Emit(s.frames[f], space) else s.frames[f],
         spaces := s.spaces[space := s.spaces[space].(deltaRoot := At(s.spaces[space].root))])
  }

  function Emit(fr: FrameRec, space: SpaceId): FrameRec {
    fr.(cache := Words(space, Coordinate(fr), fr.ordinal))
  }

  // ------------------------------------------------------------------ events

  datatype Event =
    | Call(frame: FrameId)
    | Resume(frame: FrameId)
    | Leave
    | Begin(offset: nat)
    | Jump(target: nat)
    | EnterSpace(space: SpaceId)
    | LeaveSpace
    | Query(space: SpaceId)
    | Foreign(frame: FrameId, rec: FrameRec)
    | ResetCache(frame: FrameId)

  predicate OnStack(stack: seq<Item>, f: FrameId) {
    stack != [] && ((Top(stack).Fr? && Top(stack).frame == f) || OnStack(Below(stack), f))
  }

  predicate Pending(mode: Mode) {
    mode.Jumped? || mode.Thrown?
  }

  /** The least coordinate at which a frame can next begin an instruction. */
  function NextBegin(fr: FrameRec, mode: Mode): int {
    if Pending(mode) then fr.bias + mode.to else fr.bias + fr.lasti + 1
  }

  /** The current frame, if there is one, has begun an instruction at some time in its life. */
  predicate Placed(frames: map<FrameId, FrameRec>, stack: seq<Item>) {
    stack != [] && Top(stack).Fr? ==>
      Top(stack).frame in frames && NextBegin(frames[Top(stack).frame], Top(stack).mode) >= 1
  }

  /** A scope is open whose frames count on a local root slot of this space. */
  predicate LocalOpen(stack: seq<Item>, space: SpaceId) {
    stack != [] && ((Top(stack).Sc? && Top(stack).scope.useLocal && Top(stack).scope.space == space) || LocalOpen(Below(stack), space))
  }

  /** What other threads may do to a frame that is not on this thread's stack: run it further and
      emit its words, or leave it marked active elsewhere. */
  predicate ForeignOk(before: FrameRec, after: FrameRec) {
    && !after.place.In? && after.lasti >= -1 && after.bias + after.lasti >= -1
    && (after.cache == Unset
        || (after.cache == before.cache && after.bias + after.lasti >= before.bias + before.lasti))
  }

  /** When an event can happen: frames begin at increasing offsets or at a jump target, a frame jumps
      once before it begins there and does not return in between, and a frame that has never begun an
      instruction enters nothing. */
  predicate Enabled(s: State, e: Event) {
    match e
    case Call(f) => Placed(s.frames, s.stack) && !OnStack(s.stack, f)
    case Resume(f) => Placed(s.frames, s.stack) && !OnStack(s.stack, f) && f in s.frames
    case Leave => s.stack != [] && Top(s.stack).Fr? && !Pending(Top(s.stack).mode)
    case Begin(offset) =>
      && s.stack != [] && Top(s.stack).Fr? && Top(s.stack).frame in s.frames
      && if Pending(Top(s.stack).mode) then offset == Top(s.stack).mode.to else offset > s.frames[Top(s.stack).frame].lasti
    case Jump(_) => s.stack != [] && Top(s.stack).Fr? && !Pending(Top(s.stack).mode) && Top(s.stack).frame in s.frames
    case EnterSpace(_) => Placed(s.frames, s.stack)
    case LeaveSpace => s.stack != [] && Top(s.stack).Sc?
    case Query(_) => true
    case Foreign(f, rec) => !OnStack(s.stack, f) && f in s.frames && ForeignOk(s.frames[f], rec)
    case ResetCache(f) => !OnStack(s.stack, f) && f in s.frames
  }

  /** Links a frame into the chain and activates it. */
  function Push(s: State, f: FrameId): State
    requires f in s.frames
  {
    if s.current in s.spaces then
      var s1 := Activate(s, f);
      s1.(stack := s.stack + [Fr(f, s.current, Entered)])
    else s
  }

  function AfterJump(mode: Mode, target: nat): Mode {
    if mode.Entered? then Thrown(target) else Jumped(target)
  }

  function Next(s: State, e: Event): State
    requires Enabled(s, e)
  {
    match e
    case Call(f) => Push(s.(frames := s.frames[f := FRESH_FRAME]), f)
    case Resume(f) => Push(s, f)
    case Leave =>
      var f := Top(s.stack).frame;
      if f in s.frames then Deactivate(s.(stack := Below(s.stack)), f) else s
    case Begin(offset) =>
      var Fr(f, space, _) := Top(s.stack);
      s.(frames := s.frames[f := BeginAt(s.frames[f], offset)], stack := Below(s.stack) + [Fr(f, space, Ready)])
    case Jump(target) =>
      var Fr(f, space, mode) := Top(s.stack);
      var fr := s.frames[f];
      s.(frames := s.frames[f := JumpTo(fr, fr.lasti, target)], stack := Below(s.stack) + [Fr(f, space, AfterJump(mode, target))])
    case EnterSpace(space) => Enter(s, space)
    case LeaveSpace => Exit(s)
    case Query(space) => AfterQuery(s, space)
    case Foreign(f, rec) => s.(frames := s.frames[f := rec])
    case ResetCache(f) => s.(frames := s.frames[f := s.frames[f].(cache := Unset)])
  }

  /** A thread as seeded: no frames, its inherited space current, the root slot of that space. */
  predicate Initial(s: State) {
    && s.frames == map[] && s.stack == []
    && s.current == s.base && s.slot == RootSlot(s.base) && s.base in s.spaces
    && forall space :: space in s.spaces ==> s.spaces[space] == FRESH_SPACE
  }

  ghost predicate StepAt(states: seq<State>, events: seq<Event>, i: nat)
    requires |states| == |events| + 1 && i < |events|
  {
    Enabled(states[i], events[i]) && states[i + 1] == Next(states[i], events[i])
  }

  ghost predicate IsRun(states: seq<State>, events: seq<Event>) {
    |states| == |events| + 1 && forall i :: 0 <= i < |events| ==> StepAt(states, events, i)
  }
}
