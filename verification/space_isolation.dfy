/** Space isolation: a body run in one space leaves every other space alone, and entering and leaving a
    space restores the thread (retracemodule.c:794-859). */
module SpaceIsolation {
  import opened CoordinateMachine
  import opened SlotDiscipline
  import opened CoordinateOrder
  import opened CoordinateHash
  import opened DeltaStream

  /** The event steps a frame of the space, opens or closes a scope of it, or queries its delta. */
  ghost predicate Steps(s: State, e: Event, space: SpaceId) {
    match e
    case Call(_) => s.current == space
    case Resume(_) => s.current == space
    case Leave => s.stack != [] && Top(s.stack).Fr? && Top(s.stack).space == space
    case Begin(_) => s.stack != [] && Top(s.stack).Fr? && Top(s.stack).space == space
    case Jump(_) => s.stack != [] && Top(s.stack).Fr? && Top(s.stack).space == space
    case EnterSpace(sp) => sp == space
    case LeaveSpace => s.stack != [] && Top(s.stack).Sc? && Top(s.stack).scope.space == space
    case Query(sp) => sp == space
    case Foreign(_, _) => false
    case ResetCache(_) => false
  }

  /** Everything the engine stores for a space is the same: its record, its active frames, and every
      word of those frames, the delta cache included. */
  ghost predicate SameSpace(s: State, s': State, space: SpaceId) {
    && (space in s.spaces <==> space in s'.spaces)
    && (space in s.spaces ==> s'.spaces[space] == s.spaces[space])
    && Frames(s'.stack, space) == Frames(s.stack, space)
    && forall f :: f in Frames(s.stack, space) ==> f in s.frames && f in s'.frames && s'.frames[f] == s.frames[f]
  }

  lemma {:induction false} StepKeepsSpace(s: State, e: Event, space: SpaceId)
    requires Inv(s) && Enabled(s, e) && !Steps(s, e, space)
    ensures SameSpace(s, Next(s, e), space)
  {
    var s' := Next(s, e);
    VectorWords(s.frames, s.stack, s.base, space);
    CurKnown(s.stack, s.spaces, s.base);
    match e
    case Call(_) => EntryKeepsSpace(s, e, space);
    case Resume(_) => EntryKeepsSpace(s, e, space);
    case EnterSpace(_) => assert Below(s'.stack) == s.stack;
    case Begin(_) => assert Below(s'.stack) == Below(s.stack);
    case Jump(_) => assert Below(s'.stack) == Below(s.stack);
    case Leave => LeaveKeepsSpace(s, space);
    case LeaveSpace =>
    case _ => AsideKeepsSpace(s, e, space);
  }

  lemma {:induction false} EntryKeepsSpace(s: State, e: Event, space: SpaceId)
    requires Inv(s) && Enabled(s, e) && !Steps(s, e, space) && (e.Call? || e.Resume?)
    ensures SameSpace(s, Next(s, e), space)
  {
    VectorWords(s.frames, s.stack, s.base, space);
    CurKnown(s.stack, s.spaces, s.base);
    assert Below(Next(s, e).stack) == s.stack;
  }

  lemma {:induction false} AsideKeepsSpace(s: State, e: Event, space: SpaceId)
    requires Inv(s) && Enabled(s, e) && !Steps(s, e, space) && (e.Query? || e.Foreign? || e.ResetCache?)
    ensures SameSpace(s, Next(s, e), space)
  {
    VectorWords(s.frames, s.stack, s.base, space);
    if e.Query? {
      VectorWords(s.frames, s.stack, s.base, e.space);
    }
    var s' := Next(s, e);
    forall f | f in Frames(s.stack, space)
      ensures f in s.frames && f in s'.frames && s'.frames[f] == s.frames[f]
    {
      assert OnStack(s.stack, f) && s.frames[f].place == In(space);
    }
  }

  lemma {:induction false} LeaveKeepsSpace(s: State, space: SpaceId)
    requires Inv(s) && Enabled(s, Leave) && Top(s.stack).space != space
    ensures SameSpace(s, Next(s, Leave), space)
  {
    var below := Below(s.stack);
    VectorWords(s.frames, below, s.base, space);
    LeaveIs(s);
    SlotMeaning(s.frames, below, s.base);
    NearestPlace(s.frames, below, s.base, Top(s.stack).space);
    BumpFrames(s.(stack := below), space);
  }

  lemma {:induction false} EventKeepsSpace(states: seq<State>, events: seq<Event>, k: nat, space: SpaceId)
    requires IsRun(states, events) && Initial(states[0]) && k < |events|
    requires !Steps(states[k], events[k], space)
    ensures SameSpace(states[k], states[k + 1], space)
  {
    RunStep(states, events, k);
    StepKeepsSpace(states[k], events[k], space);
  }

  lemma {:induction false} SameSpaceTransitive(a: State, b: State, c: State, space: SpaceId)
    requires SameSpace(a, b, space) && SameSpace(b, c, space)
    ensures SameSpace(a, c, space)
  {
  }

  lemma {:induction false} RunKeepsSpace(states: seq<State>, events: seq<Event>, i: nat, j: nat, space: SpaceId)
    requires IsRun(states, events) && Initial(states[0]) && i <= j < |states|
    requires forall k :: i <= k < j ==> !Steps(states[k], events[k], space)
    ensures SameSpace(states[i], states[j], space)
    decreases j - i
  {
    if i == j {
      RunInv(states, events, i);
      VectorWords(states[i].frames, states[i].stack, states[i].base, space);
    } else {
      RunKeepsSpace(states, events, i, j - 1, space);
      EventKeepsSpace(states, events, j - 1, space);
      SameSpaceTransitive(states[i], states[j - 1], states[j], space);
    }
  }

  /** What a caller can read of an untouched space is unchanged: coordinates, delta and hash. */
  lemma {:induction false} SameReadings(s: State, s': State, space: SpaceId, mix: CoordinateHash.Mixer, rootHash: Bits.Word)
    requires Inv(s) && Inv(s') && SameSpace(s, s', space)
    ensures Vector(s'.frames, s'.stack, space) == Vector(s.frames, s.stack, space)
    ensures DeltaOf(s', space) == DeltaOf(s, space)
    ensures space in s.spaces ==>
              var seed := RootHash(mix, rootHash, s.spaces[space].root);
              ChainHash(mix, s'.frames, s'.stack, space, seed) == ChainHash(mix, s.frames, s.stack, space, seed)
  {
    var v, v' := Vector(s.frames, s.stack, space), Vector(s'.frames, s'.stack, space);
    var active := Frames(s.stack, space);
    VectorWords(s.frames, s.stack, s.base, space);
    VectorWords(s'.frames, s'.stack, s'.base, space);
    forall p | 0 <= p < |v|
      ensures v'[p] == v[p]
    {
      assert active[p / 2] in active;
      assert p == 2 * (p / 2) || p == 2 * (p / 2) + 1;
    }
    assert v' == v;
    CommonWordsSame(s.frames, s'.frames, active, space);
    if space in s.spaces {
      HashIsFold(mix, s.frames, s.stack, space, rootHash, s.spaces[space].root);
      HashIsFold(mix, s'.frames, s'.stack, space, rootHash, s.spaces[space].root);
    }
  }

  /** A query with the space left alone since the last one counts every word and sends none. */
  lemma {:induction false} NothingNew(states: seq<State>, events: seq<Event>, i: nat, j: nat, space: SpaceId)
    requires IsRun(states, events) && Initial(states[0]) && i < j < |states|
    requires events[i] == Query(space) && DeltaOf(states[i], space).Change?
    requires forall k :: i < k < j ==> !Steps(states[k], events[k], space)
    ensures DeltaOf(states[j], space) == Change(|Vector(states[i].frames, states[i].stack, space)|, [])
  {
    RunStep(states, events, i);
    RunInv(states, events, i + 1);
    RunInv(states, events, j);
    RepeatedQuery(states[i], space);
    RunKeepsSpace(states, events, i + 1, j, space);
    SameDelta(states[i + 1], states[j], space);
  }

  lemma {:induction false} SameDelta(s: State, s': State, space: SpaceId)
    requires Inv(s) && Inv(s') && SameSpace(s, s', space)
    ensures DeltaOf(s', space) == DeltaOf(s, space)
  {
    SameReadings(s, s', space, (_, _) => 0, 0);
  }

  lemma {:induction false} CommonWordsSame(frames: map<FrameId, FrameRec>, frames': map<FrameId, FrameRec>, active: seq<FrameId>, space: SpaceId)
    requires forall f :: f in active ==> f in frames && f in frames' && frames'[f] == frames[f]
    ensures CommonWords(frames', active, space) == CommonWords(frames, active, space)
  {
    if active != [] {
      CommonWordsSame(frames, frames', active[..|active| - 1], space);
    }
  }

  // ------------------------------------------------------------------ depth

  /** The depth of a space is the number of its active frames. */
  ghost predicate DepthOk(s: State, space: SpaceId) {
    if space in s.spaces then s.spaces[space].depth == |Frames(s.stack, space)| else Frames(s.stack, space) == []
  }

  lemma {:induction false} DepthStep(s: State, e: Event, space: SpaceId)
    requires Inv(s) && Enabled(s, e) && DepthOk(s, space) && |Frames(Next(s, e).stack, space)| <= UINT32_MAX
    ensures DepthOk(Next(s, e), space)
  {
    match e
    case Call(f) =>
      CallInv(s, f);
      PushDepth(s.(frames := s.frames[f := FRESH_FRAME]), f, space);
    case Resume(f) => PushDepth(s, f, space);
    case Leave => LeaveDepth(s, space);
    case Begin(_) => assert Below(Next(s, e).stack) == Below(s.stack);
    case Jump(_) => assert Below(Next(s, e).stack) == Below(s.stack);
    case EnterSpace(sp) => EnterIs(s, sp);
    case _ =>
  }

  lemma {:induction false} PushDepth(s: State, f: FrameId, space: SpaceId)
    requires Inv(s) && f in s.frames && !OnStack(s.stack, f)
    requires DepthOk(s, space) && |Frames(Push(s, f).stack, space)| <= UINT32_MAX
    ensures DepthOk(Push(s, f), space)
  {
    CurKnown(s.stack, s.spaces, s.base);
    assert RecOk(s, f);
    assert Below(Push(s, f).stack) == s.stack;
  }

  lemma {:induction false} LeaveDepth(s: State, space: SpaceId)
    requires Inv(s) && Enabled(s, Leave) && DepthOk(s, space)
    ensures DepthOk(Next(s, Leave), space)
  {
    LeaveIs(s);
    SlotMeaning(s.frames, Below(s.stack), s.base);
    BumpFrames(s.(stack := Below(s.stack)), space);
  }

  /** In any run in which the counter does not saturate, the depth of a space is the number of its frames
      that are active. */
  lemma {:induction false} DepthCounts(states: seq<State>, events: seq<Event>, i: nat, space: SpaceId)
    requires IsRun(states, events) && Initial(states[0]) && i < |states|
    requires forall k :: 0 <= k <= i ==> |Frames(states[k].stack, space)| <= UINT32_MAX
    ensures DepthOk(states[i], space)
  {
    if i > 0 {
      DepthCounts(states, events, i - 1, space);
      RunStep(states, events, i - 1);
      DepthStep(states[i - 1], events[i - 1], space);
    }
  }

  // ------------------------------------------------------------------ brackets

  /** Events i to j are one run_in_space call: a scope is opened at i, stays open, and is closed at j. */
  ghost predicate Bracket(states: seq<State>, events: seq<Event>, i: nat, j: nat) {
    && IsRun(states, events) && i < j < |events|
    && events[i].EnterSpace? && events[j] == LeaveSpace
    && |states[j].stack| == |states[i].stack| + 1
    && forall k :: i < k <= j ==> |states[k].stack| > |states[i].stack|
  }

  /** While the scope is open nothing below it changes, and its own record only counts. */
  ghost predicate ScopeHeld(s: State, s': State) {
    var h := |s.stack|;
    && h < |s'.stack| && s'.stack[..h] == s.stack && s'.stack[h].Sc?
    && var scope := s'.stack[h].scope;
    && scope.prevSpace == s.current && scope.prevSlot == s.slot && scope.local >= scope.initial
  }

  lemma {:induction false} StepHoldsScope(s0: State, s: State, e: Event)
    requires Inv(s) && Enabled(s, e) && ScopeHeld(s0, s) && |Next(s, e).stack| > |s0.stack|
    ensures ScopeHeld(s0, Next(s, e))
    ensures var h := |s0.stack|;
            var scope, scope' := s.stack[h].scope, Next(s, e).stack[h].scope;
            scope' == scope.(local := scope'.local) && scope'.local >= scope.local
  {
    CurKnown(s.stack, s.spaces, s.base);
    var s', h := Next(s, e), |s0.stack|;
    if e.Leave? {
      LeaveIs(s);
      SlotMeaning(s.frames, Below(s.stack), s.base);
    }
    assert s'.stack[..h] == s.stack[..h];
  }

  lemma {:induction false} OpenHoldsScope(s: State, space: SpaceId)
    requires Inv(s) && Enabled(s, EnterSpace(space))
    ensures ScopeHeld(s, Next(s, EnterSpace(space)))
  {
    assert Next(s, EnterSpace(space)).stack[..|s.stack|] == s.stack;
  }

  ghost function ScopeAt(s: State, h: nat): Scope
    requires h < |s.stack| && s.stack[h].Sc?
  {
    s.stack[h].scope
  }

  /** The scope opened from s0, as first pushed in s1, is still the item at its height in s. */
  ghost predicate SameScope(s0: State, s1: State, s: State) {
    && ScopeHeld(s0, s1) && ScopeHeld(s0, s)
    && ScopeAt(s, |s0.stack|) == ScopeAt(s1, |s0.stack|).(local := ScopeAt(s, |s0.stack|).local)
  }

  lemma {:induction false} BodyStep(s0: State, s1: State, s: State, e: Event, s': State)
    requires Inv(s) && Enabled(s, e) && SameScope(s0, s1, s) && s' == Next(s, e) && |s'.stack| > |s0.stack|
    ensures SameScope(s0, s1, s')
  {
    StepHoldsScope(s0, s, e);
  }

  /** One step of a run, as a fact that mentions no transition. */
  lemma {:induction false} BodyEvent(states: seq<State>, events: seq<Event>, i: nat, k: nat)
    requires IsRun(states, events) && Initial(states[0]) && i < k < |events|
    requires SameScope(states[i], states[i + 1], states[k]) && |states[k + 1].stack| > |states[i].stack|
    ensures SameScope(states[i], states[i + 1], states[k + 1])
  {
    RunStep(states, events, k);
    BodyStep(states[i], states[i + 1], states[k], events[k], states[k + 1]);
  }

  lemma {:induction false} BodyHoldsScope(states: seq<State>, events: seq<Event>, i: nat, k: nat)
    requires IsRun(states, events) && Initial(states[0]) && i < k < |states|
    requires SameScope(states[i], states[i + 1], states[i + 1])
    requires forall m :: i < m <= k ==> |states[m].stack| > |states[i].stack|
    ensures SameScope(states[i], states[i + 1], states[k])
  {
    if k > i + 1 {
      BodyHoldsScope(states, events, i, k - 1);
      BodyEvent(states, events, i, k - 1);
    }
  }

  /** The scope opened at i is on top again when it closes at j. */
  lemma {:induction false} BracketCloses(states: seq<State>, events: seq<Event>, i: nat, j: nat)
    requires Bracket(states, events, i, j) && Initial(states[0])
    ensures SameScope(states[i], states[i + 1], states[j]) && Below(states[j].stack) == states[i].stack
    ensures Top(states[j].stack) == Sc(ScopeAt(states[j], |states[i].stack|))
  {
    RunStep(states, events, i);
    OpenHoldsScope(states[i], events[i].space);
    BodyHoldsScope(states, events, i, j);
  }

  /** A bracket restores the thread, and raises the root count of a space with nothing active. */
  lemma {:induction false} BracketRestores(states: seq<State>, events: seq<Event>, i: nat, j: nat)
    requires Bracket(states, events, i, j) && Initial(states[0])
    ensures var s, s', target := states[i], states[j + 1], events[i].space;
            && s'.stack == s.stack && s'.current == s.current && s'.slot == s.slot
            && target in s'.spaces
            && (Nearest(s.stack, target) == NoSlot ==> s'.spaces[target].root > CoordinateOrder.Stored(s.spaces, target))
  {
    RunStep(states, events, i);
    RunStep(states, events, j);
    BracketCloses(states, events, i, j);
  }

  /** A bracketed run in a space restores the thread's stack, space and ordinal pointer; if the space
      had no active frame its stored root count ends strictly above where it began; and every other
      space that the body does not step is exactly as it was. */
  lemma {:induction false} BracketIsolates(states: seq<State>, events: seq<Event>, i: nat, j: nat, other: SpaceId)
    requires Bracket(states, events, i, j) && Initial(states[0])
    ensures var s, s', target := states[i], states[j + 1], events[i].space;
            && s'.stack == s.stack && s'.current == s.current && s'.slot == s.slot
            && target in s'.spaces
            && (Nearest(s.stack, target) == NoSlot ==> s'.spaces[target].root > CoordinateOrder.Stored(s.spaces, target))
            && (other != target && (forall k :: i < k < j ==> !Steps(states[k], events[k], other)) ==>
                  SameSpace(s, s', other))
  {
    BracketRestores(states, events, i, j);
    if other != events[i].space && forall k :: i < k < j ==> !Steps(states[k], events[k], other) {
      BracketCloses(states, events, i, j);
      OpenedSpace(states, events, i);
      RunKeepsSpace(states, events, i, j + 1, other);
    }
  }

  lemma {:induction false} OpenedSpace(states: seq<State>, events: seq<Event>, i: nat)
    requires IsRun(states, events) && Initial(states[0]) && i < |events| && events[i].EnterSpace?
    ensures ScopeHeld(states[i], states[i + 1]) && ScopeAt(states[i + 1], |states[i].stack|).space == events[i].space
  {
    RunStep(states, events, i);
    OpenHoldsScope(states[i], events[i].space);
  }
}
