/** Coordinates only move forward: at successive instruction boundaries of a space's frames the
    coordinate vector, with the space's root count in front, strictly increases in call_at's order. */
module CoordinateOrder {
  import opened Lexicographic
  import opened CoordinateMachine
  import opened SlotDiscipline

  /** The root count in force: that of the innermost open local scope of the space, else the root. */
  ghost function RootCount(spaces: map<SpaceId, SpaceRec>, stack: seq<Item>, space: SpaceId): nat {
    if stack == [] then (if space in spaces then spaces[space].root else 0)
    else if Top(stack).Sc? && Top(stack).scope.useLocal && Top(stack).scope.space == space then Top(stack).scope.local
    else RootCount(spaces, Below(stack), space)
  }

  /** What a frame contributes once it has begun an instruction: its position, which a pending jump
      does not move, and its ordinal. */
  ghost function SeenPair(fr: FrameRec, mode: Mode): seq<nat> {
    if NextBegin(fr, mode) >= 1 then [NextBegin(fr, mode) - 1, fr.ordinal] else []
  }

  ghost function Seen(frames: map<FrameId, FrameRec>, stack: seq<Item>, space: SpaceId): seq<nat> {
    if stack == [] then []
    else
      var below := Seen(frames, Below(stack), space);
      match Top(stack)
      case Fr(f, sp, mode) => if sp == space && f in frames then below + SeenPair(frames[f], mode) else below
      case Sc(_) => below
  }

  /** The position of a space in a state: its root count followed by the vector of its begun frames. */
  ghost function Position(s: State, space: SpaceId): seq<nat> {
    [RootCount(s.spaces, s.stack, space)] + Seen(s.frames, s.stack, space)
  }

  /** A frame reads its own position: it has begun an instruction, and if it is about to begin at a
      jump target that target is the next instruction, or both its sums read as zero. */
  ghost predicate ReadsTrue(fr: FrameRec, mode: Mode) {
    && NextBegin(fr, mode) >= 1
    && (Pending(mode) ==> fr.lasti + 1 == mode.to || (fr.bias + mode.to == 1 && fr.bias + fr.lasti <= 0))
  }

  /** Every active frame of the space reads its own position. */
  ghost predicate Legible(frames: map<FrameId, FrameRec>, stack: seq<Item>, space: SpaceId) {
    stack != [] ==>
      && Legible(frames, Below(stack), space)
      && match Top(stack)
         case Fr(f, sp, mode) => sp == space && f in frames ==> ReadsTrue(frames[f], mode)
         case Sc(_) => true
  }

  lemma {:induction false} PairReads(fr: FrameRec, mode: Mode)
    ensures Pair(fr) == SeenPair(fr, mode) <==> ReadsTrue(fr, mode)
  {
    assert Pair(fr)[0] == Coordinate(fr);
  }

  lemma {:induction false} SameTail(a: seq<nat>, b: seq<nat>, p: seq<nat>, q: seq<nat>)
    requires |a| <= |b| && |p| <= |q|
    ensures a + p == b + q <==> a == b && p == q
  {
    if a + p == b + q {
      assert |a + p| == |b + q|;
      assert a == (a + p)[..|a|] && p == (a + p)[|a|..];
    }
  }

  /** What coordinates() returns is what has been seen exactly when every frame reads its position. */
  lemma {:induction false} SeenExact(frames: map<FrameId, FrameRec>, stack: seq<Item>, space: SpaceId)
    ensures |Seen(frames, stack, space)| <= |Vector(frames, stack, space)|
    ensures Seen(frames, stack, space) == Vector(frames, stack, space) <==> Legible(frames, stack, space)
  {
    if stack != [] {
      SeenExact(frames, Below(stack), space);
      if Top(stack).Fr? && Top(stack).space == space && Top(stack).frame in frames {
        var fr, mode := frames[Top(stack).frame], Top(stack).mode;
        PairReads(fr, mode);
        SameTail(Seen(frames, Below(stack), space), Vector(frames, Below(stack), space), SeenPair(fr, mode), Pair(fr));
      }
    }
  }

  lemma {:induction false} SeenFrame(frames: map<FrameId, FrameRec>, frames': map<FrameId, FrameRec>, stack: seq<Item>, base: SpaceId, space: SpaceId)
    requires StackOk(frames, stack, base)
    requires forall f :: f in frames && OnStack(stack, f) && frames[f].place == In(space) ==>
               && f in frames'
               && frames'[f].bias == frames[f].bias && frames'[f].lasti == frames[f].lasti
               && frames'[f].ordinal == frames[f].ordinal
    ensures Seen(frames', stack, space) == Seen(frames, stack, space)
  {
    if stack != [] {
      SeenFrame(frames, frames', Below(stack), base, space);
      if Top(stack).Fr? && Top(stack).space == space {
        var f := Top(stack).frame;
        assert f in frames && OnStack(stack, f) && frames[f].place == In(space);
      }
    }
  }

  /** Counting on the nearest frame of the space raises the last word of what is seen. */
  lemma {:induction false} SeenBump(frames: map<FrameId, FrameRec>, stack: seq<Item>, base: SpaceId, space: SpaceId, g: FrameId)
    requires StackOk(frames, stack, base) && Nearest(stack, space) == FrameSlot(g)
    requires g in frames && NextAt(stack, g, frames[g]) >= 1
    ensures Seen(frames, stack, space) != []
    ensures var v := Seen(frames, stack, space);
            var n := |v| - 1;
            Seen(frames[g := frames[g].(ordinal := frames[g].ordinal + 1)], stack, space) == v[..n] + [v[n] + 1]
  {
    NearestPlace(frames, stack, base, space);
    var frames' := frames[g := frames[g].(ordinal := frames[g].ordinal + 1)];
    if Top(stack).Fr? && Top(stack).space == space {
      SeenFrame(frames, frames', Below(stack), base, space);
      var below, mode := Seen(frames, Below(stack), space), Top(stack).mode;
      assert Seen(frames, stack, space) == below + SeenPair(frames[g], mode);
      assert Seen(frames', stack, space) == below + SeenPair(frames'[g], mode);
    } else {
      NearestOnStack(Below(stack), space);
      SeenBump(frames, Below(stack), base, space, g);
    }
  }

  lemma {:induction false} NothingSeen(frames: map<FrameId, FrameRec>, stack: seq<Item>, space: SpaceId)
    requires Nearest(stack, space) == NoSlot
    ensures Seen(frames, stack, space) == []
  {
    if stack != [] {
      NothingSeen(frames, Below(stack), space);
    }
  }

  lemma {:induction false} RootCountFrame(spaces: map<SpaceId, SpaceRec>, spaces': map<SpaceId, SpaceRec>, stack: seq<Item>, space: SpaceId)
    requires space in spaces ==> space in spaces' && spaces'[space].root == spaces[space].root
    requires space !in spaces ==> space in spaces' ==> spaces'[space].root == 0
    ensures RootCount(spaces', stack, space) == RootCount(spaces, stack, space)
  {
    if stack != [] {
      RootCountFrame(spaces, spaces', Below(stack), space);
    }
  }

  lemma {:induction false} RootCountClosed(spaces: map<SpaceId, SpaceRec>, stack: seq<Item>, space: SpaceId)
    requires !LocalOpen(stack, space)
    ensures RootCount(spaces, stack, space) == if space in spaces then spaces[space].root else 0
  {
    if stack != [] {
      RootCountClosed(spaces, Below(stack), space);
    }
  }

  // ------------------------------------------------------------------ one event

  lemma {:induction false} PushPosition(s: State, f: FrameId, space: SpaceId)
    requires Inv(s) && !OnStack(s.stack, f) && f in s.frames
    ensures Position(Push(s, f), space)
            == Position(s, space) + if s.current == space then SeenPair(Push(s, f).frames[f], Entered) else []
  {
    CurKnown(s.stack, s.spaces, s.base);
    var s' := Push(s, f);
    assert Below(s'.stack) == s.stack;
    SeenFrame(s.frames, s'.frames, s.stack, s.base, space);
    RootCountFrame(s.spaces, s'.spaces, s.stack, space);
    var r, v := RootCount(s.spaces, s.stack, space), Seen(s.frames, s.stack, space);
    var w := if s.current == space then SeenPair(s'.frames[f], Entered) else [];
    assert Seen(s'.frames, s'.stack, space) == v + w;
    assert [r] + (v + w) == [r] + v + w;
  }

  lemma {:induction false} PushForwards(s: State, f: FrameId, space: SpaceId)
    requires Inv(s) && !OnStack(s.stack, f) && f in s.frames
    ensures LexLeq(Position(s, space), Position(Push(s, f), space))
  {
    PushPosition(s, f, space);
    LexExtend(Position(s, space), if s.current == space then SeenPair(Push(s, f).frames[f], Entered) else []);
  }

  lemma {:induction false} CallPosition(s: State, f: FrameId, space: SpaceId)
    requires Inv(s) && !OnStack(s.stack, f)
    ensures Position(s.(frames := s.frames[f := FRESH_FRAME]), space) == Position(s, space)
  {
    SeenFrame(s.frames, s.frames[f := FRESH_FRAME], s.stack, s.base, space);
  }

  /** What counting on the slot of a stack does to the root count and to what is seen of the space
      that slot belongs to. */
  lemma {:induction false} BumpSeen(s: State, space: SpaceId)
    requires StackOk(s.frames, s.stack, s.base) && s.base in s.spaces && Cur(s.stack, s.base) == space
    requires forall g :: g in s.frames && OnStack(s.stack, g) ==> NextAt(s.stack, g, s.frames[g]) >= 1
    ensures var s' := Bump(s, SlotOf(s.stack, s.base));
            var r, r' := RootCount(s.spaces, s.stack, space), RootCount(s'.spaces, s'.stack, space);
            var v, v' := Seen(s.frames, s.stack, space), Seen(s'.frames, s'.stack, space);
            || (v == v' == [] && r' == r + 1)
            || (v != [] && r' == r && v' == v[..|v| - 1] + [v[|v| - 1] + 1])
  {
    SlotMeaning(s.frames, s.stack, s.base);
    match SlotOf(s.stack, s.base)
    case FrameSlot(g) => SeenBump(s.frames, s.stack, s.base, space, g);
    case LocalSlot(h) =>
      var s' := Bump(s, LocalSlot(h));
      assert Below(s'.stack) == Below(s.stack);
      NothingSeen(s.frames, s.stack, space);
      NothingSeen(s.frames, Below(s'.stack), space);
    case RootSlot(_) =>
  }

  lemma {:induction false} BelowPlaced(s: State)
    requires Inv(s) && Enabled(s, Leave)
    ensures forall g :: g in s.frames && OnStack(Below(s.stack), g) ==> NextAt(Below(s.stack), g, s.frames[g]) >= 1
  {
    forall g | g in s.frames && OnStack(Below(s.stack), g)
      ensures NextAt(Below(s.stack), g, s.frames[g]) >= 1
    {
      assert RecOk(s, g);
    }
  }

  /** The state below a leaving frame, before and after its slot is counted. */
  lemma {:induction false} LeaveBelow(s: State, space: SpaceId)
    requires Inv(s) && Enabled(s, Leave) && Top(s.stack).space == space
    ensures var s' := Next(s, Leave);
            var r, r' := RootCount(s.spaces, Below(s.stack), space), RootCount(s'.spaces, s'.stack, space);
            var v, v' := Seen(s.frames, Below(s.stack), space), Seen(s'.frames, s'.stack, space);
            || (v == v' == [] && r' == r + 1)
            || (v != [] && r' == r && v' == v[..|v| - 1] + [v[|v| - 1] + 1])
  {
    LeaveIs(s);
    var below, s1, s' := s.(stack := Below(s.stack)), Bumped(s), Next(s, Leave);
    BumpInv(below);
    BelowPlaced(s);
    BumpSeen(below, space);
    SeenFrame(s1.frames, s'.frames, s1.stack, s.base, space);
    RootCountFrame(s1.spaces, s'.spaces, s1.stack, space);
  }

  lemma {:induction false} LeaveOther(s: State, space: SpaceId)
    requires Inv(s) && Enabled(s, Leave) && Top(s.stack).space != space
    ensures Position(Next(s, Leave), space) == Position(s, space)
  {
    var below := Below(s.stack);
    LeaveIs(s);
    SlotMeaning(s.frames, below, s.base);
    NearestPlace(s.frames, below, s.base, Top(s.stack).space);
    var s', s1 := Next(s, Leave), Bumped(s);
    SeenFrame(s.frames, s'.frames, below, s.base, space);
    RootCountFrame(s.spaces, s'.spaces, below, space);
    if s1.stack != below {
      assert Below(s1.stack) == Below(below);
    }
  }

  lemma {:induction false} LeavePosition(s: State, space: SpaceId)
    requires Inv(s) && Enabled(s, Leave)
    ensures if Top(s.stack).space == space then LexLess(Position(s, space), Position(Next(s, Leave), space))
            else Position(Next(s, Leave), space) == Position(s, space)
  {
    if Top(s.stack).space != space {
      LeaveOther(s, space);
    } else {
      LeaveBelow(s, space);
      var r, v := RootCount(s.spaces, Below(s.stack), space), Seen(s.frames, Below(s.stack), space);
      var w := SeenPair(s.frames[Top(s.stack).frame], Top(s.stack).mode);
      assert Seen(s.frames, s.stack, space) == v + w;
      assert Position(s, space) == [r] + v + w;
      CountedIsGreater(r, v, w);
    }
  }

  /** Counting on what lies below outweighs whatever lay above. */
  lemma {:induction false} CountedIsGreater(r: nat, v: seq<nat>, w: seq<nat>)
    ensures LexLess([r] + v + w, if v == [] then [r + 1] else [r] + (v[..|v| - 1] + [v[|v| - 1] + 1]))
  {
    if v == [] {
      LexBump([], r, r + 1, w, []);
      assert [] + [r] + w == [r] + v + w && [] + [r + 1] + [] == [r + 1];
    } else {
      var p, x := [r] + v[..|v| - 1], v[|v| - 1];
      LexBump(p, x, x + 1, w, []);
      assert p + [x] + w == [r] + v + w && p + [x + 1] + [] == [r] + (v[..|v| - 1] + [x + 1]);
    }
  }

  lemma {:induction false} BeginPosition(s: State, offset: nat, space: SpaceId)
    requires Inv(s) && Enabled(s, Begin(offset))
    ensures var s' := Next(s, Begin(offset));
            if Top(s.stack).space == space then LexLess(Position(s, space), Position(s', space))
            else Position(s', space) == Position(s, space)
  {
    var s', below := Next(s, Begin(offset)), Below(s.stack);
    assert Below(s'.stack) == below;
    SeenFrame(s.frames, s'.frames, below, s.base, space);
    var Fr(f, sp, mode) := Top(s.stack);
    if sp == space {
      assert RecOk(s, f);
      var p := [RootCount(s.spaces, below, space)] + Seen(s.frames, below, space);
      var was, now := SeenPair(s.frames[f], mode), SeenPair(s'.frames[f], Ready);
      assert Position(s, space) == p + was && Position(s', space) == p + now;
      assert was == [] || was[0] < now[0];
      LexCommonPrefix(p, was, now);
    }
  }

  lemma {:induction false} JumpPosition(s: State, target: nat, space: SpaceId)
    requires Inv(s) && Enabled(s, Jump(target))
    ensures Position(Next(s, Jump(target)), space) == Position(s, space)
  {
    var s', below := Next(s, Jump(target)), Below(s.stack);
    assert Below(s'.stack) == below;
    SeenFrame(s.frames, s'.frames, below, s.base, space);
    assert RecOk(s, Top(s.stack).frame);
  }

  ghost function Stored(spaces: map<SpaceId, SpaceRec>, space: SpaceId): nat {
    if space in spaces then spaces[space].root else 0
  }

  /** When opening or closing a scope does not rewind a space: a scope that starts from the stored
      count finds it no lower than the count in force, and one that hands back to a scope still open
      on its space has counted no further than that one. */
  ghost predicate Forwards(s: State, e: Event, space: SpaceId) {
    match e
    case EnterSpace(sp) =>
      sp == space && Nearest(s.stack, space) == NoSlot ==> RootCount(s.spaces, s.stack, space) <= Stored(s.spaces, space)
    case LeaveSpace =>
      s.stack != [] && Top(s.stack).Sc? && Top(s.stack).scope.useLocal && Top(s.stack).scope.space == space
      && LocalOpen(Below(s.stack), space) ==>
        Top(s.stack).scope.local <= RootCount(s.spaces, Below(s.stack), space)
    case _ => true
  }

  lemma {:induction false} RootCountOpen(spaces: map<SpaceId, SpaceRec>, spaces': map<SpaceId, SpaceRec>, stack: seq<Item>, space: SpaceId)
    requires LocalOpen(stack, space)
    ensures RootCount(spaces', stack, space) == RootCount(spaces, stack, space)
  {
    if !(Top(stack).Sc? && Top(stack).scope.useLocal && Top(stack).scope.space == space) {
      RootCountOpen(spaces, spaces', Below(stack), space);
    }
  }

  lemma {:induction false} EnterPosition(s: State, sp: SpaceId, space: SpaceId)
    requires Inv(s) && Enabled(s, EnterSpace(sp))
    ensures LexLeq(Position(s, space), Position(Next(s, EnterSpace(sp)), space)) <==> Forwards(s, EnterSpace(sp), space)
  {
    if sp == space && Nearest(s.stack, space) == NoSlot {
      EnterFromStored(s, space);
      LexSingle(RootCount(s.spaces, s.stack, space), Stored(s.spaces, space));
    } else {
      EnterKeeps(s, sp, space);
    }
  }

  lemma {:induction false} LexSingle(a: nat, b: nat)
    ensures LexLeq([a], [b]) <==> a <= b
  {
  }

  /** A local scope starts from the stored count. */
  lemma {:induction false} EnterFromStored(s: State, space: SpaceId)
    requires Nearest(s.stack, space) == NoSlot
    ensures Position(s, space) == [RootCount(s.spaces, s.stack, space)]
    ensures Position(Enter(s, space), space) == [Stored(s.spaces, space)]
  {
    NothingSeen(s.frames, s.stack, space);
    ScopeOnTop(s.frames, Enter(s, space).spaces, s.stack, Top(Enter(s, space).stack).scope, space);
  }

  lemma {:induction false} ScopeOnTop(frames: map<FrameId, FrameRec>, spaces: map<SpaceId, SpaceRec>, stack: seq<Item>, scope: Scope, space: SpaceId)
    ensures Seen(frames, stack + [Sc(scope)], space) == Seen(frames, stack, space)
    ensures RootCount(spaces, stack + [Sc(scope)], space)
            == if scope.useLocal && scope.space == space then scope.local else RootCount(spaces, stack, space)
  {
    assert Below(stack + [Sc(scope)]) == stack;
  }

  lemma {:induction false} EnterKeeps(s: State, sp: SpaceId, space: SpaceId)
    requires sp != space || Nearest(s.stack, space) != NoSlot
    ensures Position(Enter(s, sp), space) == Position(s, space)
  {
    var s' := Enter(s, sp);
    var scope := Top(s'.stack).scope;
    assert s'.frames == s.frames && s'.stack == s.stack + [Sc(scope)] && !(scope.useLocal && scope.space == space);
    ScopeOnTop(s.frames, s'.spaces, s.stack, scope, space);
    RootCountFrame(s.spaces, s'.spaces, s.stack, space);
  }

  lemma {:induction false} ExitPosition(s: State, space: SpaceId)
    requires Inv(s) && Enabled(s, LeaveSpace)
    ensures LexLeq(Position(s, space), Position(Next(s, LeaveSpace), space)) <==> Forwards(s, LeaveSpace, space)
  {
    var s' := Next(s, LeaveSpace);
    var scope, below := Top(s.stack).scope, Below(s.stack);
    if scope.useLocal && scope.space == space {
      NothingSeen(s.frames, below, space);
      assert Position(s, space) == [scope.local];
      if LocalOpen(below, space) {
        RootCountOpen(s.spaces, s'.spaces, below, space);
      } else {
        RootCountClosed(s'.spaces, below, space);
      }
      assert Position(s', space) == [RootCount(s'.spaces, below, space)];
    } else {
      RootCountFrame(s.spaces, s'.spaces, below, space);
    }
  }

  lemma {:induction false} AsidePosition(s: State, e: Event, space: SpaceId)
    requires Inv(s) && Enabled(s, e) && (e.Query? || e.Foreign? || e.ResetCache?)
    ensures Position(Next(s, e), space) == Position(s, space)
  {
    var s' := Next(s, e);
    SeenFrame(s.frames, s'.frames, s.stack, s.base, space);
    RootCountFrame(s.spaces, s'.spaces, s.stack, space);
  }

  /** The event is an instruction boundary of a frame of the space. */
  ghost predicate Boundary(s: State, e: Event, space: SpaceId) {
    e.Begin? && s.stack != [] && Top(s.stack).Fr? && Top(s.stack).space == space
  }

  /** An event moves the position of a space backwards exactly when it opens or closes a scope that
      rewinds it, and a boundary of the space moves it strictly forwards. */
  lemma {:induction false} StepPosition(s: State, e: Event, space: SpaceId)
    requires Inv(s) && Enabled(s, e)
    ensures LexLeq(Position(s, space), Position(Next(s, e), space)) <==> Forwards(s, e, space)
    ensures Boundary(s, e, space) ==> LexLess(Position(s, space), Position(Next(s, e), space))
  {
    match e
    case Call(f) =>
      CallInv(s, f);
      CallPosition(s, f, space);
      PushForwards(s.(frames := s.frames[f := FRESH_FRAME]), f, space);
    case Resume(f) => PushForwards(s, f, space);
    case Leave => LeavePosition(s, space);
    case Begin(offset) => BeginPosition(s, offset, space);
    case Jump(target) => JumpPosition(s, target, space);
    case EnterSpace(sp) => EnterPosition(s, sp, space);
    case LeaveSpace => ExitPosition(s, space);
    case Query(_) => AsidePosition(s, e, space);
    case Foreign(_, _) => AsidePosition(s, e, space);
    case ResetCache(_) => AsidePosition(s, e, space);
  }

  // ------------------------------------------------------------------ whole runs

  /** No scope opened or closed by events i to j rewinds the space. */
  ghost predicate AllForwards(states: seq<State>, events: seq<Event>, i: nat, j: nat, space: SpaceId)
    requires |states| == |events| + 1 && i <= j <= |events|
  {
    forall k :: i <= k < j ==> Forwards(states[k], events[k], space)
  }

  lemma {:induction false} EventPosition(states: seq<State>, events: seq<Event>, k: nat, space: SpaceId)
    requires IsRun(states, events) && Initial(states[0]) && k < |events|
    ensures LexLeq(Position(states[k], space), Position(states[k + 1], space)) <==> Forwards(states[k], events[k], space)
    ensures Boundary(states[k], events[k], space) ==> LexLess(Position(states[k], space), Position(states[k + 1], space))
  {
    RunStep(states, events, k);
    StepPosition(states[k], events[k], space);
  }

  lemma {:induction false} RunPosition(states: seq<State>, events: seq<Event>, i: nat, j: nat, space: SpaceId)
    requires IsRun(states, events) && Initial(states[0]) && i <= j < |states|
    requires AllForwards(states, events, i, j, space)
    ensures LexLeq(Position(states[i], space), Position(states[j], space))
    ensures i < j && Boundary(states[j - 1], events[j - 1], space) ==>
              LexLess(Position(states[i], space), Position(states[j], space))
    decreases j - i
  {
    if i < j {
      RunPosition(states, events, i, j - 1, space);
      EventPosition(states, events, j - 1, space);
      LexLeqTransitive(Position(states[i], space), Position(states[j - 1], space), Position(states[j], space));
    }
  }

  /** The position of a space never goes back over a stretch of a run, whatever happens in it, exactly
      when no scope opened or closed there rewinds it. */
  lemma {:induction false} RunForwardExact(states: seq<State>, events: seq<Event>, i: nat, j: nat, space: SpaceId)
    requires IsRun(states, events) && Initial(states[0]) && i <= j < |states|
    ensures (forall a, b :: i <= a <= b <= j ==> LexLeq(Position(states[a], space), Position(states[b], space)))
            <==> AllForwards(states, events, i, j, space)
  {
    if AllForwards(states, events, i, j, space) {
      forall a, b | i <= a <= b <= j
        ensures LexLeq(Position(states[a], space), Position(states[b], space))
      {
        RunPosition(states, events, a, b, space);
      }
    } else {
      var k :| i <= k < j && !Forwards(states[k], events[k], space);
      EventPosition(states, events, k, space);
    }
  }

  // ------------------------------------------------------------------ runs without bare nesting

  /** The space is never entered inside an open local scope of its own with no frame of it between. */
  ghost predicate NoBareNesting(states: seq<State>, events: seq<Event>, space: SpaceId)
    requires |states| == |events| + 1
  {
    forall k :: 0 <= k < |events| && events[k] == EnterSpace(space) ==>
      Nearest(states[k].stack, space).FrameSlot? || !LocalOpen(states[k].stack, space)
  }

  ghost predicate Unnested(stack: seq<Item>, space: SpaceId) {
    stack != [] ==>
      && Unnested(Below(stack), space)
      && (Top(stack).Sc? && Top(stack).scope.useLocal && Top(stack).scope.space == space ==> !LocalOpen(Below(stack), space))
  }

  lemma {:induction false} UnnestedStep(s: State, e: Event, space: SpaceId)
    requires Inv(s) && Enabled(s, e) && Unnested(s.stack, space)
    requires e == EnterSpace(space) ==> Nearest(s.stack, space).FrameSlot? || !LocalOpen(s.stack, space)
    ensures Unnested(Next(s, e).stack, space)
  {
    match e
    case Leave =>
      LeaveIs(s);
      SlotMeaning(s.frames, Below(s.stack), s.base);
      var s' := Next(s, e);
      if s'.stack != Below(s.stack) {
        assert Below(s'.stack) == Below(Below(s.stack));
      }
    case EnterSpace(sp) => EnterIs(s, sp);
    case LeaveSpace =>
    case Query(_) =>
    case Foreign(_, _) =>
    case ResetCache(_) =>
    case _ => UnnestedFrameStep(s, e, space);
  }

  lemma {:induction false} UnnestedFrameStep(s: State, e: Event, space: SpaceId)
    requires Inv(s) && Enabled(s, e) && Unnested(s.stack, space) && (e.Call? || e.Resume? || e.Begin? || e.Jump?)
    ensures Unnested(Next(s, e).stack, space)
  {
    CurKnown(s.stack, s.spaces, s.base);
    assert Below(Next(s, e).stack) == if e.Call? || e.Resume? then s.stack else Below(s.stack);
  }

  lemma {:induction false} UnnestedRun(states: seq<State>, events: seq<Event>, i: nat, space: SpaceId)
    requires IsRun(states, events) && Initial(states[0]) && NoBareNesting(states, events, space) && i < |states|
    ensures Unnested(states[i].stack, space)
  {
    if i > 0 {
      UnnestedRun(states, events, i - 1, space);
      RunStep(states, events, i - 1);
      UnnestedStep(states[i - 1], events[i - 1], space);
    }
  }

  /** Without bare nesting nothing ever rewinds the space. */
  lemma {:induction false} PlainRunsGoForward(states: seq<State>, events: seq<Event>, i: nat, j: nat, space: SpaceId)
    requires IsRun(states, events) && Initial(states[0]) && NoBareNesting(states, events, space) && i <= j < |states|
    ensures AllForwards(states, events, i, j, space)
  {
    forall k | i <= k < j
      ensures Forwards(states[k], events[k], space)
    {
      UnnestedRun(states, events, k, space);
      if events[k] == EnterSpace(space) && Nearest(states[k].stack, space) == NoSlot {
        RootCountClosed(states[k].spaces, states[k].stack, space);
      }
    }
  }

  /** The vector coordinates() returns, with the root count in front. */
  ghost function Rooted(s: State, space: SpaceId): seq<nat> {
    [RootCount(s.spaces, s.stack, space)] + Vector(s.frames, s.stack, space)
  }

  /** What coordinates() returns in any state of a run, with the root count in front, is the position
      of the space exactly when every frame of it reads its own position. */
  lemma {:induction false} ReadingExact(s: State, space: SpaceId)
    ensures Position(s, space) == Rooted(s, space) <==> Legible(s.frames, s.stack, space)
  {
    SeenExact(s.frames, s.stack, space);
    SameTail([RootCount(s.spaces, s.stack, space)], [RootCount(s.spaces, s.stack, space)],
             Seen(s.frames, s.stack, space), Vector(s.frames, s.stack, space));
  }

  /** Across calls, returns, jumps either way, repeated callbacks from one instruction, generators
      suspended, resumed and thrown into, scopes and other spaces: the rooted vector at a boundary of a
      space is strictly greater than at every earlier point, as long as both are read with no frame in
      the middle of a jump; within one root count the plain coordinate vectors themselves increase. */
  lemma {:induction false} BoundariesIncrease(states: seq<State>, events: seq<Event>, i: nat, j: nat, space: SpaceId)
    requires IsRun(states, events) && Initial(states[0]) && i < j < |states|
    requires NoBareNesting(states, events, space) || AllForwards(states, events, i, j, space)
    requires Boundary(states[j - 1], events[j - 1], space)
    requires Legible(states[i].frames, states[i].stack, space) && Legible(states[j].frames, states[j].stack, space)
    ensures LexLess(Rooted(states[i], space), Rooted(states[j], space))
    ensures RootCount(states[i].spaces, states[i].stack, space) == RootCount(states[j].spaces, states[j].stack, space) ==>
              LexLess(Vector(states[i].frames, states[i].stack, space), Vector(states[j].frames, states[j].stack, space))
  {
    if NoBareNesting(states, events, space) {
      PlainRunsGoForward(states, events, i, j, space);
    }
    ReadingExact(states[i], space);
    ReadingExact(states[j], space);
    RunPosition(states, events, i, j, space);
    LexCommonPrefix([RootCount(states[i].spaces, states[i].stack, space)],
                    Vector(states[i].frames, states[i].stack, space), Vector(states[j].frames, states[j].stack, space));
  }

  // ------------------------------------------------------------------ undisturbed runs

  /** The current frame is in the middle of an instruction. */
  ghost predicate Quiet(stack: seq<Item>) {
    stack != [] && Top(stack).Fr? ==> Top(stack).mode == Ready
  }

  ghost predicate Enters(e: Event) {
    e.Call? || e.Resume? || e.EnterSpace?
  }

  /** Frames and scopes are entered only from the middle of an instruction: never between a frame's
      activation and its first boundary, or between a jump and its target. */
  ghost predicate Undisturbed(states: seq<State>, events: seq<Event>)
    requires |states| == |events| + 1
  {
    forall k :: 0 <= k < |events| && Enters(events[k]) ==> Quiet(states[k].stack)
  }

  ghost predicate QuietBelow(stack: seq<Item>) {
    stack != [] ==> Quiet(Below(stack)) && QuietBelow(Below(stack))
  }

  lemma {:induction false} QuietStep(s: State, e: Event)
    requires Inv(s) && Enabled(s, e) && QuietBelow(s.stack)
    requires Enters(e) ==> Quiet(s.stack)
    ensures QuietBelow(Next(s, e).stack)
  {
    match e
    case Leave =>
      LeaveIs(s);
      SlotMeaning(s.frames, Below(s.stack), s.base);
      var s' := Next(s, e);
      if s'.stack != Below(s.stack) {
        assert Below(s'.stack) == Below(Below(s.stack));
      }
    case EnterSpace(sp) => EnterIs(s, sp);
    case LeaveSpace =>
    case Query(_) =>
    case Foreign(_, _) =>
    case ResetCache(_) =>
    case _ => QuietFrameStep(s, e);
  }

  lemma {:induction false} QuietFrameStep(s: State, e: Event)
    requires Inv(s) && Enabled(s, e) && QuietBelow(s.stack) && (e.Call? || e.Resume? || e.Begin? || e.Jump?)
    requires e.Call? || e.Resume? ==> Quiet(s.stack)
    ensures QuietBelow(Next(s, e).stack)
  {
    CurKnown(s.stack, s.spaces, s.base);
    var below := if e.Call? || e.Resume? then s.stack else Below(s.stack);
    var stack' := Next(s, e).stack;
    assert stack' == below + [Top(stack')];
    QuietOnTop(below, Top(stack'));
  }

  lemma {:induction false} QuietOnTop(below: seq<Item>, item: Item)
    requires Quiet(below) && QuietBelow(below)
    ensures QuietBelow(below + [item])
  {
    assert Below(below + [item]) == below;
  }

  lemma {:induction false} QuietRun(states: seq<State>, events: seq<Event>, i: nat)
    requires IsRun(states, events) && Initial(states[0]) && Undisturbed(states, events) && i < |states|
    ensures QuietBelow(states[i].stack)
  {
    if i > 0 {
      QuietRun(states, events, i - 1);
      RunStep(states, events, i - 1);
      QuietStep(states[i - 1], events[i - 1]);
    }
  }

  /** In an undisturbed run every boundary reads the positions of all its frames. */
  lemma {:induction false} BoundaryIsLegible(states: seq<State>, events: seq<Event>, i: nat, space: SpaceId)
    requires IsRun(states, events) && Initial(states[0]) && Undisturbed(states, events)
    requires 0 < i < |states| && events[i - 1].Begin?
    ensures Legible(states[i].frames, states[i].stack, space)
  {
    QuietRun(states, events, i);
    RunInv(states, events, i);
    RunStep(states, events, i - 1);
    BeginQuiet(states[i - 1], events[i - 1].offset);
    QuietReads(states[i], space);
  }

  lemma {:induction false} BeginQuiet(s: State, offset: nat)
    requires Enabled(s, Begin(offset))
    ensures Quiet(Next(s, Begin(offset)).stack)
  {
  }

  lemma {:induction false} QuietReads(s: State, space: SpaceId)
    requires Inv(s) && Quiet(s.stack) && QuietBelow(s.stack)
    ensures Legible(s.frames, s.stack, space)
  {
    forall g | g in s.frames && OnStack(s.stack, g)
      ensures NextAt(s.stack, g, s.frames[g]) >= 1
    {
      assert RecOk(s, g);
    }
    QuietLegible(s.frames, s.stack, s.base, space);
  }

  lemma {:induction false} QuietLegible(frames: map<FrameId, FrameRec>, stack: seq<Item>, base: SpaceId, space: SpaceId)
    requires StackOk(frames, stack, base) && Quiet(stack) && QuietBelow(stack)
    requires forall g :: g in frames && OnStack(stack, g) ==> NextAt(stack, g, frames[g]) >= 1
    ensures Legible(frames, stack, space)
  {
    if stack != [] {
      assert forall g :: OnStack(Below(stack), g) ==> OnStack(stack, g) && ModeOf(stack, g) == ModeOf(Below(stack), g);
      QuietLegible(frames, Below(stack), base, space);
    }
  }

  /** So in an undisturbed run without bare nesting the boundaries of a space increase, plainly. */
  lemma {:induction false} PlainBoundariesIncrease(states: seq<State>, events: seq<Event>, i: nat, j: nat, space: SpaceId)
    requires IsRun(states, events) && Initial(states[0]) && 0 < i < j < |states|
    requires Undisturbed(states, events) && NoBareNesting(states, events, space)
    requires events[i - 1].Begin? && Boundary(states[j - 1], events[j - 1], space)
    ensures LexLess(Rooted(states[i], space), Rooted(states[j], space))
  {
    BoundaryIsLegible(states, events, i, space);
    BoundaryIsLegible(states, events, j, space);
    BoundariesIncrease(states, events, i, j, space);
  }
}
