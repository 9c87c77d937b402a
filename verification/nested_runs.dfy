/** Bare nested run_in_space calls (retracemodule.c:794-859): a scope entered inside another scope of
    the same space, with no frame of that space between, restarts from the stored root count and hands
    back to the count of the scope around it. */
module NestedRuns {
  import opened Lexicographic
  import opened CoordinateMachine
  import opened SlotDiscipline
  import opened CoordinateOrder
  import opened SpaceIsolation

  /** Activations finished directly under the scope that event i opens, among events i to k: frames
      that sat right on it when they left. */
  ghost function Finished(states: seq<State>, events: seq<Event>, i: nat, k: nat): nat
    requires |states| == |events| + 1 && i < k < |states|
  {
    if k == i + 1 then 0
    else
      Finished(states, events, i, k - 1)
      + (if events[k - 1].Leave? && |states[k - 1].stack| == |states[i].stack| + 2 then 1 else 0)
  }

  /** One event in the body counts on the scope's local root exactly when a frame right on it leaves. */
  lemma {:induction false} BodyCounts(s0: State, s: State, e: Event)
    requires Inv(s) && Enabled(s, e) && ScopeHeld(s0, s) && |Next(s, e).stack| > |s0.stack|
    requires ScopeAt(s, |s0.stack|).useLocal
    ensures ScopeHeld(s0, Next(s, e))
    ensures ScopeAt(Next(s, e), |s0.stack|).local
         == ScopeAt(s, |s0.stack|).local + (if e.Leave? && |s.stack| == |s0.stack| + 2 then 1 else 0)
  {
    StepHoldsScope(s0, s, e);
    CurKnown(s.stack, s.spaces, s.base);
    if e.Leave? {
      LeaveIs(s);
      SlotMeaning(s.frames, Below(s.stack), s.base);
    }
  }

  /** The scope that event i opened is still open, and its local root is its start plus the
      activations finished directly under it. */
  ghost predicate CountsFinished(states: seq<State>, events: seq<Event>, i: nat, k: nat)
    requires |states| == |events| + 1 && i < k < |states|
  {
    var h := |states[i].stack|;
    && SameScope(states[i], states[i + 1], states[k]) && ScopeAt(states[k], h).useLocal
    && ScopeAt(states[k], h).local == ScopeAt(states[i + 1], h).local + Finished(states, events, i, k)
  }

  lemma {:induction false} EventCounts(states: seq<State>, events: seq<Event>, i: nat, k: nat)
    requires IsRun(states, events) && Initial(states[0]) && i < k < |events|
    requires CountsFinished(states, events, i, k) && |states[k + 1].stack| > |states[i].stack|
    ensures CountsFinished(states, events, i, k + 1)
  {
    RunStep(states, events, k);
    BodyStep(states[i], states[i + 1], states[k], events[k], states[k + 1]);
    BodyCounts(states[i], states[k], events[k]);
  }

  lemma {:induction false} ScopeCounts(states: seq<State>, events: seq<Event>, i: nat, k: nat)
    requires IsRun(states, events) && Initial(states[0]) && i < k < |states|
    requires CountsFinished(states, events, i, i + 1) && StaysOpen(states, i, k)
    ensures CountsFinished(states, events, i, k)
  {
    if k > i + 1 {
      ScopeCounts(states, events, i, k - 1);
      EventCounts(states, events, i, k - 1);
    }
  }

  ghost predicate StaysOpen(states: seq<State>, i: nat, k: nat)
    requires i < k < |states|
  {
    |states[k].stack| > |states[i].stack| && (k > i + 1 ==> StaysOpen(states, i, k - 1))
  }

  lemma {:induction false} BracketStaysOpen(states: seq<State>, i: nat, k: nat)
    requires i < k < |states| && forall m :: i < m <= k ==> |states[m].stack| > |states[i].stack|
    ensures StaysOpen(states, i, k)
  {
    if k > i + 1 {
      BracketStaysOpen(states, i, k - 1);
    }
  }

  /** What a bracket that opened a local scope holds when it closes. */
  lemma {:induction false} LocalBracket(states: seq<State>, events: seq<Event>, i: nat, j: nat)
    requires Bracket(states, events, i, j) && Initial(states[0])
    requires Nearest(states[i].stack, events[i].space) == NoSlot
    ensures var space, root := events[i].space, Stored(states[i].spaces, events[i].space);
            && Below(states[j].stack) == states[i].stack && Top(states[j].stack).Sc?
            && var scope := Top(states[j].stack).scope;
            scope.useLocal && scope.space == space && scope.initial == root
            && scope.local == root + Finished(states, events, i, j)
  {
    RunStep(states, events, i);
    OpenHoldsScope(states[i], events[i].space);
    BracketStaysOpen(states, i, j);
    ScopeCounts(states, events, i, j);
  }

  /** Exactly when a bracketed run neither starts nor ends by rewinding its space: a frame of the space
      is active, or no scope of it is open around, or the stored count equals the count in force and
      the body finishes no direct activation. */
  lemma {:induction false} BracketForwardExact(states: seq<State>, events: seq<Event>, i: nat, j: nat)
    requires Bracket(states, events, i, j) && Initial(states[0])
    ensures var s, space := states[i], events[i].space;
            && LexLeq(Position(s, space), Position(states[i + 1], space))
            && LexLeq(Position(states[j], space), Position(states[j + 1], space))
            <==> || Nearest(s.stack, space).FrameSlot? || !LocalOpen(s.stack, space)
                 || (RootCount(s.spaces, s.stack, space) == Stored(s.spaces, space) && Finished(states, events, i, j) == 0)
  {
    var s, space := states[i], events[i].space;
    EventPosition(states, events, i, space);
    EventPosition(states, events, j, space);
    if Nearest(s.stack, space).FrameSlot? {
      FramedBracket(states, events, i, j);
    } else {
      LocalBracket(states, events, i, j);
      if LocalOpen(s.stack, space) {
        RootCountOpen(s.spaces, states[j].spaces, s.stack, space);
      } else {
        RootCountClosed(s.spaces, s.stack, space);
      }
    }
  }

  /** A bracket under a frame of its space has no root of its own. */
  lemma {:induction false} FramedBracket(states: seq<State>, events: seq<Event>, i: nat, j: nat)
    requires Bracket(states, events, i, j) && Initial(states[0])
    requires Nearest(states[i].stack, events[i].space).FrameSlot?
    ensures Top(states[j].stack).Sc? && !Top(states[j].stack).scope.useLocal
  {
    RunStep(states, events, i);
    BracketCloses(states, events, i, j);
  }

  /** Exactly when closing a bracket lowers the stored root count: the bracket writes back its start
      plus the activations finished directly under it, at least one, whatever the brackets inside it
      have stored. */
  lemma {:induction false} StoredRootExact(states: seq<State>, events: seq<Event>, i: nat, j: nat)
    requires Bracket(states, events, i, j) && Initial(states[0])
    requires Nearest(states[i].stack, events[i].space) == NoSlot
    ensures var space, n := events[i].space, Finished(states, events, i, j);
            var written := Stored(states[i].spaces, space) + (if n == 0 then 1 else n);
            && Stored(states[j + 1].spaces, space) == written > Stored(states[i].spaces, space)
            && (Stored(states[j + 1].spaces, space) < Stored(states[j].spaces, space)
                <==> written < Stored(states[j].spaces, space))
  {
    LocalBracket(states, events, i, j);
    RunStep(states, events, j);
  }

  /** A run_in_space call whose body enters no frame. */
  ghost function BareRun(s: State, space: SpaceId): State {
    var inside := Enter(s, space);
    assert Top(inside.stack).Sc?;
    Exit(inside)
  }

  /** A bare run with no frame of its space active adds one to the stored root count and restores the
      rest of the thread; on its first use the space is made. */
  lemma {:induction false} BareRunCounts(s: State, space: SpaceId)
    requires Nearest(s.stack, space) == NoSlot
    ensures var known := GetSpace(s, space);
            BareRun(s, space) == known.(spaces := known.spaces[space := known.spaces[space].(root := known.spaces[space].root + 1)])
  {
    var known, inside := GetSpace(s, space), Enter(s, space);
    var root := known.spaces[space].root;
    var scope := Scope(s.current, s.slot, space, root, root, true);
    assert inside == known.(stack := s.stack + [Sc(scope)], current := space, slot := LocalSlot(|s.stack|));
    assert Top(inside.stack) == Sc(scope) && Below(inside.stack) == s.stack && FinalLocal(scope) == root + 1;
    assert Exit(inside).spaces == known.spaces[space := known.spaces[space].(root := root + 1)];
  }

  /** Two bare runs nested in a third: the stored root count of the space reads 1, then 2, then 1. */
  lemma {:induction false} NestedRootRewinds()
    ensures var s0 := State(map[], map[0 := FRESH_SPACE], [], 0, RootSlot(0), 0);
            var outer := Enter(s0, 2);
            var first := BareRun(outer, 2);
            var second := BareRun(first, 2);
            && Initial(s0) && 2 in first.spaces && 2 in second.spaces && second.stack == outer.stack != [] && Top(outer.stack).Sc?
            && first.spaces[2].root == 1 && second.spaces[2].root == 2
            && 2 in Exit(second).spaces && Exit(second).spaces[2].root == 1
  {
    var s0 := State(map[], map[0 := FRESH_SPACE], [], 0, RootSlot(0), 0);
    var outer := Enter(s0, 2);
    var scope := Scope(0, RootSlot(0), 2, 0, 0, true);
    assert outer.stack == [Sc(scope)] && outer.spaces[2].root == 0;
    assert Below(outer.stack) == [] && Nearest(outer.stack, 2) == NoSlot;
    BareRunCounts(outer, 2);
    BareRunCounts(BareRun(outer, 2), 2);
  }

  // ------------------------------------------------------------------ boundaries that rewind

  ghost function OneFrame(lasti: int, slot: Slot, place: Place): map<FrameId, FrameRec> {
    map[9 := FrameRec(0, lasti, 0, slot, place, Unset)]
  }

  ghost function TwoSpaces(second: SpaceRec): map<SpaceId, SpaceRec> {
    map[0 := FRESH_SPACE, 2 := second]
  }

  const OUTER := Scope(0, RootSlot(0), 2, 0, 0, true)
  const INNER := Scope(2, LocalSlot(0), 2, 0, 0, true)

  /** Entering space 2 twice, running frame 9 to offset 5 inside, leaving, and running it again to
      offset 1 under the outer scope. */
  ghost function NestedState(k: nat): State
    requires k <= 8
  {
    match k
    case 0 => State(map[], map[0 := FRESH_SPACE], [], 0, RootSlot(0), 0)
    case 1 => State(map[], TwoSpaces(FRESH_SPACE), [Sc(OUTER)], 2, LocalSlot(0), 0)
    case 2 => State(map[], TwoSpaces(FRESH_SPACE), [Sc(OUTER), Sc(INNER)], 2, LocalSlot(1), 0)
    case 3 => State(OneFrame(-1, LocalSlot(1), In(2)), TwoSpaces(SpaceRec(true, 1, 0, NoDelta)),
                    [Sc(OUTER), Sc(INNER), Fr(9, 2, Entered)], 2, FrameSlot(9), 0)
    case 4 => State(OneFrame(5, LocalSlot(1), In(2)), TwoSpaces(SpaceRec(true, 1, 0, NoDelta)),
                    [Sc(OUTER), Sc(INNER), Fr(9, 2, Ready)], 2, FrameSlot(9), 0)
    case 5 => State(OneFrame(5, NoSlot, Inactive), TwoSpaces(SpaceRec(true, 0, 0, NoDelta)),
                    [Sc(OUTER), Sc(INNER.(local := 1))], 2, LocalSlot(1), 0)
    case 6 => State(OneFrame(5, NoSlot, Inactive), TwoSpaces(SpaceRec(true, 0, 1, NoDelta)),
                    [Sc(OUTER)], 2, LocalSlot(0), 0)
    case 7 => State(OneFrame(-1, LocalSlot(0), In(2)), TwoSpaces(SpaceRec(true, 1, 1, NoDelta)),
                    [Sc(OUTER), Fr(9, 2, Entered)], 2, FrameSlot(9), 0)
    case 8 => State(OneFrame(1, LocalSlot(0), In(2)), TwoSpaces(SpaceRec(true, 1, 1, NoDelta)),
                    [Sc(OUTER), Fr(9, 2, Ready)], 2, FrameSlot(9), 0)
  }

  ghost function NestedEvent(k: nat): Event
    requires k < 8
  {
    match k
    case 0 => EnterSpace(2)
    case 1 => EnterSpace(2)
    case 2 => Call(9)
    case 3 => Begin(5)
    case 4 => Leave
    case 5 => LeaveSpace
    case 6 => Call(9)
    case 7 => Begin(1)
  }

  lemma {:induction false} NestedScopes(k: nat)
    requires k < 8 && NestedEvent(k) in {EnterSpace(2), Leave, LeaveSpace}
    ensures Enabled(NestedState(k), NestedEvent(k)) && NestedState(k + 1) == Next(NestedState(k), NestedEvent(k))
  {
    var s, e, s' := NestedState(k), NestedEvent(k), NestedState(k + 1);
    if k == 1 {
      assert Below(s.stack) == [] && Nearest(s.stack, 2) == NoSlot;
    }
    assert s'.stack == Next(s, e).stack && s'.frames == Next(s, e).frames && s'.spaces == Next(s, e).spaces;
  }

  lemma {:induction false} NestedFrames(k: nat)
    requires k < 8 && (NestedEvent(k).Call? || NestedEvent(k).Begin?)
    ensures Enabled(NestedState(k), NestedEvent(k)) && NestedState(k + 1) == Next(NestedState(k), NestedEvent(k))
  {
    var s, e, s' := NestedState(k), NestedEvent(k), NestedState(k + 1);
    assert Below([Sc(OUTER)]) == [] && !OnStack([Sc(OUTER)], 9);
    assert Below([Sc(OUTER), Sc(INNER)]) == [Sc(OUTER)] && !OnStack([Sc(OUTER), Sc(INNER)], 9);
    assert s'.stack == Next(s, e).stack && s'.frames == Next(s, e).frames && s'.spaces == Next(s, e).spaces;
  }

  lemma {:induction false} NestedRun() returns (states: seq<State>, events: seq<Event>)
    ensures IsRun(states, events) && Initial(states[0]) && |events| == 8
    ensures states[4] == NestedState(4) && states[8] == NestedState(8)
    ensures Boundary(states[3], events[3], 2) && Boundary(states[7], events[7], 2)
  {
    states := seq(9, k requires 0 <= k < 9 => NestedState(k));
    events := seq(8, k requires 0 <= k < 8 => NestedEvent(k));
    forall k | 0 <= k < 8
      ensures StepAt(states, events, k)
    {
      if NestedEvent(k).Call? || NestedEvent(k).Begin? {
        NestedFrames(k);
      } else {
        NestedScopes(k);
      }
    }
  }

  /** A bare run nested in another rewinds the boundaries themselves: the frame begins at [0, 5, 0] in
      the inner scope and then at [0, 1, 0] in the outer one. */
  lemma {:induction false} NestedBoundaryRewinds() returns (states: seq<State>, events: seq<Event>)
    ensures IsRun(states, events) && Initial(states[0]) && |events| == 8
    ensures Boundary(states[3], events[3], 2) && Boundary(states[7], events[7], 2)
    ensures Rooted(states[4], 2) == [0, 5, 0] && Rooted(states[8], 2) == [0, 1, 0]
    ensures LexLess(Rooted(states[8], 2), Rooted(states[4], 2))
  {
    states, events := NestedRun();
    NestedReadings();
    assert [0, 1, 0][1..][0] < [0, 5, 0][1..][0];
  }

  lemma {:induction false} NestedReadings()
    ensures Rooted(NestedState(4), 2) == [0, 5, 0] && Rooted(NestedState(8), 2) == [0, 1, 0]
  {
    assert Below([Sc(OUTER), Sc(INNER)]) == [Sc(OUTER)] && Below([Sc(OUTER)]) == [];
    assert Nearest([Sc(OUTER)], 2) == NoSlot && Nearest([Sc(OUTER), Sc(INNER)], 2) == NoSlot;
    assert NestedState(4).stack == [Sc(OUTER), Sc(INNER)] + [Fr(9, 2, Ready)];
    assert NestedState(8).stack == [Sc(OUTER)] + [Fr(9, 2, Ready)];
    FrameOnScopes(OneFrame(5, LocalSlot(1), In(2)), NestedState(4).spaces, [Sc(OUTER), Sc(INNER)], INNER);
    FrameOnScopes(OneFrame(1, LocalSlot(0), In(2)), NestedState(8).spaces, [Sc(OUTER)], OUTER);
  }

  lemma {:induction false} FrameOnScopes(frames: map<FrameId, FrameRec>, spaces: map<SpaceId, SpaceRec>, scopes: seq<Item>, scope: Scope)
    requires 9 in frames && scopes != [] && Top(scopes) == Sc(scope) && scope.useLocal && scope.space == 2
    requires Nearest(scopes, 2) == NoSlot
    ensures var stack := scopes + [Fr(9, 2, Ready)];
            RootCount(spaces, stack, 2) == scope.local && Vector(frames, stack, 2) == Pair(frames[9])
  {
    var stack := scopes + [Fr(9, 2, Ready)];
    assert Below(stack) == scopes && Top(stack) == Fr(9, 2, Ready);
    NoVector(frames, scopes, 2);
  }

  lemma {:induction false} NoVector(frames: map<FrameId, FrameRec>, stack: seq<Item>, space: SpaceId)
    requires Nearest(stack, space) == NoSlot
    ensures Vector(frames, stack, space) == []
  {
    if stack != [] {
      NoVector(frames, Below(stack), space);
    }
  }
}
