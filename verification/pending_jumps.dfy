/** What is read between a jump and its target (pycore_retrace.h:145-160): the bias has moved and the
    frame has not, so code that runs in between, such as the callback for a handled exception, can read
    a frame short of its position or past it. */
module PendingJumps {
  import opened Lexicographic
  import opened CoordinateMachine
  import opened SlotDiscipline
  import opened CoordinateOrder
  import opened DeltaStream

  /** Exactly when a frame that has jumped still reads the position it jumped from: the target is the
      next instruction, or both read as zero. */
  lemma {:induction false} PendingReading(fr: FrameRec, to: nat)
    requires NextBegin(fr, Ready) >= 1
    ensures Pair(JumpTo(fr, fr.lasti, to)) == Pair(fr)
            <==> fr.lasti + 1 == to || (fr.bias + fr.lasti == 0 && JumpTo(fr, fr.lasti, to).bias + fr.lasti <= 0)
  {
    var jumped := JumpTo(fr, fr.lasti, to);
    assert Pair(jumped)[0] == Coordinate(jumped) && Pair(fr)[0] == Coordinate(fr);
  }

  /** A second jump from the same instruction, when something raised in between: exactly when the new
      target is not below the one given up. */
  lemma {:induction false} SecondJumpExact(fr: FrameRec, first: nat, second: nat)
    ensures var once := JumpTo(fr, fr.lasti, first);
            var twice := JumpTo(once, once.lasti, second);
            NextBegin(once, Jumped(first)) <= NextBegin(twice, Jumped(second)) <==> first <= fr.lasti + 1
  {
  }

  // ------------------------------------------------------------------ boundaries that go back

  function OneSpace(depth: nat, deltaRoot: DeltaRoot): map<SpaceId, SpaceRec> {
    map[0 := SpaceRec(true, depth, 0, deltaRoot)]
  }

  function Parent(bias: int, lasti: int, ordinal: nat, cache: Cache): FrameRec {
    FrameRec(bias, lasti, ordinal, RootSlot(0), In(0), cache)
  }

  function Child(bias: int, lasti: int, cache: Cache): FrameRec {
    FrameRec(bias, lasti, 0, FrameSlot(1), In(0), cache)
  }

  /** Frame 1 begins at 10 and jumps to 30; frame 2 is called before it gets there, and begins at 0. */
  ghost function WindowState(k: nat): State
    requires k <= 5
  {
    match k
    case 0 => State(map[], map[0 := FRESH_SPACE], [], 0, RootSlot(0), 0)
    case 1 => State(map[1 := Parent(0, -1, 0, Unset)], OneSpace(1, NoDelta), [Fr(1, 0, Entered)], 0, FrameSlot(1), 0)
    case 2 => State(map[1 := Parent(0, 10, 0, Unset)], OneSpace(1, NoDelta), [Fr(1, 0, Ready)], 0, FrameSlot(1), 0)
    case 3 => State(map[1 := Parent(-19, 10, 0, Unset)], OneSpace(1, NoDelta), [Fr(1, 0, Jumped(30))], 0, FrameSlot(1), 0)
    case 4 => State(map[1 := Parent(-19, 10, 0, Unset), 2 := Child(0, -1, Unset)], OneSpace(2, NoDelta),
                    [Fr(1, 0, Jumped(30)), Fr(2, 0, Entered)], 0, FrameSlot(2), 0)
    case 5 => State(map[1 := Parent(-19, 10, 0, Unset), 2 := Child(0, 0, Unset)], OneSpace(2, NoDelta),
                    [Fr(1, 0, Jumped(30)), Fr(2, 0, Ready)], 0, FrameSlot(2), 0)
  }

  ghost function WindowEvent(k: nat): Event
    requires k < 5
  {
    match k
    case 0 => Call(1)
    case 1 => Begin(10)
    case 2 => Jump(30)
    case 3 => Call(2)
    case 4 => Begin(0)
  }

  ghost predicate SameState(s: State, s': State) {
    && s.frames == s'.frames && s.spaces == s'.spaces && s.stack == s'.stack
    && s.current == s'.current && s.slot == s'.slot && s.base == s'.base
  }

  lemma {:induction false} Unstack(stack: seq<Item>)
    ensures |stack| == 1 ==> Below(stack) == []
    ensures |stack| == 2 ==> Below(stack) == [stack[0]]
  {
  }

  lemma {:induction false} WindowCall(k: nat)
    requires k in {0, 3}
    ensures Enabled(WindowState(k), WindowEvent(k)) && WindowState(k + 1) == Next(WindowState(k), WindowEvent(k))
  {
    var s, e := WindowState(k), WindowEvent(k);
    Unstack(s.stack);
    assert SameState(WindowState(k + 1), Next(s, e));
  }

  lemma {:induction false} WindowMove(k: nat)
    requires k in {1, 2, 4}
    ensures Enabled(WindowState(k), WindowEvent(k)) && WindowState(k + 1) == Next(WindowState(k), WindowEvent(k))
  {
    var s, e := WindowState(k), WindowEvent(k);
    Unstack(s.stack);
    assert SameState(WindowState(k + 1), Next(s, e));
  }

  /** What is read with frame 1 alone on the stack, and with frame 2 on top of it. */
  lemma {:induction false} OneFrame(frames: map<FrameId, FrameRec>, spaces: map<SpaceId, SpaceRec>, mode: Mode)
    requires 1 in frames
    ensures var stack := [Fr(1, 0, mode)];
            && Vector(frames, stack, 0) == Pair(frames[1]) && Frames(stack, 0) == [1] && RootCount(spaces, stack, 0) == Stored(spaces, 0)
            && (Legible(frames, stack, 0) ==> ReadsTrue(frames[1], mode))
  {
    assert Below([Fr(1, 0, mode)]) == [] && Top([Fr(1, 0, mode)]) == Fr(1, 0, mode);
    assert Vector(frames, [Fr(1, 0, mode)], 0) == [] + Pair(frames[1]);
  }

  lemma {:induction false} TwoFrames(frames: map<FrameId, FrameRec>, spaces: map<SpaceId, SpaceRec>, mode: Mode, mode': Mode)
    requires 1 in frames && 2 in frames
    ensures var stack := [Fr(1, 0, mode), Fr(2, 0, mode')];
            && Vector(frames, stack, 0) == Pair(frames[1]) + Pair(frames[2]) && Frames(stack, 0) == [1, 2]
            && RootCount(spaces, stack, 0) == Stored(spaces, 0)
            && (Legible(frames, stack, 0) ==> ReadsTrue(frames[1], mode))
  {
    assert Below([Fr(1, 0, mode), Fr(2, 0, mode')]) == [Fr(1, 0, mode)];
    OneFrame(frames, spaces, mode);
  }

  lemma {:induction false} WindowRun() returns (states: seq<State>, events: seq<Event>)
    ensures IsRun(states, events) && |events| == 5 && Initial(states[0])
    ensures states[2] == WindowState(2) && states[5] == WindowState(5)
    ensures Boundary(states[1], events[1], 0) && Boundary(states[4], events[4], 0)
  {
    states := seq(6, k requires 0 <= k < 6 => WindowState(k));
    events := seq(5, k requires 0 <= k < 5 => WindowEvent(k));
    forall k | 0 <= k < 5
      ensures StepAt(states, events, k)
    {
      if k in {0, 3} {
        WindowCall(k);
      } else {
        WindowMove(k);
      }
    }
  }

  /** The second boundary reads less than the first: [10, 0] and then [0, 0, 0, 0]. */
  lemma {:induction false} JumpWindowRewinds() returns (states: seq<State>, events: seq<Event>)
    ensures IsRun(states, events) && Initial(states[0]) && |events| == 5
    ensures Boundary(states[1], events[1], 0) && Boundary(states[4], events[4], 0)
    ensures Rooted(states[2], 0) == [0, 10, 0] && Rooted(states[5], 0) == [0, 0, 0, 0, 0]
    ensures LexLess(Rooted(states[5], 0), Rooted(states[2], 0))
    ensures !Legible(states[5].frames, states[5].stack, 0)
  {
    states, events := WindowRun();
    OneFrame(WindowState(2).frames, WindowState(2).spaces, Ready);
    TwoFrames(WindowState(5).frames, WindowState(5).spaces, Jumped(30), Ready);
    assert [0, 0, 0, 0, 0][1..][0] < [0, 10, 0][1..][0];
  }

  // ------------------------------------------------------------------ a delta that misses

  /** Frame 2 runs to 5 under frame 1, is emitted, suspended, and later resumed by the next instruction
      of frame 1. It runs to 6 and jumps to 8, and so reads 5 again while the delta is asked for. */
  ghost function StaleState(k: nat): State
    requires k <= 12
  {
    var alone, both := [Fr(1, 0, Ready)], (mode: Mode) => [Fr(1, 0, Ready), Fr(2, 0, mode)];
    match k
    case 0 => State(map[], map[0 := FRESH_SPACE], [], 0, RootSlot(0), 0)
    case 1 => State(map[1 := Parent(0, -1, 0, Unset)], OneSpace(1, NoDelta), [Fr(1, 0, Entered)], 0, FrameSlot(1), 0)
    case 2 => State(map[1 := Parent(0, 0, 0, Unset)], OneSpace(1, NoDelta), alone, 0, FrameSlot(1), 0)
    case 3 => State(map[1 := Parent(0, 0, 0, Unset), 2 := Child(0, -1, Unset)], OneSpace(2, NoDelta), both(Entered), 0, FrameSlot(2), 0)
    case 4 => State(map[1 := Parent(0, 0, 0, Unset), 2 := Child(0, 5, Unset)], OneSpace(2, NoDelta), both(Ready), 0, FrameSlot(2), 0)
    case 5 => State(map[1 := Parent(0, 0, 0, Words(0, 0, 0)), 2 := Child(0, 5, Words(0, 5, 0))], OneSpace(2, At(0)), both(Ready), 0, FrameSlot(2), 0)
    case 6 => State(map[1 := Parent(0, 0, 1, Words(0, 0, 0)), 2 := Suspended()], OneSpace(1, At(0)), alone, 0, FrameSlot(1), 0)
    case 7 => State(map[1 := Parent(0, 1, 0, Words(0, 0, 0)), 2 := Suspended()], OneSpace(1, At(0)), alone, 0, FrameSlot(1), 0)
    case 8 => State(map[1 := Parent(0, 1, 0, Words(0, 1, 0)), 2 := Suspended()], OneSpace(1, At(0)), alone, 0, FrameSlot(1), 0)
    case 9 => State(map[1 := Parent(0, 1, 0, Words(0, 1, 0)), 2 := Child(0, 5, Words(0, 5, 0))], OneSpace(2, At(0)), both(Entered), 0, FrameSlot(2), 0)
    case 10 => State(map[1 := Parent(0, 1, 0, Words(0, 1, 0)), 2 := Child(0, 6, Words(0, 5, 0))], OneSpace(2, At(0)), both(Ready), 0, FrameSlot(2), 0)
    case 11 => State(map[1 := Parent(0, 1, 0, Words(0, 1, 0)), 2 := Child(-1, 6, Words(0, 5, 0))], OneSpace(2, At(0)), both(Jumped(8)), 0, FrameSlot(2), 0)
    case 12 => StaleState(11)
  }

  function Suspended(): FrameRec {
    FrameRec(0, 5, 0, NoSlot, Inactive, Words(0, 5, 0))
  }

  ghost function StaleEvent(k: nat): Event
    requires k < 12
  {
    match k
    case 0 => Call(1)
    case 1 => Begin(0)
    case 2 => Call(2)
    case 3 => Begin(5)
    case 4 => Query(0)
    case 5 => Leave
    case 6 => Begin(1)
    case 7 => Query(0)
    case 8 => Resume(2)
    case 9 => Begin(6)
    case 10 => Jump(8)
    case 11 => Query(0)
  }

  lemma {:induction false} StaleEntry(k: nat)
    requires k in {0, 2, 8}
    ensures Enabled(StaleState(k), StaleEvent(k)) && StaleState(k + 1) == Next(StaleState(k), StaleEvent(k))
  {
    var s, e := StaleState(k), StaleEvent(k);
    Unstack(s.stack);
    assert SameState(StaleState(k + 1), Next(s, e));
  }

  lemma {:induction false} StaleMove(k: nat)
    requires k in {1, 3}
    ensures Enabled(StaleState(k), StaleEvent(k)) && StaleState(k + 1) == Next(StaleState(k), StaleEvent(k))
  {
    var s, e := StaleState(k), StaleEvent(k);
    Unstack(s.stack);
    assert SameState(StaleState(k + 1), Next(s, e));
  }

  lemma {:induction false} StaleLate(k: nat)
    requires k in {6, 9, 10}
    ensures Enabled(StaleState(k), StaleEvent(k)) && StaleState(k + 1) == Next(StaleState(k), StaleEvent(k))
  {
    var s, e := StaleState(k), StaleEvent(k);
    Unstack(s.stack);
    assert SameState(StaleState(k + 1), Next(s, e));
  }

  lemma {:induction false} StaleLeave()
    ensures Enabled(StaleState(5), StaleEvent(5)) && StaleState(6) == Next(StaleState(5), StaleEvent(5))
  {
    Unstack(StaleState(5).stack);
    assert SameState(StaleState(6), Next(StaleState(5), StaleEvent(5)));
  }

  lemma {:induction false} StaleQuery(k: nat)
    requires k in {4, 11}
    ensures Enabled(StaleState(k), StaleEvent(k)) && StaleState(k + 1) == Next(StaleState(k), StaleEvent(k))
  {
    TwoFrames(StaleState(k).frames, StaleState(k).spaces, Ready, StaleState(k).stack[1].mode);
    assert SameState(StaleState(k + 1), Next(StaleState(k), StaleEvent(k)));
  }

  lemma {:induction false} StaleQueryAlone()
    ensures Enabled(StaleState(7), StaleEvent(7)) && StaleState(8) == Next(StaleState(7), StaleEvent(7))
  {
    OneFrame(StaleState(7).frames, StaleState(7).spaces, Ready);
    assert SameState(StaleState(8), Next(StaleState(7), StaleEvent(7)));
  }

  lemma {:induction false} StaleRun() returns (states: seq<State>, events: seq<Event>)
    ensures IsRun(states, events) && |states| == 13 && |events| == 12
    ensures Initial(states[0]) && states[7] == StaleState(7) && states[11] == StaleState(11)
    ensures events[7..] == [Query(0), Resume(2), Begin(6), Jump(8), Query(0)]
  {
    states := seq(13, k requires 0 <= k < 13 => StaleState(k));
    events := seq(12, k requires 0 <= k < 12 => StaleEvent(k));
    forall k | 0 <= k < 12
      ensures StepAt(states, events, k)
    {
      StaleSteps(k);
    }
  }

  /** The last answer counts four words as common and sends none, though the consumer holds only two. */
  lemma {:induction false} StaleDelta() returns (states: seq<State>, events: seq<Event>)
    ensures IsRun(states, events) && Initial(states[0]) && |events| == 12 && events[11] == Query(0)
    ensures Consumer(states, events, 12, 0) == [1, 0]
    ensures Vector(states[11].frames, states[11].stack, 0) == [1, 0, 5, 0]
  {
    states, events := StaleRun();
    StaleAnswers();
    StaleConsumer(states, events);
  }

  lemma {:induction false} StaleSteps(k: nat)
    requires k < 12
    ensures Enabled(StaleState(k), StaleEvent(k)) && StaleState(k + 1) == Next(StaleState(k), StaleEvent(k))
  {
    if k in {0, 2, 8} {
      StaleEntry(k);
    } else if k in {1, 3} {
      StaleMove(k);
    } else if k in {6, 9, 10} {
      StaleLate(k);
    } else if k == 5 {
      StaleLeave();
    } else if k == 7 {
      StaleQueryAlone();
    } else {
      StaleQuery(k);
    }
  }

  lemma {:induction false} StaleAnswers()
    ensures DeltaOf(StaleState(7), 0) == Change(0, [1, 0])
    ensures DeltaOf(StaleState(11), 0) == Change(4, [])
    ensures Vector(StaleState(11).frames, StaleState(11).stack, 0) == [1, 0, 5, 0]
  {
    var s, s' := StaleState(7), StaleState(11);
    OneFrame(s.frames, s.spaces, Ready);
    assert [1][..0] == [];
    assert CommonWords(s.frames, [1], 0) == 0;
    TwoFrames(s'.frames, s'.spaces, Ready, Jumped(8));
    assert [1, 2][..1] == [1];
    assert CommonWords(s'.frames, [1], 0) == 2;
  }

  lemma {:induction false} StaleConsumer(states: seq<State>, events: seq<Event>)
    requires |states| == 13 && |events| == 12 && events[7..] == [Query(0), Resume(2), Begin(6), Jump(8), Query(0)]
    requires DeltaOf(states[7], 0) == Change(0, [1, 0]) && DeltaOf(states[11], 0) == Change(4, [])
    ensures events[11] == Query(0) && Consumer(states, events, 12, 0) == [1, 0]
  {
    var late := events[7..];
    assert events[7] == late[0] && events[8] == late[1] && events[9] == late[2] && events[10] == late[3] && events[11] == late[4];
    assert Consumer(states, events, 8, 0) == [1, 0];
    assert Consumer(states, events, 11, 0) == Consumer(states, events, 10, 0) == Consumer(states, events, 9, 0) == [1, 0];
  }
}
