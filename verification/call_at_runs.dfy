/** call_at on the coordinates of a running thread: within one root activation the coordinates read at
    successive boundaries go forward, so a target is hit exactly when it is reached. */
module CallAtRuns {
  import opened Lexicographic
  import opened CoordinateMachine
  import opened SlotDiscipline
  import opened CoordinateOrder
  import SpaceCallbacks
  import CallAt
  import InterpreterRuns

  /** What the thread's coordinates read in a space. */
  ghost function ReadingOf(s: State, space: SpaceId): SpaceCallbacks.Reading {
    if space in s.spaces && s.spaces[space].seen
    then SpaceCallbacks.At(Vector(s.frames, s.stack, space))
    else SpaceCallbacks.Unseen
  }

  ghost predicate SeenIn(s: State, space: SpaceId) {
    space in s.spaces && s.spaces[space].seen
  }

  lemma {:induction false} SeenStays(states: seq<State>, events: seq<Event>, i: nat, j: nat, space: SpaceId)
    requires IsRun(states, events) && Initial(states[0]) && i <= j < |states|
    requires SeenIn(states[i], space)
    ensures SeenIn(states[j], space)
    decreases j - i
  {
    if i < j {
      SeenStays(states, events, i, j - 1, space);
      RunStep(states, events, j - 1);
      SeenStep(states[j - 1], events[j - 1], states[j], space);
    }
  }

  lemma {:induction false} SeenStep(s: State, e: Event, s': State, space: SpaceId)
    requires Inv(s) && Enabled(s, e) && s' == Next(s, e) && SeenIn(s, space)
    ensures SeenIn(s', space)
  {
    if e.Leave? {
      LeaveIs(s);
      SlotMeaning(s.frames, Below(s.stack), s.base);
    }
  }

  /** Two readings of a space, at boundaries of whatever spaces or in between, under one root count and
      with no frame of the space read in the middle of a jump: the later is not below the earlier. */
  lemma {:induction false} ReadingsForward(states: seq<State>, events: seq<Event>, i: nat, j: nat, space: SpaceId)
    requires IsRun(states, events) && Initial(states[0]) && i <= j < |states|
    requires Legible(states[i].frames, states[i].stack, space) && Legible(states[j].frames, states[j].stack, space)
    requires RootCount(states[i].spaces, states[i].stack, space) == RootCount(states[j].spaces, states[j].stack, space)
    requires ReadingOf(states[i], space).At? && AllForwards(states, events, i, j, space)
    ensures CallAt.ForwardPair(ReadingOf(states[i], space), ReadingOf(states[j], space))
  {
    SeenStays(states, events, i, j, space);
    ReadingExact(states[i], space);
    ReadingExact(states[j], space);
    RunPosition(states, events, i, j, space);
    LexCommonPrefix([RootCount(states[i].spaces, states[i].stack, space)],
                    Vector(states[i].frames, states[i].stack, space), Vector(states[j].frames, states[j].stack, space));
  }

  /** The checks of one thread in an interpreter's run are at boundaries of that thread's own run, at
      increasing points from `from` on, with the root count of the space the same at all of them and no
      frame of it read in the middle of a jump. */
  ghost predicate Follows(run: seq<InterpreterRuns.Event>, thread: nat, at: seq<nat>, states: seq<State>, events: seq<Event>, from: nat, space: SpaceId)
  {
    && |at| == |run| && |states| == |events| + 1 && from < |states|
    && (forall k :: 0 <= k < |run| && CallAt.ChecksOf(run[k], thread) ==>
          && from < at[k] < |states| && events[at[k] - 1].Begin?
          && run[k].readings(space) == ReadingOf(states[at[k]], space)
          && RootCount(states[at[k]].spaces, states[at[k]].stack, space) == RootCount(states[from].spaces, states[from].stack, space)
          && Legible(states[at[k]].frames, states[at[k]].stack, space))
    && (forall k, m :: 0 <= k < m < |run| && CallAt.ChecksOf(run[k], thread) && CallAt.ChecksOf(run[m], thread) ==> at[k] < at[m])
  }

  lemma {:induction false} FollowedReadings(run: seq<InterpreterRuns.Event>, thread: nat, space: SpaceId, at: seq<nat>,
                                            states: seq<State>, events: seq<Event>, from: nat)
    requires IsRun(states, events) && Initial(states[0]) && Follows(run, thread, at, states, events, from, space)
    requires ReadingOf(states[from], space).At? && AllForwards(states, events, from, |events|, space)
    ensures CallAt.Forward(run, thread, space)
  {
    forall k, m | 0 <= k <= m < |run| && CallAt.ChecksOf(run[k], thread) && CallAt.ChecksOf(run[m], thread)
      ensures CallAt.ForwardPair(run[k].readings(space), run[m].readings(space))
    {
      SeenStays(states, events, from, at[k], space);
      ReadingsForward(states, events, at[k], at[m], space);
    }
  }

  /** A target armed on a space its thread has run in, within one root activation and while no scope
      rewinds the space, as none does without bare nesting: the hit callback runs exactly when a check
      that consults the target reads it, the overshoot callback exactly when one was given and the
      thread goes past the target instead. */
  lemma {:induction false} HitIffReachedOnRun(s0: InterpreterRuns.Interp, run: seq<InterpreterRuns.Event>, w: SpaceCallbacks.Watch, space: SpaceId,
                                              at: seq<nat>, states: seq<State>, events: seq<Event>, from: nat)
    requires CallAt.Armed(s0, run, |run|, w, space)
    requires IsRun(states, events) && Initial(states[0]) && Follows(run, w.thread, at, states, events, from, space)
    requires ReadingOf(states[from], space).At? && AllForwards(states, events, from, |events|, space)
    ensures (exists i :: 0 <= i < |run| && CallAt.HitAt(s0, run, i, space))
            <==> (exists i :: 0 <= i < |run| && CallAt.ConsultedOn(s0, run, i, w, space))
    ensures (exists i :: 0 <= i < |run| && CallAt.OvershootAt(s0, run, i, space))
            <==> (w.overshoot && (exists i :: 0 <= i < |run| && CallAt.ConsultedPast(s0, run, i, w, space))
                  && !(exists i :: 0 <= i < |run| && CallAt.ConsultedOn(s0, run, i, w, space)))
  {
    FollowedReadings(run, w.thread, space, at, states, events, from);
    CallAt.HitIffReached(s0, run, w, space);
  }

  /** The same for the root's target or a thread's only one, in plain terms: what the checks read. */
  lemma {:induction false} HitIffReadOnRun(s0: InterpreterRuns.Interp, run: seq<InterpreterRuns.Event>, w: SpaceCallbacks.Watch, space: SpaceId,
                                           at: seq<nat>, states: seq<State>, events: seq<Event>, from: nat)
    requires CallAt.Armed(s0, run, |run|, w, space)
    requires space == SpaceCallbacks.ROOT || CallAt.Alone(s0, run, w.thread, space)
    requires IsRun(states, events) && Initial(states[0]) && Follows(run, w.thread, at, states, events, from, space)
    requires ReadingOf(states[from], space).At? && AllForwards(states, events, from, |events|, space)
    ensures (exists i :: 0 <= i < |run| && CallAt.HitAt(s0, run, i, space))
            <==> (exists i :: 0 <= i < |run| && CallAt.ReadsOn(run, i, w, space))
    ensures (exists i :: 0 <= i < |run| && CallAt.OvershootAt(s0, run, i, space))
            <==> (w.overshoot && (exists i :: 0 <= i < |run| && CallAt.ReadsPast(run, i, w, space))
                  && !(exists i :: 0 <= i < |run| && CallAt.ReadsOn(run, i, w, space)))
  {
    FollowedReadings(run, w.thread, space, at, states, events, from);
    CallAt.HitIffRead(s0, run, w, space);
  }

  /** Every boundary of the thread after `from` is checked. */
  ghost predicate ChecksEvery(run: seq<InterpreterRuns.Event>, thread: nat, at: seq<nat>, events: seq<Event>, from: nat)
    requires |at| == |run|
  {
    forall j :: from < j <= |events| && events[j - 1].Begin? ==> CheckedAt(run, thread, at, j)
  }

  ghost predicate CheckedAt(run: seq<InterpreterRuns.Event>, thread: nat, at: seq<nat>, j: nat)
    requires |at| == |run|
  {
    exists k :: 0 <= k < |run| && CallAt.ChecksOf(run[k], thread) && at[k] == j
  }

  /** A boundary after `from` at which the space reads the target. */
  ghost predicate BoundaryOn(states: seq<State>, events: seq<Event>, from: nat, j: nat, target: seq<nat>, space: SpaceId)
    requires |states| == |events| + 1
  {
    from < j < |states| && events[j - 1].Begin? && ReadingOf(states[j], space) == SpaceCallbacks.At(target)
  }

  ghost predicate BoundaryPast(states: seq<State>, events: seq<Event>, from: nat, j: nat, target: seq<nat>, space: SpaceId)
    requires |states| == |events| + 1
  {
    && from < j < |states| && events[j - 1].Begin?
    && ReadingOf(states[j], space).At? && LexLess(target, ReadingOf(states[j], space).vector)
  }

  /** What the checks read is what the boundaries read. */
  lemma {:induction false} CheckedBoundaries(run: seq<InterpreterRuns.Event>, w: SpaceCallbacks.Watch, space: SpaceId,
                                             at: seq<nat>, states: seq<State>, events: seq<Event>, from: nat)
    requires w.Watch? && Follows(run, w.thread, at, states, events, from, space) && ChecksEvery(run, w.thread, at, events, from)
    ensures (exists i :: 0 <= i < |run| && CallAt.ReadsOn(run, i, w, space))
            <==> (exists j :: BoundaryOn(states, events, from, j, w.target, space))
    ensures (exists i :: 0 <= i < |run| && CallAt.ReadsPast(run, i, w, space))
            <==> (exists j :: BoundaryPast(states, events, from, j, w.target, space))
  {
    forall i | 0 <= i < |run| && CallAt.ReadsOn(run, i, w, space)
      ensures BoundaryOn(states, events, from, at[i], w.target, space)
    {
    }
    forall i | 0 <= i < |run| && CallAt.ReadsPast(run, i, w, space)
      ensures BoundaryPast(states, events, from, at[i], w.target, space)
    {
    }
    forall j | BoundaryOn(states, events, from, j, w.target, space)
      ensures exists i :: 0 <= i < |run| && CallAt.ReadsOn(run, i, w, space)
    {
      assert CheckedAt(run, w.thread, at, j);
      var k :| 0 <= k < |run| && CallAt.ChecksOf(run[k], w.thread) && at[k] == j;
      assert CallAt.ReadsOn(run, k, w, space);
    }
    forall j | BoundaryPast(states, events, from, j, w.target, space)
      ensures exists i :: 0 <= i < |run| && CallAt.ReadsPast(run, i, w, space)
    {
      assert CheckedAt(run, w.thread, at, j);
      var k :| 0 <= k < |run| && CallAt.ChecksOf(run[k], w.thread) && at[k] == j;
      assert CallAt.ReadsPast(run, k, w, space);
    }
  }

  /** The rule in terms of the thread's own run: with every boundary checked, the hit callback of the
      root's target, or of a thread's only one, runs exactly when some later boundary reads the target,
      and the overshoot callback exactly when one was given and the thread goes past it instead. */
  lemma {:induction false} HitIffBoundary(s0: InterpreterRuns.Interp, run: seq<InterpreterRuns.Event>, w: SpaceCallbacks.Watch, space: SpaceId,
                                          at: seq<nat>, states: seq<State>, events: seq<Event>, from: nat)
    requires CallAt.Armed(s0, run, |run|, w, space)
    requires space == SpaceCallbacks.ROOT || CallAt.Alone(s0, run, w.thread, space)
    requires IsRun(states, events) && Initial(states[0]) && Follows(run, w.thread, at, states, events, from, space)
    requires ChecksEvery(run, w.thread, at, events, from)
    requires ReadingOf(states[from], space).At? && AllForwards(states, events, from, |events|, space)
    ensures (exists i :: 0 <= i < |run| && CallAt.HitAt(s0, run, i, space))
            <==> (exists j :: BoundaryOn(states, events, from, j, w.target, space))
    ensures (exists i :: 0 <= i < |run| && CallAt.OvershootAt(s0, run, i, space))
            <==> (w.overshoot && (exists j :: BoundaryPast(states, events, from, j, w.target, space))
                  && !(exists j :: BoundaryOn(states, events, from, j, w.target, space)))
  {
    HitIffReadOnRun(s0, run, w, space, at, states, events, from);
    CheckedBoundaries(run, w, space, at, states, events, from);
  }
}
