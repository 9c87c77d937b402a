/** The delta stream (retracemodule.c:200-272): although only the words last emitted are remembered,
    frame by frame, a consumer that truncates and appends always holds the whole vector. */
module DeltaStream {
  import opened CoordinateMachine
  import opened SlotDiscipline
  import opened CoordinateOrder

  datatype Delta = NoSpace | Change(count: nat, suffix: seq<nat>)

  /** What thread_delta answers for a space. */
  ghost function DeltaOf(s: State, space: SpaceId): Delta {
    if space !in s.spaces || !s.spaces[space].seen then NoSpace
    else
      var vector := Vector(s.frames, s.stack, space);
      var count := DeltaCount(s, space);
      if count <= |vector| then Change(count, vector[count..]) else NoSpace
  }

  /** The consumer's rule: `del stack[count:]; stack.extend(suffix)`. */
  ghost function Apply(list: seq<nat>, delta: Delta): seq<nat> {
    match delta
    case NoSpace => list
    case Change(count, suffix) => (if count <= |list| then list[..count] else list) + suffix
  }

  /** The consumer's list after the first i events, all queries of the space going to it. */
  ghost function Consumer(states: seq<State>, events: seq<Event>, i: nat, space: SpaceId): seq<nat>
    requires |states| == |events| + 1 && i < |states|
  {
    if i == 0 then []
    else
      var list := Consumer(states, events, i - 1, space);
      if events[i - 1] == Query(space) then Apply(list, DeltaOf(states[i - 1], space)) else list
  }

  /** How many of the space's oldest active frames have been active ever since the last query. */
  ghost function Kept(states: seq<State>, events: seq<Event>, i: nat, space: SpaceId): nat
    requires |states| == |events| + 1 && i < |states|
  {
    if i == 0 then 0
    else KeptAfter(states[i - 1], events[i - 1], Kept(states, events, i - 1, space), space)
  }

  ghost function KeptAfter(s: State, e: Event, kept: nat, space: SpaceId): nat {
    var n := |Frames(s.stack, space)|;
    if e == Query(space) then n
    else if e.Leave? && s.stack != [] && Top(s.stack).Fr? && Top(s.stack).space == space && kept >= n then n - 1
    else kept
  }

  // ------------------------------------------------------------------ vectors and frames

  lemma {:induction false} VectorWords(frames: map<FrameId, FrameRec>, stack: seq<Item>, base: SpaceId, space: SpaceId)
    requires StackOk(frames, stack, base)
    ensures var active, v := Frames(stack, space), Vector(frames, stack, space);
            && |v| == 2 * |active|
            && forall j :: 0 <= j < |active| ==>
                 && active[j] in frames && OnStack(stack, active[j]) && frames[active[j]].place == In(space)
                 && v[2 * j] == Coordinate(frames[active[j]]) && v[2 * j + 1] == frames[active[j]].ordinal
  {
    if stack != [] {
      VectorWords(frames, Below(stack), base, space);
    }
  }

  /** The words counted as common are all remembered, and counting stops at a frame with none. */
  lemma {:induction false} CommonWordsMatch(frames: map<FrameId, FrameRec>, active: seq<FrameId>, space: SpaceId)
    requires forall j :: 0 <= j < |active| ==> active[j] in frames
    ensures var c := CommonWords(frames, active, space);
            && c <= 2 * |active|
            && (forall j :: 0 <= j < |active| && 2 * j < c ==>
                  frames[active[j]].cache.Words? && frames[active[j]].cache.instruction == Coordinate(frames[active[j]]))
            && (forall j :: 0 <= j < |active| && 2 * j + 1 < c ==>
                  frames[active[j]].cache.Words? && frames[active[j]].cache.ordinal == frames[active[j]].ordinal)
            && (forall j :: 0 <= j < |active| && Remembered(frames[active[j]], space) == 0 ==> c <= 2 * j)
  {
    if active != [] {
      CommonWordsMatch(frames, active[..|active| - 1], space);
    }
  }

  /** The p-th word of the vector over these frames is the one last emitted for it in this space. */
  ghost predicate WordHeld(frames: map<FrameId, FrameRec>, active: seq<FrameId>, space: SpaceId, p: nat)
    requires p < 2 * |active|
  {
    active[p / 2] in frames &&
    var fr := frames[active[p / 2]];
    && fr.cache.Words? && fr.cache.space == space
    && if p % 2 == 0 then fr.cache.instruction == Coordinate(fr) else fr.cache.ordinal == fr.ordinal
  }

  /** The common count is the number of words before the first that is not held: no less, no more. */
  lemma {:induction false} CommonExact(frames: map<FrameId, FrameRec>, active: seq<FrameId>, space: SpaceId)
    ensures var c := CommonWords(frames, active, space);
            && c <= 2 * |active|
            && (forall p :: 0 <= p < c ==> WordHeld(frames, active, space, p))
            && (c < 2 * |active| ==> !WordHeld(frames, active, space, c))
  {
    if active != [] {
      var n := |active| - 1;
      var below, b := active[..n], CommonWords(frames, active[..n], space);
      CommonExact(frames, below, space);
      forall p | 0 <= p < 2 * n
        ensures WordHeld(frames, active, space, p) <==> WordHeld(frames, below, space, p)
      {
        assert below[p / 2] == active[p / 2];
      }
      if b == 2 * n {
        LastFrameHeld(frames, active, space);
      }
    }
  }

  lemma {:induction false} LastFrameHeld(frames: map<FrameId, FrameRec>, active: seq<FrameId>, space: SpaceId)
    requires active != []
    ensures var n, f := |active| - 1, active[|active| - 1];
            var r := if f in frames then Remembered(frames[f], space) else 0;
            && r <= 2
            && (r > 0 ==> WordHeld(frames, active, space, 2 * n)) && (r > 1 ==> WordHeld(frames, active, space, 2 * n + 1))
            && (r == 0 ==> !WordHeld(frames, active, space, 2 * n)) && (r == 1 ==> !WordHeld(frames, active, space, 2 * n + 1))
  {
    var n := |active| - 1;
    assert (2 * n) / 2 == n && (2 * n + 1) / 2 == n && (2 * n) % 2 == 0 && (2 * n + 1) % 2 == 1;
  }

  /** The answer to a query: nothing for a space never run in; otherwise everything past the first word
      that is not held, and everything when the root count is not the one of the last query. */
  lemma {:induction false} AnswerExact(s: State, space: SpaceId)
    requires Inv(s)
    ensures DeltaOf(s, space) == NoSpace <==> space !in s.spaces || !s.spaces[space].seen
    ensures var active, v := Frames(s.stack, space), Vector(s.frames, s.stack, space);
            DeltaOf(s, space).Change? ==>
              var c := DeltaOf(s, space).count;
              && c <= |v| == 2 * |active| && DeltaOf(s, space).suffix == v[c..]
              && (s.spaces[space].deltaRoot != At(s.spaces[space].root) ==> c == 0)
              && (s.spaces[space].deltaRoot == At(s.spaces[space].root) ==>
                    && (forall p :: 0 <= p < c ==> WordHeld(s.frames, active, space, p))
                    && (c < |v| ==> !WordHeld(s.frames, active, space, c)))
  {
    VectorWords(s.frames, s.stack, s.base, space);
    CommonExact(s.frames, Frames(s.stack, space), space);
  }

  lemma {:induction false} SamePairs(frames: map<FrameId, FrameRec>, frames': map<FrameId, FrameRec>, stack: seq<Item>, space: SpaceId)
    requires frames'.Keys == frames.Keys && forall f :: f in frames ==> Pair(frames'[f]) == Pair(frames[f])
    ensures Vector(frames', stack, space) == Vector(frames, stack, space)
  {
    if stack != [] {
      SamePairs(frames, frames', Below(stack), space);
    }
  }

  /** What a query leaves on the frames. */
  lemma {:induction false} QueryFrames(s: State, space: SpaceId)
    requires space in s.spaces && s.spaces[space].seen
    ensures var s' := AfterQuery(s, space);
            && s'.stack == s.stack && s'.frames.Keys == s.frames.Keys
            && space in s'.spaces && s'.spaces[space].seen && s'.spaces[space].deltaRoot == At(s'.spaces[space].root)
            && (forall f :: f in s.frames ==> s'.frames[f] == if f in Frames(s.stack, space) then Emit(s.frames[f], space) else s.frames[f])
            && (forall f :: f in s.frames ==> Pair(s'.frames[f]) == Pair(s.frames[f]))
            && AfterQuery(s', space) == s'
  {
    var s' := AfterQuery(s, space);
    assert AfterQuery(s', space).frames == s'.frames && AfterQuery(s', space).spaces == s'.spaces;
  }

  /** A query right after another counts every word and sends none, and remembers nothing new. */
  lemma {:induction false} RepeatedQuery(s: State, space: SpaceId)
    requires Inv(s) && space in s.spaces && s.spaces[space].seen
    ensures var s', v := AfterQuery(s, space), Vector(s.frames, s.stack, space);
            && Vector(s'.frames, s'.stack, space) == v && DeltaOf(s', space) == Change(|v|, [])
            && AfterQuery(s', space) == s'
  {
    var s', active := AfterQuery(s, space), Frames(s.stack, space);
    QueryFrames(s, space);
    SamePairs(s.frames, s'.frames, s.stack, space);
    VectorWords(s.frames, s.stack, s.base, space);
    AllHeld(s'.frames, active, space);
  }

  lemma {:induction false} AllHeld(frames: map<FrameId, FrameRec>, active: seq<FrameId>, space: SpaceId)
    requires forall f :: f in active ==> f in frames && frames[f].cache == Words(space, Coordinate(frames[f]), frames[f].ordinal)
    ensures CommonWords(frames, active, space) == 2 * |active|
  {
    CommonExact(frames, active, space);
  }

  // ------------------------------------------------------------------ invariant

  /** A remembered instruction word is below the next boundary of its frame. */
  ghost predicate PastWord(s: State, f: FrameId, space: SpaceId)
    requires f in s.frames
  {
    s.frames[f].cache.Words? && s.frames[f].cache.space == space ==>
      s.frames[f].cache.instruction < NextAt(s.stack, f, s.frames[f])
  }

  /** The j-th active frame either was emitted by the last query, and its words are in the list, or
      has moved past any words it still remembers. */
  ghost predicate ActiveOk(s: State, space: SpaceId, list: seq<nat>, kept: nat, j: nat)
    requires j < |Frames(s.stack, space)| && 2 * kept <= |list|
  {
    var f := Frames(s.stack, space)[j];
    && f in s.frames
    && (j < kept ==> s.frames[f].cache == Words(space, list[2 * j], list[2 * j + 1]))
    && (j >= kept && Begun(s.stack, f) && s.frames[f].cache.Words? && s.frames[f].cache.space == space ==>
          s.frames[f].cache.instruction < NextAt(s.stack, f, s.frames[f]) - 1)
  }

  ghost predicate DeltaInv(s: State, space: SpaceId, list: seq<nat>, kept: nat) {
    && kept <= |Frames(s.stack, space)| && 2 * kept <= |list|
    && (forall f :: f in s.frames ==> PastWord(s, f, space))
    && (forall j :: 0 <= j < |Frames(s.stack, space)| ==> ActiveOk(s, space, list, kept, j))
    && (space !in s.spaces || !s.spaces[space].seen ==> list == [])
  }

  /** The frame reads its own position and has begun an instruction since it was activated, or it
      remembers no words of this space. */
  ghost predicate Settled(s: State, f: FrameId, space: SpaceId) {
    f in s.frames ==>
      || (Begun(s.stack, f) && ReadsTrue(s.frames[f], ModeOf(s.stack, f)))
      || !s.frames[f].cache.Words? || s.frames[f].cache.space != space
  }

  /** No active frame of the space reads a word that it may come to read again at a later boundary. */
  ghost predicate ReadsBehind(s: State, space: SpaceId) {
    forall f :: f in Frames(s.stack, space) && f in s.frames ==> Coordinate(s.frames[f]) < NextAt(s.stack, f, s.frames[f])
  }

  /** The delta of the space may be asked for: no frame of it reads ahead of itself in the middle of a
      jump, and the first one activated since the last query is settled. */
  ghost predicate Askable(s: State, space: SpaceId, kept: nat) {
    ReadsBehind(s, space) && (kept < |Frames(s.stack, space)| ==> Settled(s, Frames(s.stack, space)[kept], space))
  }

  /** Counting stops no later than the first frame activated since the last query. */
  lemma {:induction false} CountWithinKept(s: State, space: SpaceId, list: seq<nat>, kept: nat)
    requires Inv(s) && DeltaInv(s, space, list, kept) && Askable(s, space, kept)
    ensures DeltaCount(s, space) <= 2 * kept
  {
    var active := Frames(s.stack, space);
    VectorWords(s.frames, s.stack, s.base, space);
    CommonWordsMatch(s.frames, active, space);
    if kept < |active| {
      assert ActiveOk(s, space, list, kept, kept) && RecOk(s, active[kept]);
      assert Remembered(s.frames[active[kept]], space) == 0;
    }
  }

  lemma {:induction false} CommonWordHeld(s: State, space: SpaceId, list: seq<nat>, kept: nat, j: nat)
    requires Inv(s) && DeltaInv(s, space, list, kept) && j < kept
    ensures var c, v := DeltaCount(s, space), Vector(s.frames, s.stack, space);
            && |v| >= 2 * j + 2
            && (2 * j < c ==> v[2 * j] == list[2 * j]) && (2 * j + 1 < c ==> v[2 * j + 1] == list[2 * j + 1])
  {
    VectorWords(s.frames, s.stack, s.base, space);
    CommonWordsMatch(s.frames, Frames(s.stack, space), space);
    assert ActiveOk(s, space, list, kept, j);
  }

  /** Whatever is counted as common of the frames active since the last query is in the list. */
  lemma {:induction false} KeptWordsHeld(s: State, space: SpaceId, list: seq<nat>, kept: nat)
    requires Inv(s) && DeltaInv(s, space, list, kept)
    ensures var c, v := DeltaCount(s, space), Vector(s.frames, s.stack, space);
            c <= |v| && forall p :: 0 <= p < c && p < 2 * kept ==> v[p] == list[p]
  {
    VectorWords(s.frames, s.stack, s.base, space);
    CommonWordsMatch(s.frames, Frames(s.stack, space), space);
    forall p | 0 <= p < DeltaCount(s, space) && p < 2 * kept
      ensures Vector(s.frames, s.stack, space)[p] == list[p]
    {
      CommonWordHeld(s, space, list, kept, p / 2);
      assert p == 2 * (p / 2) || p == 2 * (p / 2) + 1;
    }
  }

  /** The list reaches up to `to` and agrees with the vector from `from` on. */
  ghost predicate AgreeOn(list: seq<nat>, v: seq<nat>, from: nat, to: nat) {
    to <= |list| && forall p :: from <= p < to ==> p < |v| && v[p] == list[p]
  }

  /** Exactly when the answer to a query repairs the consumer's list: the words counted as common past
      the frames active since the last query, if any, are in the list too. */
  lemma {:induction false} QueryExact(s: State, space: SpaceId, list: seq<nat>, kept: nat)
    requires Inv(s) && DeltaInv(s, space, list, kept) && space in s.spaces && s.spaces[space].seen
    ensures var c, v := DeltaCount(s, space), Vector(s.frames, s.stack, space);
            Apply(list, DeltaOf(s, space)) == v
            <==> AgreeOn(list, v, 2 * kept, c)
  {
    var c, v := DeltaCount(s, space), Vector(s.frames, s.stack, space);
    KeptWordsHeld(s, space, list, kept);
    RepairsWhenAgreed(list, v, c);
  }

  /** Truncating to the count and appending the rest gives the vector when the two agree up to it. */
  lemma {:induction false} RepairsWhenAgreed(list: seq<nat>, v: seq<nat>, c: nat)
    requires c <= |v|
    ensures Apply(list, Change(c, v[c..])) == v <==> c <= |list| && forall p :: 0 <= p < c ==> v[p] == list[p]
  {
    var after := Apply(list, Change(c, v[c..]));
    if c <= |list| {
      assert after == list[..c] + v[c..] && v == v[..c] + v[c..];
      if after == v {
        assert forall p :: 0 <= p < c ==> after[p] == list[p];
      } else {
        assert list[..c] != v[..c];
      }
    } else {
      assert |after| == |list| + |v| - c;
    }
  }

  /** The answer to a query repairs the consumer's list exactly. */
  lemma {:induction false} QueryRepairs(s: State, space: SpaceId, list: seq<nat>, kept: nat)
    requires Inv(s) && DeltaInv(s, space, list, kept) && Askable(s, space, kept)
    ensures Apply(list, DeltaOf(s, space)) == Vector(s.frames, s.stack, space)
  {
    if space !in s.spaces || !s.spaces[space].seen {
      VectorWords(s.frames, s.stack, s.base, space);
      UnseenEmpty(s.stack, s.spaces, space);
    } else {
      CountWithinKept(s, space, list, kept);
      QueryExact(s, space, list, kept);
    }
  }

  lemma {:induction false} UnseenEmpty(stack: seq<Item>, spaces: map<SpaceId, SpaceRec>, space: SpaceId)
    requires KnownSpaces(stack, spaces) && (space !in spaces || !spaces[space].seen)
    ensures Frames(stack, space) == []
  {
    if stack != [] {
      UnseenEmpty(Below(stack), spaces, space);
    }
  }

  lemma {:induction false} QueryInv(s: State, space: SpaceId, list: seq<nat>, kept: nat)
    requires Inv(s) && DeltaInv(s, space, list, kept) && ReadsBehind(s, space)
    ensures DeltaInv(AfterQuery(s, space), space, Vector(s.frames, s.stack, space), |Frames(s.stack, space)|)
  {
    var s' := AfterQuery(s, space);
    var active, v := Frames(s.stack, space), Vector(s.frames, s.stack, space);
    VectorWords(s.frames, s.stack, s.base, space);
    if space !in s.spaces || !s.spaces[space].seen {
      UnseenEmpty(s.stack, s.spaces, space);
    } else {
      forall f | f in s'.frames
        ensures PastWord(s', f, space)
      {
        assert PastWord(s, f, space) && RecOk(s, f);
      }
      forall j | 0 <= j < |active|
        ensures ActiveOk(s', space, v, |active|, j)
      {
        assert active[j] in active;
      }
    }
  }

  // ------------------------------------------------------------------ preservation

  lemma {:induction false} PushDelta(s: State, f: FrameId, space: SpaceId, list: seq<nat>, kept: nat)
    requires Inv(s) && !OnStack(s.stack, f) && f in s.frames
    requires DeltaInv(s, space, list, kept)
    ensures DeltaInv(Push(s, f), space, list, kept)
  {
    CurKnown(s.stack, s.spaces, s.base);
    VectorWords(s.frames, s.stack, s.base, space);
    var s' := Push(s, f);
    assert RecOk(s, f);
    assert Below(s'.stack) == s.stack;
    OffStackReady(s.stack, f);
    forall g | g in s'.frames
      ensures PastWord(s', g, space)
    {
      assert PastWord(s, g, space);
    }
    forall j | 0 <= j < |Frames(s'.stack, space)|
      ensures ActiveOk(s', space, list, kept, j)
    {
      assert j < |Frames(s.stack, space)| ==> ActiveOk(s, space, list, kept, j);
    }
    if space !in s'.spaces || !s'.spaces[space].seen {
      assert space !in s.spaces || !s.spaces[space].seen;
    }
  }

  lemma {:induction false} CallDelta(s: State, f: FrameId, space: SpaceId, list: seq<nat>, kept: nat)
    requires Inv(s) && !OnStack(s.stack, f) && DeltaInv(s, space, list, kept)
    ensures DeltaInv(s.(frames := s.frames[f := FRESH_FRAME]), space, list, kept)
  {
    AsideDelta(s, s.(frames := s.frames[f := FRESH_FRAME]), f, space, list, kept);
  }

  /** A change to one frame off the stack that does not revive words of the space. */
  lemma {:induction false} AsideDelta(s: State, s': State, f: FrameId, space: SpaceId, list: seq<nat>, kept: nat)
    requires Inv(s) && !OnStack(s.stack, f) && DeltaInv(s, space, list, kept)
    requires f in s'.frames && s' == s.(frames := s.frames[f := s'.frames[f]])
    requires PastWord(s', f, space)
    ensures DeltaInv(s', space, list, kept)
  {
    VectorWords(s.frames, s.stack, s.base, space);
    forall g | g in s'.frames
      ensures PastWord(s', g, space)
    {
      assert g != f ==> PastWord(s, g, space);
    }
    forall j | 0 <= j < |Frames(s'.stack, space)|
      ensures ActiveOk(s', space, list, kept, j)
    {
      assert ActiveOk(s, space, list, kept, j);
    }
  }

  lemma {:induction false} LeaveDelta(s: State, space: SpaceId, list: seq<nat>, kept: nat)
    requires Inv(s) && Enabled(s, Leave) && DeltaInv(s, space, list, kept)
    ensures DeltaInv(Next(s, Leave), space, list, KeptAfter(s, Leave, kept, space))
  {
    LeaveIs(s);
    BumpInv(s.(stack := Below(s.stack)));
    SlotMeaning(s.frames, Below(s.stack), s.base);
    var s', s1 := Next(s, Leave), Bumped(s);
    BumpFrames(s.(stack := Below(s.stack)), space);
    VectorWords(s.frames, s.stack, s.base, space);
    var kept' := KeptAfter(s, Leave, kept, space);
    forall g | g in s'.frames
      ensures PastWord(s', g, space)
    {
      LeavePast(s, g, space);
    }
    forall j | 0 <= j < |Frames(s'.stack, space)|
      ensures ActiveOk(s', space, list, kept', j)
    {
      LeaveActive(s, space, list, kept, j);
    }
  }

  lemma {:induction false} LeavePast(s: State, g: FrameId, space: SpaceId)
    requires Inv(s) && Enabled(s, Leave) && g in s.frames && g in Next(s, Leave).frames && PastWord(s, g, space)
    ensures PastWord(Next(s, Leave), g, space)
  {
    LeaveIs(s);
    BumpInv(s.(stack := Below(s.stack)));
    OffStackReady(Below(s.stack), Top(s.stack).frame);
  }

  lemma {:induction false} BumpFrames(s: State, space: SpaceId)
    requires StackOk(s.frames, s.stack, s.base)
    ensures Frames(Bump(s, SlotOf(s.stack, s.base)).stack, space) == Frames(s.stack, space)
  {
    SlotMeaning(s.frames, s.stack, s.base);
    var s' := Bump(s, SlotOf(s.stack, s.base));
    if s'.stack != s.stack {
      assert Below(s'.stack) == Below(s.stack);
    }
  }

  lemma {:induction false} LeaveActive(s: State, space: SpaceId, list: seq<nat>, kept: nat, j: nat)
    requires Inv(s) && Enabled(s, Leave) && DeltaInv(s, space, list, kept)
    requires j < |Frames(Below(s.stack), space)|
    ensures Frames(Next(s, Leave).stack, space) == Frames(Below(s.stack), space)
    ensures 2 * KeptAfter(s, Leave, kept, space) <= |list|
    ensures ActiveOk(Next(s, Leave), space, list, KeptAfter(s, Leave, kept, space), j)
  {
    LeaveIs(s);
    BumpInv(s.(stack := Below(s.stack)));
    BumpFrames(s.(stack := Below(s.stack)), space);
    VectorWords(s.frames, Below(s.stack), s.base, space);
    assert ActiveOk(s, space, list, kept, j);
  }

  lemma {:induction false} StepDelta(s: State, e: Event, space: SpaceId, list: seq<nat>, kept: nat)
    requires Inv(s) && Enabled(s, e) && (e.Begin? || e.Jump?) && DeltaInv(s, space, list, kept)
    ensures DeltaInv(Next(s, e), space, list, kept)
  {
    var s' := Next(s, e);
    assert Below(s'.stack) == Below(s.stack);
    VectorWords(s.frames, s.stack, s.base, space);
    forall g | g in s'.frames
      ensures PastWord(s', g, space)
    {
      assert PastWord(s, g, space);
    }
    forall j | 0 <= j < |Frames(s'.stack, space)|
      ensures ActiveOk(s', space, list, kept, j)
    {
      assert ActiveOk(s, space, list, kept, j);
      assert PastWord(s, Frames(s.stack, space)[j], space);
    }
  }

  lemma {:induction false} ScopeDelta(s: State, e: Event, space: SpaceId, list: seq<nat>, kept: nat)
    requires Inv(s) && Enabled(s, e) && (e.EnterSpace? || e.LeaveSpace?) && DeltaInv(s, space, list, kept)
    ensures DeltaInv(Next(s, e), space, list, kept)
  {
    var s' := Next(s, e);
    assert if e.EnterSpace? then Below(s'.stack) == s.stack else s'.stack == Below(s.stack);
    VectorWords(s.frames, s.stack, s.base, space);
    forall g | g in s'.frames
      ensures PastWord(s', g, space)
    {
      assert PastWord(s, g, space);
    }
    forall j | 0 <= j < |Frames(s'.stack, space)|
      ensures ActiveOk(s', space, list, kept, j)
    {
      assert ActiveOk(s, space, list, kept, j);
    }
  }

  lemma {:induction false} OtherQueryDelta(s: State, other: SpaceId, space: SpaceId, list: seq<nat>, kept: nat)
    requires Inv(s) && other != space && DeltaInv(s, space, list, kept)
    ensures DeltaInv(AfterQuery(s, other), space, list, kept)
  {
    var s' := AfterQuery(s, other);
    VectorWords(s.frames, s.stack, s.base, space);
    VectorWords(s.frames, s.stack, s.base, other);
    forall g | g in s'.frames
      ensures PastWord(s', g, space)
    {
      assert PastWord(s, g, space);
    }
    forall j | 0 <= j < |Frames(s'.stack, space)|
      ensures ActiveOk(s', space, list, kept, j)
    {
      assert ActiveOk(s, space, list, kept, j);
    }
  }

  lemma {:induction false} EventDelta(s: State, e: Event, space: SpaceId, list: seq<nat>, kept: nat)
    requires Inv(s) && Enabled(s, e) && DeltaInv(s, space, list, kept)
    requires e == Query(space) ==> Askable(s, space, kept)
    ensures DeltaInv(Next(s, e), space, if e == Query(space) then Apply(list, DeltaOf(s, space)) else list,
                     KeptAfter(s, e, kept, space))
  {
    match e
    case Call(f) =>
      CallInv(s, f);
      CallDelta(s, f, space, list, kept);
      PushDelta(s.(frames := s.frames[f := FRESH_FRAME]), f, space, list, kept);
    case Resume(f) => PushDelta(s, f, space, list, kept);
    case Leave => LeaveDelta(s, space, list, kept);
    case Begin(_) => StepDelta(s, e, space, list, kept);
    case Jump(_) => StepDelta(s, e, space, list, kept);
    case EnterSpace(_) => ScopeDelta(s, e, space, list, kept);
    case LeaveSpace => ScopeDelta(s, e, space, list, kept);
    case Query(other) =>
      if other == space {
        QueryRepairs(s, space, list, kept);
        QueryInv(s, space, list, kept);
      } else {
        OtherQueryDelta(s, other, space, list, kept);
      }
    case Foreign(f, _) =>
      assert PastWord(s, f, space) && RecOk(s, f);
      OffStackReady(s.stack, f);
      AsideDelta(s, Next(s, e), f, space, list, kept);
    case ResetCache(f) => AsideDelta(s, Next(s, e), f, space, list, kept);
  }

  // ------------------------------------------------------------------ whole runs

  /** Every query of the space among the first n events is asked for when it may be. */
  ghost predicate AllAskable(states: seq<State>, events: seq<Event>, n: nat, space: SpaceId)
    requires |states| == |events| + 1 && n <= |events|
  {
    forall k :: 0 <= k < n && events[k] == Query(space) ==> Askable(states[k], space, Kept(states, events, k, space))
  }

  lemma {:induction false} RunDelta(states: seq<State>, events: seq<Event>, i: nat, space: SpaceId)
    requires IsRun(states, events) && Initial(states[0]) && i < |states| && AllAskable(states, events, i, space)
    ensures DeltaInv(states[i], space, Consumer(states, events, i, space), Kept(states, events, i, space))
  {
    if i > 0 {
      RunDelta(states, events, i - 1, space);
      RunStep(states, events, i - 1);
      EventDelta(states[i - 1], events[i - 1], space,
                 Consumer(states, events, i - 1, space), Kept(states, events, i - 1, space));
    }
  }

  /** After every query of a run, the list the consumer has materialised is the space's coordinate
      vector, whatever calls, jumps, returns, generators suspended, resumed and thrown into, foreign
      threads and queries of other spaces came between. */
  lemma {:induction false} DeltaFaithful(states: seq<State>, events: seq<Event>, i: nat, space: SpaceId)
    requires IsRun(states, events) && Initial(states[0]) && i < |events| && events[i] == Query(space)
    requires AllAskable(states, events, i + 1, space)
    ensures Consumer(states, events, i + 1, space) == Vector(states[i].frames, states[i].stack, space)
  {
    RunDelta(states, events, i, space);
    RunStep(states, events, i);
    QueryRepairs(states[i], space, Consumer(states, events, i, space), Kept(states, events, i, space));
  }

  /** The first query that is asked for at a bad moment: its answer is exact or not by what it counts. */
  lemma {:induction false} DeltaExact(states: seq<State>, events: seq<Event>, i: nat, space: SpaceId)
    requires IsRun(states, events) && Initial(states[0]) && i < |events| && events[i] == Query(space)
    requires AllAskable(states, events, i, space) && space in states[i].spaces && states[i].spaces[space].seen
    ensures var s, list := states[i], Consumer(states, events, i, space);
            var c, v := DeltaCount(s, space), Vector(s.frames, s.stack, space);
            Consumer(states, events, i + 1, space) == v
            <==> AgreeOn(list, v, 2 * Kept(states, events, i, space), c)
  {
    RunDelta(states, events, i, space);
    RunStep(states, events, i);
    QueryExact(states[i], space, Consumer(states, events, i, space), Kept(states, events, i, space));
  }

  /** In an undisturbed run a query from the middle of an instruction may always be asked. */
  lemma {:induction false} QuietQuery(states: seq<State>, events: seq<Event>, i: nat, space: SpaceId, kept: nat)
    requires IsRun(states, events) && Initial(states[0]) && Undisturbed(states, events) && i < |states|
    requires Quiet(states[i].stack)
    ensures Askable(states[i], space, kept)
  {
    QuietRun(states, events, i);
    RunInv(states, events, i);
    var s := states[i];
    VectorWords(s.frames, s.stack, s.base, space);
    forall f | f in Frames(s.stack, space)
      ensures Settled(s, f, space) && f in s.frames && Coordinate(s.frames[f]) < NextAt(s.stack, f, s.frames[f])
    {
      QuietMode(s.stack, f);
      assert RecOk(s, f);
    }
  }

  /** So in an undisturbed run, with its queries in the middle of instructions, every answer is exact. */
  lemma {:induction false} PlainDelta(states: seq<State>, events: seq<Event>, i: nat, space: SpaceId)
    requires IsRun(states, events) && Initial(states[0]) && i < |events| && events[i] == Query(space)
    requires Undisturbed(states, events) && forall k :: 0 <= k <= i && events[k] == Query(space) ==> Quiet(states[k].stack)
    ensures Consumer(states, events, i + 1, space) == Vector(states[i].frames, states[i].stack, space)
  {
    forall k | 0 <= k <= i && events[k] == Query(space)
      ensures Askable(states[k], space, Kept(states, events, k, space))
    {
      QuietQuery(states, events, k, space, Kept(states, events, k, space));
    }
    DeltaFaithful(states, events, i, space);
  }

  lemma {:induction false} QuietMode(stack: seq<Item>, f: FrameId)
    requires Quiet(stack) && QuietBelow(stack)
    ensures ModeOf(stack, f) == Ready
  {
    if stack != [] {
      QuietMode(Below(stack), f);
    }
  }
}
