/** What a thread reports of itself (retracemodule.c:164-272, 338-385; pycore_retrace.h:422-456): the
    loops run from the current frame to the oldest and fill their buffers backwards. */
module CoordinateQueries {
  import opened Bits
  import opened CoordinateHash
  import opened CoordinateMachine
  import opened CoordinateThread
  import opened CoordinateWalks
  import opened DeltaStream
  import opened SpaceRing

  /** The item is a frame of the space. */
  predicate Mine(item: Item, space: SpaceId) {
    item.Fr? && item.space == space
  }

  predicate KnownIn(stack: seq<Item>, frames: map<FrameId, FrameRec>) {
    forall h :: 0 <= h < |stack| && stack[h].Fr? ==> stack[h].frame in frames
  }

  /** One turn of a walk: what the item at the top of stack[..i] adds. */
  lemma {:induction false} WalkTurn(frames: map<FrameId, FrameRec>, stack: seq<Item>, i: nat, space: SpaceId)
    requires 0 < i <= |stack|
    ensures var below, item := stack[..i - 1], stack[i - 1];
            && Frames(stack[..i], space) == (if Mine(item, space) then Frames(below, space) + [item.frame] else Frames(below, space))
            && Vector(frames, stack[..i], space) ==
                 (if Mine(item, space) && item.frame in frames then Vector(frames, below, space) + Pair(frames[item.frame])
                  else Vector(frames, below, space))
  {
    assert Top(stack[..i]) == stack[i - 1] && Below(stack[..i]) == stack[..i - 1];
  }

  /** The words of the older frames come first. */
  lemma {:induction false} VectorPrefix(frames: map<FrameId, FrameRec>, stack: seq<Item>, i: nat, space: SpaceId)
    requires i <= |stack| && KnownIn(stack, frames)
    ensures Vector(frames, stack[..i], space) <= Vector(frames, stack, space)
    ensures |Vector(frames, stack[..i], space)| == 2 * |Frames(stack[..i], space)|
    decreases |stack| - i, i
  {
    if i == |stack| {
      assert stack[..i] == stack;
      VectorSize(frames, stack, space);
    } else {
      VectorPrefix(frames, stack, i + 1, space);
      WalkTurn(frames, stack, i + 1, space);
    }
  }

  lemma {:induction false} VectorSize(frames: map<FrameId, FrameRec>, stack: seq<Item>, space: SpaceId)
    requires KnownIn(stack, frames)
    ensures |Vector(frames, stack, space)| == 2 * |Frames(stack, space)|
  {
    if stack != [] {
      assert forall h :: 0 <= h < |stack| - 1 ==> Below(stack)[h] == stack[h];
      VectorSize(frames, Below(stack), space);
    }
  }

  /** How many words lie below a height of the stack, and which words the item at that height adds. */
  lemma {:induction false} WordsAt(frames: map<FrameId, FrameRec>, stack: seq<Item>, i: nat, space: SpaceId)
    requires i < |stack| && KnownIn(stack, frames)
    ensures var p, q, v := 2 * |Frames(stack[..i], space)|, 2 * |Frames(stack[..i + 1], space)|, Vector(frames, stack, space);
            && p <= q <= |v| && q == (if Mine(stack[i], space) then p + 2 else p)
            && (Mine(stack[i], space) ==> [v[p], v[p + 1]] == Pair(frames[stack[i].frame]))
  {
    WalkTurn(frames, stack, i + 1, space);
    VectorPrefix(frames, stack, i + 1, space);
    VectorPrefix(frames, stack, i, space);
  }

  /** The frame at a height of the stack, if it is visible in the space, and its words. */
  method ReadFrame(t: Thread, i: nat, space: SpaceNode) returns (mine: bool, instruction: nat, ordinal: nat)
    requires t.Valid() && Walkable(t) && Owned(t.nodes, space) && i < |t.stack|
    ensures mine == Mine(t.stack[i], space.id)
    ensures mine ==> t.stack[i].frame in t.FramesView() && [instruction, ordinal] == Pair(t.FramesView()[t.stack[i].frame])
  {
    mine, instruction, ordinal := false, 0, 0;
    if t.stack[i].Fr? {
      assert Visible(t, t.stack[i]);
      var fr := t.frames[t.stack[i].frame];
      if fr.space == space {
        assert t.FramesView()[fr.id] == RecOf(t.nodes, fr);
        mine, instruction, ordinal := true, fr.Position(), fr.ordinal;
      }
    }
  }

  method CoordinateCount(t: Thread, space: SpaceNode) returns (count: nat)
    requires t.Valid() && Walkable(t) && Owned(t.nodes, space)
    ensures count == 2 * |Frames(t.stack, space.id)|
  {
    count := 0;
    var i: nat := |t.stack|;
    assert t.stack[..i] == t.stack;
    while i > 0
      invariant i <= |t.stack|
      invariant count + 2 * |Frames(t.stack[..i], space.id)| == 2 * |Frames(t.stack, space.id)|
    {
      i := i - 1;
      WalkTurn(map[], t.stack, i + 1, space.id);
      var mine, _, _ := ReadFrame(t, i, space);
      if mine {
        count := count + 2;
      }
    }
  }

  lemma {:induction false} StackKnown(t: Thread)
    requires t.Valid() && Walkable(t)
    ensures KnownIn(t.stack, t.FramesView())
  {
    forall h | 0 <= h < |t.stack| && t.stack[h].Fr?
      ensures t.stack[h].frame in t.FramesView()
    {
      assert Visible(t, t.stack[h]);
    }
  }

  /** Writes the words of one frame in front of those already filled in. */
  method FillPair(coordinates: array<nat>, ghost vector: seq<nat>, position: nat, instruction: nat, ordinal: nat)
    requires position + 2 <= coordinates.Length == |vector| && coordinates[..][position + 2..] == vector[position + 2..]
    requires [instruction, ordinal] == [vector[position], vector[position + 1]]
    modifies coordinates
    ensures coordinates[..][position..] == vector[position..]
  {
    assert instruction == vector[position] && ordinal == vector[position + 1];
    coordinates[position], coordinates[position + 1] := instruction, ordinal;
  }

  /** The words of the frames from height i up are in place. */
  ghost predicate Filled(words: seq<nat>, frames: map<FrameId, FrameRec>, stack: seq<Item>, i: nat, space: SpaceId, position: nat) {
    && i <= |stack| && |words| == |Vector(frames, stack, space)| && position == 2 * |Frames(stack[..i], space)| <= |words|
    && words[position..] == Vector(frames, stack, space)[position..]
  }

  method FillTurn(coordinates: array<nat>, t: Thread, i: nat, space: SpaceNode, position: nat) returns (next: nat)
    requires t.Valid() && Walkable(t) && Owned(t.nodes, space) && coordinates !in t.repr && i < |t.stack|
    requires Filled(coordinates[..], t.FramesView(), t.stack, i + 1, space.id, position)
    modifies coordinates
    ensures Filled(coordinates[..], t.FramesView(), t.stack, i, space.id, next)
  {
    ghost var frames, stack := t.FramesView(), t.stack;
    StackKnown(t);
    WordsAt(frames, stack, i, space.id);
    next := position;
    var mine, instruction, ordinal := ReadFrame(t, i, space);
    if mine {
      next := position - 2;
      FillPair(coordinates, Vector(frames, stack, space.id), next, instruction, ordinal);
    }
  }

  method FillCoordinates(coordinates: array<nat>, t: Thread, space: SpaceNode)
    requires t.Valid() && Walkable(t) && Owned(t.nodes, space)
    requires coordinates !in t.repr && coordinates.Length == 2 * |Frames(t.stack, space.id)|
    modifies coordinates
    ensures coordinates[..] == Vector(t.FramesView(), t.stack, space.id)
  {
    ghost var frames, stack := t.FramesView(), t.stack;
    StackKnown(t);
    VectorSize(frames, stack, space.id);
    var position: nat := coordinates.Length;
    var i: nat := |t.stack|;
    assert stack[..i] == stack;
    while i > 0
      invariant i <= |stack| && Filled(coordinates[..], frames, stack, i, space.id, position)
      modifies coordinates
    {
      i := i - 1;
      position := FillTurn(coordinates, t, i, space, position);
    }
  }

  // ------------------------------------------------------------------ deltas

  /** What is known of the common count when the frames from a height up have been compared: it is
      final unless some older frame differs too. */
  ghost function Settled(frames: map<FrameId, FrameRec>, below: seq<Item>, space: SpaceId, common: nat): nat {
    var older := CommonWords(frames, Frames(below, space), space);
    if older == 2 * |Frames(below, space)| then common else older
  }

  lemma {:induction false} CommonBound(frames: map<FrameId, FrameRec>, active: seq<FrameId>, space: SpaceId)
    ensures CommonWords(frames, active, space) <= 2 * |active|
  {
    if active != [] {
      CommonBound(frames, active[..|active| - 1], space);
    }
  }

  lemma {:induction false} SettledTurn(frames: map<FrameId, FrameRec>, stack: seq<Item>, i: nat, space: SpaceId, common: nat)
    requires i < |stack| && common >= 2 * |Frames(stack[..i + 1], space)|
    requires Mine(stack[i], space) && stack[i].frame in frames
    ensures var p, r := 2 * |Frames(stack[..i], space)|, Remembered(frames[stack[i].frame], space);
            && p + 2 == 2 * |Frames(stack[..i + 1], space)|
            && Settled(frames, stack[..i + 1], space, common)
               == Settled(frames, stack[..i], space, if r < 2 then p + r else common)
  {
    WalkTurn(frames, stack, i + 1, space);
    var below := Frames(stack[..i], space);
    CommonBound(frames, below, space);
    CommonSnoc(frames, below, stack[i].frame, space);
  }

  lemma {:induction false} CommonSnoc(frames: map<FrameId, FrameRec>, below: seq<FrameId>, f: FrameId, space: SpaceId)
    requires f in frames
    ensures var c := CommonWords(frames, below, space);
            CommonWords(frames, below + [f], space) == if c == 2 * |below| then c + Remembered(frames[f], space) else c
  {
    assert (below + [f])[..|below|] == below;
  }

  /** How much of a frame's pair is remembered from the last delta of the space. */
  method Compare(t: Thread, i: nat, space: SpaceNode) returns (mine: bool, remembered: nat)
    requires t.Valid() && Walkable(t) && Owned(t.nodes, space) && i < |t.stack|
    ensures mine == Mine(t.stack[i], space.id)
    ensures mine ==> t.stack[i].frame in t.FramesView()
                     && remembered == Remembered(t.FramesView()[t.stack[i].frame], space.id) <= 2
  {
    var instruction, ordinal;
    mine, instruction, ordinal := ReadFrame(t, i, space);
    remembered := 2;
    if mine {
      var fr := t.frames[t.stack[i].frame];
      assert t.FramesView()[fr.id] == RecOf(t.nodes, fr);
      if fr.deltaSpace != space || fr.deltaInstruction != instruction {
        remembered := 0;
      } else if fr.deltaOrdinal != ordinal {
        remembered := 1;
      }
    }
  }

  method CommonCount(t: Thread, space: SpaceNode, size: nat) returns (common: nat)
    requires t.Valid() && Walkable(t) && Owned(t.nodes, space) && size == 2 * |Frames(t.stack, space.id)|
    ensures common == DeltaCount(t.View(), space.id) <= size
    ensures space.deltaRoot != At(space.root) ==> common == 0
    ensures forall p :: 0 <= p < common ==> WordHeld(t.FramesView(), Frames(t.stack, space.id), space.id, p)
    ensures space.deltaRoot == At(space.root) && common < size ==>
              !WordHeld(t.FramesView(), Frames(t.stack, space.id), space.id, common)
  {
    CommonExact(t.FramesView(), Frames(t.stack, space.id), space.id);
    assert t.View().spaces[space.id] == space.Record();
    CommonBound(t.FramesView(), Frames(t.stack, space.id), space.id);
    common := CompareChain(t, space, if space.deltaRoot == At(space.root) then size else 0, size);
  }

  /** The state of the comparison when the frames from height i up have been compared, starting from
      the whole size or from nothing to compare. */
  ghost predicate Comparing(frames: map<FrameId, FrameRec>, stack: seq<Item>, i: nat, space: SpaceId, start: nat, position: nat, common: nat) {
    && i <= |stack| && position == 2 * |Frames(stack[..i], space)|
    && if start == 0 then common == 0
       else common >= position && Settled(frames, stack[..i], space, common) == CommonWords(frames, Frames(stack, space), space)
  }

  /** The common count after a frame of which so many words are remembered. */
  function Lowered(common: nat, position: nat, remembered: nat): nat {
    if remembered < 2 && position + remembered < common then position + remembered else common
  }

  lemma {:induction false} ComparingTurn(frames: map<FrameId, FrameRec>, stack: seq<Item>, i: nat, space: SpaceId, start: nat, position: nat, common: nat)
    requires i < |stack| && Comparing(frames, stack, i + 1, space, start, position, common)
    ensures !Mine(stack[i], space) ==> Comparing(frames, stack, i, space, start, position, common)
    ensures Mine(stack[i], space) && stack[i].frame in frames ==>
              && position >= 2
              && Comparing(frames, stack, i, space, start, position - 2, Lowered(common, position - 2, Remembered(frames[stack[i].frame], space)))
  {
    WalkTurn(frames, stack, i + 1, space);
    if !Mine(stack[i], space) {
      SettledSame(frames, stack[..i + 1], stack[..i], space, common);
    } else if start != 0 && stack[i].frame in frames {
      SettledTurn(frames, stack, i, space, common);
      assert Lowered(common, position - 2, Remembered(frames[stack[i].frame], space)) >= position - 2;
    }
  }

  lemma {:induction false} SettledSame(frames: map<FrameId, FrameRec>, a: seq<Item>, b: seq<Item>, space: SpaceId, common: nat)
    requires Frames(a, space) == Frames(b, space)
    ensures Settled(frames, a, space, common) == Settled(frames, b, space, common)
  {
  }

  /** One turn of the first pass. */
  method CompareTurn(t: Thread, i: nat, space: SpaceNode, ghost start: nat, position: nat, common: nat) returns (next: nat, lower: nat)
    requires t.Valid() && Walkable(t) && Owned(t.nodes, space) && i < |t.stack|
    requires Comparing(t.FramesView(), t.stack, i + 1, space.id, start, position, common)
    ensures Comparing(t.FramesView(), t.stack, i, space.id, start, next, lower)
  {
    ComparingTurn(t.FramesView(), t.stack, i, space.id, start, position, common);
    next, lower := position, common;
    var mine, remembered := Compare(t, i, space);
    if mine {
      next := position - 2;
      if remembered == 0 && next < lower {
        lower := next;
      }
      if remembered == 1 && next + 1 < lower {
        lower := next + 1;
      }
    }
  }

  /** The loop, from the initial common count: the whole size, or nothing to compare. */
  method CompareChain(t: Thread, space: SpaceNode, start: nat, size: nat) returns (common: nat)
    requires t.Valid() && Walkable(t) && Owned(t.nodes, space) && size == 2 * |Frames(t.stack, space.id)|
    requires start == 0 || start == size
    ensures common == if start == 0 then 0 else CommonWords(t.FramesView(), Frames(t.stack, space.id), space.id)
  {
    ghost var frames, stack := t.FramesView(), t.stack;
    common := start;
    var position, i: nat := size, |t.stack|;
    CompareStart(frames, stack, space.id, start);
    while i > 0
      invariant i <= |stack| && Comparing(frames, stack, i, space.id, start, position, common)
    {
      i := i - 1;
      position, common := CompareTurn(t, i, space, start, position, common);
    }
  }

  lemma {:induction false} CompareStart(frames: map<FrameId, FrameRec>, stack: seq<Item>, space: SpaceId, start: nat)
    requires start == 0 || start == 2 * |Frames(stack, space)|
    ensures Comparing(frames, stack, |stack|, space, start, 2 * |Frames(stack, space)|, start)
  {
    assert stack[..|stack|] == stack;
    CommonBound(frames, Frames(stack, space), space);
  }

  /** Some frame of the space from a height of the stack up is this one. */
  ghost predicate Passed(stack: seq<Item>, i: nat, f: FrameId, space: SpaceId) {
    exists h :: i <= h < |stack| && Mine(stack[h], space) && stack[h].frame == f
  }

  lemma {:induction false} FramesPassed(stack: seq<Item>, f: FrameId, space: SpaceId)
    ensures f in Frames(stack, space) <==> Passed(stack, 0, f, space)
  {
    if stack != [] {
      var n := |stack| - 1;
      FramesPassed(Below(stack), f, space);
      assert forall h :: 0 <= h < n ==> Below(stack)[h] == stack[h];
      assert Mine(stack[n], space) && stack[n].frame == f ==> Passed(stack, 0, f, space);
      if Passed(Below(stack), 0, f, space) {
        var h :| 0 <= h < n && Mine(Below(stack)[h], space) && Below(stack)[h].frame == f;
        assert Mine(stack[h], space) && stack[h].frame == f;
      }
    }
  }

  lemma {:induction false} PassedTurn(stack: seq<Item>, i: nat, f: FrameId, space: SpaceId)
    requires i < |stack|
    ensures Passed(stack, i, f, space) <==> (Mine(stack[i], space) && stack[i].frame == f) || Passed(stack, i + 1, f, space)
  {
    if Passed(stack, i, f, space) {
      var h :| i <= h < |stack| && Mine(stack[h], space) && stack[h].frame == f;
      assert h == i || Passed(stack, i + 1, f, space);
    }
  }

  /** The frames after those from height i up have been remembered. */
  ghost predicate EmittedFrom(frames: map<FrameId, FrameRec>, now: map<FrameId, FrameRec>, stack: seq<Item>, i: nat, space: SpaceId) {
    && now.Keys == frames.Keys
    && forall f :: f in frames ==> now[f] == if Passed(stack, i, f, space) then Emit(frames[f], space) else frames[f]
  }

  lemma {:induction false} EmittedTurn(frames: map<FrameId, FrameRec>, now: map<FrameId, FrameRec>, stack: seq<Item>, i: nat, space: SpaceId)
    requires i < |stack| && EmittedFrom(frames, now, stack, i + 1, space)
    requires Mine(stack[i], space) ==> stack[i].frame in frames
    ensures Mine(stack[i], space) ==> Pair(now[stack[i].frame]) == Pair(frames[stack[i].frame])
    ensures EmittedFrom(frames,
                        if Mine(stack[i], space) then now[stack[i].frame := Emit(now[stack[i].frame], space)] else now,
                        stack, i, space)
  {
    forall f | f in frames
      ensures Passed(stack, i, f, space) <==> (Mine(stack[i], space) && stack[i].frame == f) || Passed(stack, i + 1, f, space)
    {
      PassedTurn(stack, i, f, space);
    }
  }

  /** The words of a frame of the space, which then remembers them. */
  method EmitFrame(t: Thread, ghost frames: map<FrameId, FrameRec>, i: nat, space: SpaceNode)
    returns (mine: bool, instruction: nat, ordinal: nat)
    requires t.Valid() && Walkable(t) && Owned(t.nodes, space) && i < |t.stack|
    requires KnownIn(t.stack, frames) && EmittedFrom(frames, t.FramesView(), t.stack, i + 1, space.id)
    modifies t.frames.Values`deltaSpace, t.frames.Values`deltaInstruction, t.frames.Values`deltaOrdinal
    ensures t.Valid() && Walkable(t) && t.View() == old(t.View()).(frames := t.FramesView())
    ensures EmittedFrom(frames, t.FramesView(), t.stack, i, space.id)
    ensures mine == Mine(t.stack[i], space.id)
    ensures mine ==> t.stack[i].frame in frames && [instruction, ordinal] == Pair(frames[t.stack[i].frame])
  {
    EmittedTurn(frames, t.FramesView(), t.stack, i, space.id);
    mine, instruction, ordinal := ReadFrame(t, i, space);
    if mine {
      t.Remember(t.frames[t.stack[i].frame], space);
    }
  }

  /** The words of a pair that lie past the common count. */
  method Past(suffix: seq<nat>, ghost vector: seq<nat>, common: nat, position: nat, instruction: nat, ordinal: nat) returns (longer: seq<nat>)
    requires common <= |vector| && position + 2 <= |vector|
    requires suffix == vector[Max(position + 2, common)..]
    requires [instruction, ordinal] == [vector[position], vector[position + 1]]
    ensures longer == vector[Max(position, common)..]
  {
    assert instruction == vector[position] && ordinal == vector[position + 1];
    longer := suffix;
    if position + 1 >= common {
      longer := [ordinal] + longer;
    }
    if position >= common {
      longer := [instruction] + longer;
    }
  }

  function Max(a: nat, b: nat): nat {
    if a < b then b else a
  }

  /** The words past the common count of the frames from height i up have been collected. */
  ghost predicate Collected(suffix: seq<nat>, frames: map<FrameId, FrameRec>, stack: seq<Item>, i: nat, space: SpaceId, common: nat, position: nat) {
    && i <= |stack| && common <= |Vector(frames, stack, space)|
    && position == 2 * |Frames(stack[..i], space)| <= |Vector(frames, stack, space)|
    && suffix == Vector(frames, stack, space)[Max(position, common)..]
  }

  /** The words of one frame, or of none, put in front of those collected. */
  method CollectTurn(suffix: seq<nat>, ghost frames: map<FrameId, FrameRec>, ghost stack: seq<Item>, ghost i: nat, ghost space: SpaceId,
                     common: nat, position: nat, mine: bool, instruction: nat, ordinal: nat)
    returns (longer: seq<nat>, next: nat)
    requires i < |stack| && KnownIn(stack, frames) && Collected(suffix, frames, stack, i + 1, space, common, position)
    requires mine == Mine(stack[i], space) && (mine ==> [instruction, ordinal] == Pair(frames[stack[i].frame]))
    ensures Collected(longer, frames, stack, i, space, common, next)
  {
    WordsAt(frames, stack, i, space);
    longer, next := suffix, position;
    if mine {
      next := position - 2;
      longer := Past(suffix, Vector(frames, stack, space), common, next, instruction, ordinal);
    }
  }

  /** One turn of the second pass. */
  method EmitTurn(suffix: seq<nat>, common: nat, position: nat, t: Thread, ghost frames: map<FrameId, FrameRec>, i: nat, space: SpaceNode)
    returns (longer: seq<nat>, next: nat)
    requires t.Valid() && Walkable(t) && Owned(t.nodes, space) && i < |t.stack|
    requires KnownIn(t.stack, frames) && EmittedFrom(frames, t.FramesView(), t.stack, i + 1, space.id)
    requires Collected(suffix, frames, t.stack, i + 1, space.id, common, position)
    modifies t.frames.Values`deltaSpace, t.frames.Values`deltaInstruction, t.frames.Values`deltaOrdinal
    ensures t.Valid() && Walkable(t) && t.View() == old(t.View()).(frames := t.FramesView())
    ensures EmittedFrom(frames, t.FramesView(), t.stack, i, space.id)
    ensures Collected(longer, frames, t.stack, i, space.id, common, next)
  {
    var mine, instruction, ordinal := EmitFrame(t, frames, i, space);
    longer, next := CollectTurn(suffix, frames, t.stack, i, space.id, common, position, mine, instruction, ordinal);
  }

  /** The second pass: the words past the common count are collected backwards, and every frame
      remembers the words it was asked for. */
  method EmitSuffix(common: nat, size: nat, t: Thread, space: SpaceNode) returns (suffix: seq<nat>)
    requires t.Valid() && Walkable(t) && Owned(t.nodes, space)
    requires common <= size == 2 * |Frames(t.stack, space.id)| == |Vector(t.FramesView(), t.stack, space.id)|
    modifies t.frames.Values`deltaSpace, t.frames.Values`deltaInstruction, t.frames.Values`deltaOrdinal
    ensures t.Valid() && t.View() == old(t.View()).(frames := t.FramesView())
    ensures EmittedFrom(old(t.FramesView()), t.FramesView(), t.stack, 0, space.id)
    ensures suffix == old(Vector(t.FramesView(), t.stack, space.id)[common..])
  {
    ghost var frames, spaces := t.FramesView(), t.SpacesView();
    StackKnown(t);
    suffix := [];
    var position, i: nat := size, |t.stack|;
    assert t.stack[..i] == t.stack;
    while i > 0
      invariant i <= |t.stack| && t.Valid() && Walkable(t) && t.SpacesView() == spaces
      invariant EmittedFrom(frames, t.FramesView(), t.stack, i, space.id)
      invariant Collected(suffix, frames, t.stack, i, space.id, common, position)
    {
      i := i - 1;
      suffix, position := EmitTurn(suffix, common, position, t, frames, i, space);
    }
  }

  /** thread_delta: the common count and the words past it, or nothing for a space never run in; the
      words are remembered on the frames and the root count on the space. */
  method ThreadDelta(t: Thread, id: SpaceId) returns (found: bool, delta: seq<nat>)
    requires t.Valid() && Walkable(t)
    modifies t.frames.Values`deltaSpace, t.frames.Values`deltaInstruction, t.frames.Values`deltaOrdinal, t.nodes.Values`deltaRoot
    ensures t.Valid() && t.View() == AfterQuery(old(t.View()), id)
    ensures match DeltaOf(old(t.View()), id)
            case NoSpace => !found
            case Change(count, suffix) => found && delta == [count] + suffix
  {
    found, delta := id in t.nodes && t.nodes[id].seen, [];
    assert found ==> t.View().spaces[id] == t.nodes[id].Record();
    if found {
      delta := DeltaOfSpace(t, t.nodes[id]);
    }
  }

  /** The first pass, over a buffer of the right size. */
  method CountWords(t: Thread, space: SpaceNode) returns (size: nat, common: nat)
    requires t.Valid() && Walkable(t) && Owned(t.nodes, space)
    ensures common == DeltaCount(t.View(), space.id) <= size
    ensures size == 2 * |Frames(t.stack, space.id)| == |Vector(t.FramesView(), t.stack, space.id)|
  {
    StackKnown(t);
    VectorSize(t.FramesView(), t.stack, space.id);
    size := CoordinateCount(t, space);
    common := CommonCount(t, space, size);
  }

  /** The two passes: how many leading words are remembered, and the words past them. */
  method Passes(t: Thread, space: SpaceNode) returns (common: nat, suffix: seq<nat>)
    requires t.Valid() && Walkable(t) && Owned(t.nodes, space)
    modifies t.frames.Values`deltaSpace, t.frames.Values`deltaInstruction, t.frames.Values`deltaOrdinal
    ensures t.Valid() && t.View() == old(t.View()).(frames := t.FramesView())
    ensures EmittedFrom(old(t.FramesView()), t.FramesView(), t.stack, 0, space.id)
    ensures common == DeltaCount(old(t.View()), space.id) <= |Vector(old(t.FramesView()), t.stack, space.id)|
    ensures suffix == Vector(old(t.FramesView()), t.stack, space.id)[common..]
  {
    var size;
    size, common := CountWords(t, space);
    suffix := EmitSuffix(common, size, t, space);
  }

  method DeltaOfSpace(t: Thread, space: SpaceNode) returns (delta: seq<nat>)
    requires t.Valid() && Walkable(t) && Owned(t.nodes, space) && space.seen
    modifies t.frames.Values`deltaSpace, t.frames.Values`deltaInstruction, t.frames.Values`deltaOrdinal, space`deltaRoot
    ensures t.Valid() && t.View() == AfterQuery(old(t.View()), space.id)
    ensures DeltaCount(old(t.View()), space.id) <= |Vector(old(t.FramesView()), t.stack, space.id)|
    ensures delta == [DeltaCount(old(t.View()), space.id)] + Vector(old(t.FramesView()), t.stack, space.id)[DeltaCount(old(t.View()), space.id)..]
  {
    ghost var s := t.View();
    assert s.spaces[space.id] == space.Record();
    var common, suffix := Passes(t, space);
    delta := [common] + suffix;
    QuerySteps(s, t.FramesView(), space.id);
    t.RememberRoot(space);
  }

  /** Once every frame has been remembered, remembering the root count completes the query. */
  lemma {:induction false} QuerySteps(s: State, now: map<FrameId, FrameRec>, space: SpaceId)
    requires EmittedFrom(s.frames, now, s.stack, 0, space) && space in s.spaces && s.spaces[space].seen
    ensures WithSpace(s.(frames := now), space, s.spaces[space].(deltaRoot := At(s.spaces[space].root))) == AfterQuery(s, space)
  {
    forall f | f in s.frames
      ensures f in Frames(s.stack, space) <==> Passed(s.stack, 0, f, space)
    {
      FramesPassed(s.stack, f, space);
    }
    assert AfterQuery(s, space).frames == now;
  }

  // ------------------------------------------------------------------ the hash

  /** The hash of the chain below a height: recursion to the root, then one pair mixed in on the way
      back for each frame of the space. */
  method CoordinateHashInSpace(t: Thread, i: nat, space: SpaceNode, mix: Mixer, rootHash: Word) returns (hash: Word)
    requires t.Valid() && Walkable(t) && Owned(t.nodes, space) && i <= |t.stack|
    ensures hash == ChainHash(mix, t.FramesView(), t.stack[..i], space.id, RootHash(mix, rootHash, space.root))
    decreases i
  {
    if i == 0 {
      return RootHash(mix, rootHash, space.root);
    }
    assert Top(t.stack[..i]) == t.stack[i - 1] && Below(t.stack[..i]) == t.stack[..i - 1];
    hash := CoordinateHashInSpace(t, i - 1, space, mix, rootHash);
    var mine, instruction, ordinal := ReadFrame(t, i - 1, space);
    if mine {
      assert [instruction, ordinal] == Pair(t.FramesView()[t.stack[i - 1].frame]);
      hash := MixPair(mix, hash, instruction, ordinal);
    }
  }
}
