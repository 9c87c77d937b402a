/** When call_at callbacks run (retracemodule.c:1846-1966): a target is settled at the first check of
    its thread that consults it and is not below it, whatever else happens to the list of callbacks. */
module CallAt {
  import opened Lexicographic
  import opened SpaceCallbacks
  import opened InterpreterRuns

  /** No target ahead of that of the space in the list fires. */
  ghost predicate ReachedIn(entries: seq<Entry>, thread: ThreadId, readings: Readings, space: SpaceId) {
    || entries == []
    || entries[0].space == space
    || (!Judge(entries[0].watch, thread, readings(entries[0].space)).Fire?
        && ReachedIn(entries[1..], thread, readings, space))
  }

  /** No target ahead of that of the space fires at the check. */
  ghost predicate Reached(t: Table, thread: ThreadId, readings: Readings, space: SpaceId) {
    || space == ROOT
    || (!Judge(t.root, thread, readings(ROOT)).Fire? && ReachedIn(t.entries, thread, readings, space))
  }

  // ------------------------------------------------------------------ admission

  /** A target just admitted, checked at the reading it was admitted at with nothing ahead of it, either
      stays armed or is delivered: it is never lost. */
  lemma {:induction false} AdmittedIsHeard(t: Table, thread: ThreadId, target: seq<nat>, overshoot: bool, space: SpaceId, readings: Readings)
    requires TableOk(t) && Admission(thread, target, overshoot, true, readings(space)) == ArmResult.Armed
    ensures var w, armed := Watch(thread, target, overshoot), ArmedTable(t, space, Watch(thread, target, overshoot));
            var (after, delivery) := Checked(armed, thread, readings);
            && WatchOf(armed, space) == w
            && (WatchOf(after, space) == w || (delivery.Delivered? && delivery.space == space))
  {
    var w := Watch(thread, target, overshoot);
    AdmissionExact(thread, target, overshoot, true, readings(space));
    ArmingIsolated(t, space, w, space);
    EventKeepsOrder(Interp(NoThread, t), Arm(space, w));
    CheckedMeaning(ArmedTable(t, space, w), thread, readings, space);
  }

  // ------------------------------------------------------------------ arming

  lemma {:induction false} PlacedWatch(entries: seq<Entry>, space: SpaceId, w: Watch, other: SpaceId)
    requires Find(entries, space) < |entries|
    ensures var k := Find(entries, space);
            WatchIn(entries[k := entries[k].(watch := w)], other) == if other == space then w else WatchIn(entries, other)
  {
    var e, rest := entries[0], entries[1..];
    assert entries == [e] + rest;
    if e.space == space {
      PlacedHead(e, rest, w, other);
    } else {
      PlacedWatch(rest, space, w, other);
      PlacedBehind(e, rest, Find(rest, space), w, other);
    }
  }

  lemma {:induction false} PlacedHead(e: Entry, rest: seq<Entry>, w: Watch, other: SpaceId)
    ensures var entries := [e] + rest;
            WatchIn(entries[0 := e.(watch := w)], other) == if other == e.space then w else WatchIn(entries, other)
  {
    assert ([e] + rest)[0 := e.(watch := w)] == [e.(watch := w)] + rest;
    WatchCons(e, rest, other);
    WatchCons(e.(watch := w), rest, other);
  }

  lemma {:induction false} PlacedBehind(e: Entry, rest: seq<Entry>, k: nat, w: Watch, other: SpaceId)
    requires k < |rest|
    ensures var x, entries := rest[k].(watch := w), [e] + rest;
            && WatchIn(entries[k + 1 := x], other) == (if other == e.space then e.watch else WatchIn(rest[k := x], other))
            && WatchIn(entries, other) == (if other == e.space then e.watch else WatchIn(rest, other))
  {
    var x := rest[k].(watch := w);
    PlacedCons(e, rest, k, x);
    WatchCons(e, rest, other);
    WatchCons(e, rest[k := x], other);
  }

  lemma {:induction false} PlacedCons(e: Entry, rest: seq<Entry>, k: nat, x: Entry)
    requires k < |rest|
    ensures ([e] + rest)[k + 1 := x] == [e] + rest[k := x]
  {
  }

  /** Arming replaces the target of its space and no other, whether or not a node was there. */
  lemma {:induction false} ArmingIsolated(t: Table, space: SpaceId, w: Watch, other: SpaceId)
    requires TableOk(t)
    ensures WatchOf(ArmedTable(t, space, w), other) == if other == space then w else WatchOf(t, other)
    ensures WatchOf(ClearedTable(t, space), other) == if other == space then NoWatch else WatchOf(t, other)
  {
    if space != ROOT {
      ClearedWatch(t.entries, space, other);
      var cleared := Cleared(t.entries, space);
      if Find(cleared, space) == |cleared| {
        WatchCons(Entry(space, false, NoThread, w), cleared, other);
      } else {
        PlacedWatch(cleared, space, w, other);
      }
    }
  }

  // ------------------------------------------------------------------ one event

  /** What the head of the list leaves behind: itself, or a node with no target, or nothing. */
  lemma {:induction false} HeadWatch(e: Entry, tail: seq<Entry>, space: SpaceId)
    requires e.space == space ==> WatchIn(tail, space) == NoWatch
    ensures WatchIn([e] + tail, space) == if e.space == space then e.watch else WatchIn(tail, space)
    ensures WatchIn(Keep(e.(watch := NoWatch)) + tail, space) == if e.space == space then NoWatch else WatchIn(tail, space)
  {
    WatchCons(e, tail, space);
    WatchCons(e.(watch := NoWatch), tail, space);
    assert [] + tail == tail;
  }

  /** The outcome of a pass for one space, in terms of whether it comes to that space's node. */
  ghost predicate Settles(entries: seq<Entry>, thread: ThreadId, readings: Readings, space: SpaceId) {
    var (swept, delivery) := Sweep(entries, thread, readings);
    var reached := ReachedIn(entries, thread, readings, space);
    var verdict := Judge(WatchIn(entries, space), thread, readings(space));
    && WatchIn(swept, space) == (if reached && !verdict.Wait? then NoWatch else WatchIn(entries, space))
    && (delivery.Delivered? && delivery.space == space <==> reached && verdict.Fire?)
    && (delivery.Delivered? && delivery.space == space ==> delivery.hit == verdict.hit)
  }

  lemma {:induction false} SettlesHead(e: Entry, rest: seq<Entry>, thread: ThreadId, readings: Readings)
    requires WatchIn(rest, e.space) == NoWatch && Settles(rest, thread, readings, e.space)
    ensures Settles([e] + rest, thread, readings, e.space)
  {
    var entries := [e] + rest;
    assert entries[0] == e && entries[1..] == rest;
    HeadWatch(e, rest, e.space);
    HeadWatch(e, Sweep(rest, thread, readings).0, e.space);
  }

  lemma {:induction false} SettlesTail(e: Entry, rest: seq<Entry>, thread: ThreadId, readings: Readings, space: SpaceId)
    requires e.space != space && Settles(rest, thread, readings, space)
    ensures Settles([e] + rest, thread, readings, space)
  {
    var entries := [e] + rest;
    assert entries[0] == e && entries[1..] == rest;
    HeadWatch(e, rest, space);
    HeadWatch(e, Sweep(rest, thread, readings).0, space);
  }

  /** A pass settles a target exactly when it comes to it and the target does not wait. */
  lemma {:induction false} SweepMeaning(entries: seq<Entry>, thread: ThreadId, readings: Readings, space: SpaceId)
    requires DistinctSpaces(entries)
    ensures Settles(entries, thread, readings, space)
  {
    if entries != [] {
      var e, rest := entries[0], entries[1..];
      assert entries == [e] + rest;
      SweepMeaning(rest, thread, readings, space);
      if e.space == space {
        assert Find(rest, space) == |rest|;
        SettlesHead(e, rest, thread, readings);
      } else {
        SettlesTail(e, rest, thread, readings, space);
      }
    }
  }

  /** The same for the whole check, the root's target included. */
  lemma {:induction false} CheckedMeaning(t: Table, thread: ThreadId, readings: Readings, space: SpaceId)
    requires TableOk(t)
    ensures var (t', delivery) := Checked(t, thread, readings);
            var reached := Reached(t, thread, readings, space);
            var verdict := Judge(WatchOf(t, space), thread, readings(space));
            && WatchOf(t', space) == (if reached && !verdict.Wait? then NoWatch else WatchOf(t, space))
            && (delivery.Delivered? && delivery.space == space <==> reached && verdict.Fire?)
            && (delivery.Delivered? && delivery.space == space ==> delivery.hit == verdict.hit)
  {
    SweepMeaning(t.entries, thread, readings, space);
    if space == ROOT {
      var k := Find(t.entries, ROOT);
      assert k < |t.entries| ==> EntryOk(t.entries[k]);
      RootNotInList(t.entries, thread, readings);
    }
  }

  /** The root's target is never one of the list's. */
  lemma {:induction false} RootNotInList(entries: seq<Entry>, thread: ThreadId, readings: Readings)
    requires AllOk(entries)
    ensures var delivery := Sweep(entries, thread, readings).1;
            delivery.Delivered? ==> delivery.space != ROOT
  {
    if entries != [] {
      assert EntryOk(entries[0]);
      assert forall i :: 0 <= i < |entries| - 1 ==> entries[1..][i] == entries[i + 1];
      RootNotInList(entries[1..], thread, readings);
    }
  }

  /** The event arms or clears the target of the space. */
  ghost predicate Disturbs(e: Event, space: SpaceId) {
    (e.Arm? || e.Clear?) && e.space == space
  }

  /** An event that is no check and does not disturb a target leaves it alone, even when it moves or
      prunes nodes of the list. */
  lemma {:induction false} AsideWatch(s: Interp, e: Event, space: SpaceId)
    requires TableOk(s.table) && EventOk(e) && !e.Check? && !Disturbs(e, space)
    ensures WatchOf(After(s, e).table, space) == WatchOf(s.table, space)
  {
    match e
    case Turn(thread, at) => TurnWatch(s.table.entries, s.last, thread, at, space);
    case Arm(other, w) => ArmingIsolated(s.table, other, w, space);
    case Clear(other) => ArmingIsolated(s.table, other, NoWatch, space);
    case Register(other, install, visible) => RegisteredWatch(s.table.entries, other, install, visible, space);
  }

  lemma {:induction false} TurnWatch(entries: seq<Entry>, last: Cursor, thread: ThreadId, at: FrameSpace, space: SpaceId)
    requires DistinctSpaces(entries) && AllOk(entries)
    ensures WatchIn(SwitchStep(last, entries, thread, at).0, space) == WatchIn(entries, space)
  {
    if at.Within? && Matching(entries, at.space) < |entries| {
      var k := Matching(entries, at.space);
      var e := entries[k].(cursor := Last(thread));
      assert entries[..k] + [e] + entries[k + 1..] == entries[k := e];
      ReplacedWatch(entries, k, e, space);
      FindAt(entries, k);
    }
  }

  lemma {:induction false} RegisteredWatch(entries: seq<Entry>, other: SpaceId, install: bool, visible: Cursor, space: SpaceId)
    requires DistinctSpaces(entries)
    ensures WatchIn(Registered(entries, other, install, visible), space) == WatchIn(entries, space)
  {
    var k := Find(entries, other);
    if k < |entries| {
      ReplacedWatch(entries, k, Entry(other, install, if install then visible else NoThread, entries[k].watch), space);
    } else if install {
      WatchCons(Entry(other, true, visible, NoWatch), entries, space);
    }
  }

  // ------------------------------------------------------------------ runs

  /** The i-th event is a check of the thread that comes to the target of the space. */
  ghost predicate Consulted(s0: Interp, run: seq<Event>, i: nat, thread: ThreadId, space: SpaceId)
    requires i < |run|
  {
    run[i].Check? && run[i].thread == thread && Reached(StateAt(s0, run, i).table, thread, run[i].readings, space)
  }

  ghost predicate ReadsBelow(e: Event, target: seq<nat>, space: SpaceId) {
    e.Check? && e.readings(space).At? && LexLess(e.readings(space).vector, target)
  }

  /** Every consultation among the first n events found the target still ahead. */
  ghost predicate StillAhead(s0: Interp, run: seq<Event>, n: nat, w: Watch, space: SpaceId)
    requires n <= |run| && w.Watch?
  {
    n > 0 ==>
      && StillAhead(s0, run, n - 1, w, space)
      && (Consulted(s0, run, n - 1, w.thread, space) ==> ReadsBelow(run[n - 1], w.target, space))
  }

  /** The target w is armed for the space at the start, and nobody arms or clears a target of that space
      during the first n events. Everything else may happen: other targets are armed, hit, cleared and
      dropped, callbacks come and go, threads take turns. */
  ghost predicate Armed(s0: Interp, run: seq<Event>, n: nat, w: Watch, space: SpaceId)
    requires n <= |run|
  {
    && TableOk(s0.table) && RunOk(run) && w.Watch? && WatchOf(s0.table, space) == w
    && forall k :: 0 <= k < n ==> !Disturbs(run[k], space)
  }

  lemma {:induction false} EventWatch(s0: Interp, run: seq<Event>, k: nat, w: Watch, space: SpaceId)
    requires k < |run| && Armed(s0, run, k + 1, w, space)
    ensures var before, after := WatchOf(StateAt(s0, run, k).table, space), WatchOf(StateAt(s0, run, k + 1).table, space);
            && (before == NoWatch ==> after == NoWatch)
            && (before == w ==>
                  after == if Consulted(s0, run, k, w.thread, space) && !ReadsBelow(run[k], w.target, space) then NoWatch else w)
  {
    RunKeepsOrder(s0, run, k);
    var s := StateAt(s0, run, k);
    assert EventOk(run[k]) && !Disturbs(run[k], space);
    if run[k].Check? {
      CheckedMeaning(s.table, run[k].thread, run[k].readings, space);
    } else {
      AsideWatch(s, run[k], space);
    }
  }

  /** A target stays armed, unchanged, exactly as long as it is still ahead. */
  lemma {:induction false} ArmedWhileAhead(s0: Interp, run: seq<Event>, n: nat, w: Watch, space: SpaceId)
    requires n <= |run| && Armed(s0, run, n, w, space)
    ensures WatchOf(StateAt(s0, run, n).table, space) == if StillAhead(s0, run, n, w, space) then w else NoWatch
  {
    if n > 0 {
      ArmedWhileAhead(s0, run, n - 1, w, space);
      ArmedStep(s0, run, n - 1, w, space);
    }
  }

  lemma {:induction false} ArmedStep(s0: Interp, run: seq<Event>, k: nat, w: Watch, space: SpaceId)
    requires k < |run| && Armed(s0, run, k + 1, w, space)
    requires WatchOf(StateAt(s0, run, k).table, space) == if StillAhead(s0, run, k, w, space) then w else NoWatch
    ensures WatchOf(StateAt(s0, run, k + 1).table, space) == if StillAhead(s0, run, k + 1, w, space) then w else NoWatch
  {
    EventWatch(s0, run, k, w, space);
  }

  /** What the i-th event delivers. */
  ghost function DeliveryAt(s0: Interp, run: seq<Event>, i: nat): Delivery
    requires i < |run|
  {
    Delivers(StateAt(s0, run, i), run[i])
  }

  /** Exactly when the callbacks of a target run, in any run that does not arm or clear its space: the
      hit callback at the first consultation that is not below the target if it reads the target, the
      overshoot callback there if it reads past it. */
  lemma {:induction false} CallAtExact(s0: Interp, run: seq<Event>, i: nat, w: Watch, space: SpaceId)
    requires i < |run| && Armed(s0, run, i, w, space)
    ensures var first := StillAhead(s0, run, i, w, space) && Consulted(s0, run, i, w.thread, space);
            && (DeliveryAt(s0, run, i) == Delivered(space, true) <==> first && run[i].readings(space) == At(w.target))
            && (DeliveryAt(s0, run, i) == Delivered(space, false)
                <==> first && w.overshoot && run[i].readings(space).At? && LexLess(w.target, run[i].readings(space).vector))
  {
    ArmedWhileAhead(s0, run, i, w, space);
    RunKeepsOrder(s0, run, i);
    if run[i].Check? {
      CheckedMeaning(StateAt(s0, run, i).table, run[i].thread, run[i].readings, space);
      Trichotomy(run[i].readings(space), w.target);
    }
  }

  lemma {:induction false} Trichotomy(reading: Reading, target: seq<nat>)
    ensures reading.At? ==>
              && (LexLess(reading.vector, target) || reading.vector == target || LexLess(target, reading.vector))
              && !(LexLess(reading.vector, target) && LexLess(target, reading.vector))
              && !LexLess(target, target)
  {
    if reading.At? {
      LexTotal(reading.vector, target);
      if LexLess(reading.vector, target) {
        LexAsymmetric(reading.vector, target);
      }
      if LexLess(target, target) {
        LexAsymmetric(target, target);
      }
    }
  }

  ghost predicate DeliversFor(s0: Interp, run: seq<Event>, i: nat, space: SpaceId)
    requires i < |run|
  {
    DeliveryAt(s0, run, i).Delivered? && DeliveryAt(s0, run, i).space == space
  }

  /** A target fires at most once. */
  lemma {:induction false} FiresOnce(s0: Interp, run: seq<Event>, i: nat, j: nat, w: Watch, space: SpaceId)
    requires i < j < |run| && Armed(s0, run, j, w, space) && DeliversFor(s0, run, i, space)
    ensures !DeliversFor(s0, run, j, space)
  {
    CallAtExact(s0, run, i, w, space);
    CallAtExact(s0, run, j, w, space);
    assert DeliveryAt(s0, run, i) == Delivered(space, true) || DeliveryAt(s0, run, i) == Delivered(space, false);
    Trichotomy(run[i].readings(space), w.target);
    if StillAhead(s0, run, j, w, space) {
      AheadEarlier(s0, run, i + 1, j, w, space);
    }
  }

  lemma {:induction false} AheadEarlier(s0: Interp, run: seq<Event>, m: nat, n: nat, w: Watch, space: SpaceId)
    requires m <= n <= |run| && w.Watch? && StillAhead(s0, run, n, w, space)
    ensures StillAhead(s0, run, m, w, space)
  {
    if m < n {
      AheadEarlier(s0, run, m, n - 1, w, space);
    }
  }

  /** The first consultation that is not below the target. */
  lemma {:induction false} FirstSettled(s0: Interp, run: seq<Event>, n: nat, w: Watch, space: SpaceId) returns (k: nat)
    requires n <= |run| && w.Watch? && !StillAhead(s0, run, n, w, space)
    ensures k < n && StillAhead(s0, run, k, w, space)
    ensures Consulted(s0, run, k, w.thread, space) && !ReadsBelow(run[k], w.target, space)
  {
    if StillAhead(s0, run, n - 1, w, space) {
      k := n - 1;
    } else {
      k := FirstSettled(s0, run, n - 1, w, space);
    }
  }

  /** The thread's readings of the space never go back. */
  ghost predicate Forward(run: seq<Event>, thread: ThreadId, space: SpaceId) {
    forall i, j :: 0 <= i <= j < |run| && ChecksOf(run[i], thread) && ChecksOf(run[j], thread) ==>
      ForwardPair(run[i].readings(space), run[j].readings(space))
  }

  predicate ChecksOf(e: Event, thread: ThreadId) {
    e.Check? && e.thread == thread
  }

  predicate ForwardPair(a: Reading, b: Reading) {
    a.At? && b.At? && LexLeq(a.vector, b.vector)
  }

  ghost predicate HitAt(s0: Interp, run: seq<Event>, i: nat, space: SpaceId)
    requires i < |run|
  {
    DeliveryAt(s0, run, i) == Delivered(space, true)
  }

  ghost predicate OvershootAt(s0: Interp, run: seq<Event>, i: nat, space: SpaceId)
    requires i < |run|
  {
    DeliveryAt(s0, run, i) == Delivered(space, false)
  }

  ghost predicate ConsultedOn(s0: Interp, run: seq<Event>, i: nat, w: Watch, space: SpaceId)
    requires i < |run| && w.Watch?
  {
    Consulted(s0, run, i, w.thread, space) && run[i].readings(space) == At(w.target)
  }

  ghost predicate ConsultedPast(s0: Interp, run: seq<Event>, i: nat, w: Watch, space: SpaceId)
    requires i < |run| && w.Watch?
  {
    Consulted(s0, run, i, w.thread, space) && run[i].readings(space).At? && LexLess(w.target, run[i].readings(space).vector)
  }

  lemma {:induction false} HitAtOrBefore(s0: Interp, run: seq<Event>, i: nat, w: Watch, space: SpaceId) returns (k: nat)
    requires i < |run| && Armed(s0, run, |run|, w, space) && Forward(run, w.thread, space)
    requires ConsultedOn(s0, run, i, w, space)
    ensures k <= i && HitAt(s0, run, k, space)
  {
    Trichotomy(run[i].readings(space), w.target);
    k := FirstSettled(s0, run, i + 1, w, space);
    CallAtExact(s0, run, k, w, space);
    assert ForwardPair(run[k].readings(space), run[i].readings(space));
  }

  lemma {:induction false} SettledAtOrBefore(s0: Interp, run: seq<Event>, i: nat, w: Watch, space: SpaceId) returns (k: nat)
    requires i < |run| && Armed(s0, run, |run|, w, space) && Forward(run, w.thread, space)
    requires ConsultedPast(s0, run, i, w, space)
    ensures k <= i && (ConsultedOn(s0, run, k, w, space) || (w.overshoot ==> OvershootAt(s0, run, k, space)))
  {
    Trichotomy(run[i].readings(space), w.target);
    k := FirstSettled(s0, run, i + 1, w, space);
    CallAtExact(s0, run, k, w, space);
    assert ForwardPair(run[k].readings(space), run[k].readings(space));
    Trichotomy(run[k].readings(space), w.target);
  }

  /** While the coordinates go forward, the hit callback runs exactly when some consultation reads the
      target, and the overshoot callback exactly when one was given, some consultation reads past the
      target, and none reads it. */
  lemma {:induction false} HitIffReached(s0: Interp, run: seq<Event>, w: Watch, space: SpaceId)
    requires Armed(s0, run, |run|, w, space) && Forward(run, w.thread, space)
    ensures (exists i :: 0 <= i < |run| && HitAt(s0, run, i, space))
            <==> (exists i :: 0 <= i < |run| && ConsultedOn(s0, run, i, w, space))
    ensures (exists i :: 0 <= i < |run| && OvershootAt(s0, run, i, space))
            <==> (w.overshoot && (exists i :: 0 <= i < |run| && ConsultedPast(s0, run, i, w, space))
                  && !(exists i :: 0 <= i < |run| && ConsultedOn(s0, run, i, w, space)))
  {
    if i :| 0 <= i < |run| && HitAt(s0, run, i, space) {
      CallAtExact(s0, run, i, w, space);
      assert ConsultedOn(s0, run, i, w, space);
    }
    if j :| 0 <= j < |run| && ConsultedOn(s0, run, j, w, space) {
      var k := HitAtOrBefore(s0, run, j, w, space);
      forall i | 0 <= i < |run|
        ensures !OvershootAt(s0, run, i, space)
      {
        OnlyOneKind(s0, run, k, i, w, space);
      }
    } else if i :| 0 <= i < |run| && OvershootAt(s0, run, i, space) {
      CallAtExact(s0, run, i, w, space);
      assert ConsultedPast(s0, run, i, w, space);
    } else if i :| 0 <= i < |run| && ConsultedPast(s0, run, i, w, space) {
      var k := SettledAtOrBefore(s0, run, i, w, space);
    }
  }

  lemma {:induction false} OnlyOneKind(s0: Interp, run: seq<Event>, k: nat, i: nat, w: Watch, space: SpaceId)
    requires k < |run| && i < |run| && Armed(s0, run, |run|, w, space) && HitAt(s0, run, k, space)
    ensures !OvershootAt(s0, run, i, space)
  {
    if i < k && OvershootAt(s0, run, i, space) {
      FiresOnce(s0, run, i, k, w, space);
    } else if k < i {
      FiresOnce(s0, run, k, i, w, space);
    }
  }

  // ------------------------------------------------------------------ targets that are never passed over

  ghost predicate ReadsOn(run: seq<Event>, i: nat, w: Watch, space: SpaceId)
    requires i < |run| && w.Watch?
  {
    ChecksOf(run[i], w.thread) && run[i].readings(space) == At(w.target)
  }

  ghost predicate ReadsPast(run: seq<Event>, i: nat, w: Watch, space: SpaceId)
    requires i < |run| && w.Watch?
  {
    ChecksOf(run[i], w.thread) && run[i].readings(space).At? && LexLess(w.target, run[i].readings(space).vector)
  }

  /** Every check of the thread comes to the target of the space. */
  ghost predicate AlwaysReached(s0: Interp, run: seq<Event>, thread: ThreadId, space: SpaceId) {
    forall i :: 0 <= i < |run| && ChecksOf(run[i], thread) ==> Consulted(s0, run, i, thread, space)
  }

  /** No other space has a target of the thread at the start, and none is armed. */
  ghost predicate Alone(s0: Interp, run: seq<Event>, thread: ThreadId, space: SpaceId) {
    && OthersElsewhere(s0.table, thread, space)
    && forall i :: 0 <= i < |run| && run[i].Arm? && run[i].watch.Watch? && run[i].watch.thread == thread ==> run[i].space == space
  }

  ghost predicate OthersElsewhere(t: Table, thread: ThreadId, space: SpaceId) {
    forall other :: other != space ==> Elsewhere(WatchOf(t, other), thread)
  }

  predicate Elsewhere(w: Watch, thread: ThreadId) {
    w.Watch? ==> w.thread != thread
  }

  lemma {:induction false} StaysElsewhere(s0: Interp, run: seq<Event>, i: nat, thread: ThreadId, space: SpaceId)
    requires TableOk(s0.table) && RunOk(run) && Alone(s0, run, thread, space) && i <= |run|
    ensures OthersElsewhere(StateAt(s0, run, i).table, thread, space)
  {
    if i > 0 {
      StaysElsewhere(s0, run, i - 1, thread, space);
      ElsewhereEvent(s0, run, i - 1, thread, space);
    }
  }

  lemma {:induction false} ElsewhereEvent(s0: Interp, run: seq<Event>, k: nat, thread: ThreadId, space: SpaceId)
    requires TableOk(s0.table) && RunOk(run) && Alone(s0, run, thread, space) && k < |run|
    requires OthersElsewhere(StateAt(s0, run, k).table, thread, space)
    ensures OthersElsewhere(StateAt(s0, run, k + 1).table, thread, space)
  {
    RunKeepsOrder(s0, run, k);
    AloneArms(s0, run, k, thread, space);
    ElsewhereStep(StateAt(s0, run, k), run[k], thread, space);
  }

  lemma {:induction false} AloneArms(s0: Interp, run: seq<Event>, k: nat, thread: ThreadId, space: SpaceId)
    requires RunOk(run) && Alone(s0, run, thread, space) && k < |run|
    ensures EventOk(run[k]) && (run[k].Arm? && run[k].watch.Watch? && run[k].watch.thread == thread ==> run[k].space == space)
  {
  }

  lemma {:induction false} ElsewhereStep(s: Interp, e: Event, thread: ThreadId, space: SpaceId)
    requires TableOk(s.table) && EventOk(e) && OthersElsewhere(s.table, thread, space)
    requires e.Arm? && e.watch.Watch? && e.watch.thread == thread ==> e.space == space
    ensures OthersElsewhere(After(s, e).table, thread, space)
  {
    forall other | other != space
      ensures Elsewhere(WatchOf(After(s, e).table, other), thread)
    {
      assert Elsewhere(WatchOf(s.table, other), thread);
      OtherWatch(s, e, other);
    }
  }

  /** An event leaves a space with the target it had, with none, or with the one it arms. */
  lemma {:induction false} OtherWatch(s: Interp, e: Event, space: SpaceId)
    requires TableOk(s.table) && EventOk(e)
    ensures WatchOf(After(s, e).table, space)
         in {WatchOf(s.table, space), NoWatch, if e.Arm? && e.space == space then e.watch else NoWatch}
  {
    match e
    case Check(thread, readings) => CheckedMeaning(s.table, thread, readings, space);
    case Arm(other, w) => ArmingIsolated(s.table, other, w, space);
    case Clear(other) => ArmingIsolated(s.table, other, NoWatch, space);
    case _ => AsideWatch(s, e, space);
  }

  lemma {:induction false} ElsewhereReached(entries: seq<Entry>, thread: ThreadId, readings: Readings, space: SpaceId)
    requires forall i :: 0 <= i < |entries| && entries[i].space != space ==> Elsewhere(entries[i].watch, thread)
    ensures ReachedIn(entries, thread, readings, space)
  {
    if entries != [] {
      assert forall i :: 0 <= i < |entries| - 1 ==> entries[1..][i] == entries[i + 1];
      ElsewhereReached(entries[1..], thread, readings, space);
    }
  }

  /** The root's target is consulted at every check of its thread, and so is any target whose thread has
      no other. */
  lemma {:induction false} NeverPassedOver(s0: Interp, run: seq<Event>, thread: ThreadId, space: SpaceId)
    requires TableOk(s0.table) && RunOk(run) && (space == ROOT || Alone(s0, run, thread, space))
    ensures AlwaysReached(s0, run, thread, space)
  {
    forall i | 0 <= i < |run| && ChecksOf(run[i], thread)
      ensures Consulted(s0, run, i, thread, space)
    {
      if space != ROOT {
        StaysElsewhere(s0, run, i, thread, space);
        RunKeepsOrder(s0, run, i);
        ReachedAlone(StateAt(s0, run, i).table, thread, run[i].readings, space);
      }
    }
  }

  lemma {:induction false} ReachedAlone(t: Table, thread: ThreadId, readings: Readings, space: SpaceId)
    requires TableOk(t) && space != ROOT && OthersElsewhere(t, thread, space)
    ensures Reached(t, thread, readings, space)
  {
    assert Elsewhere(WatchOf(t, ROOT), thread);
    forall i | 0 <= i < |t.entries| && t.entries[i].space != space
      ensures Elsewhere(t.entries[i].watch, thread)
    {
      FindAt(t.entries, i);
      assert EntryOk(t.entries[i]);
      assert Elsewhere(WatchOf(t, t.entries[i].space), thread);
    }
    ElsewhereReached(t.entries, thread, readings, space);
  }

  /** The plain rule, for the root's target or a thread's only one: while the coordinates go forward the
      hit callback runs exactly when some check of the thread reads the target, and the overshoot
      callback exactly when one was given and the thread goes past the target without reading it. */
  lemma {:induction false} HitIffRead(s0: Interp, run: seq<Event>, w: Watch, space: SpaceId)
    requires Armed(s0, run, |run|, w, space) && Forward(run, w.thread, space)
    requires space == ROOT || Alone(s0, run, w.thread, space)
    ensures (exists i :: 0 <= i < |run| && HitAt(s0, run, i, space))
            <==> (exists i :: 0 <= i < |run| && ReadsOn(run, i, w, space))
    ensures (exists i :: 0 <= i < |run| && OvershootAt(s0, run, i, space))
            <==> (w.overshoot && (exists i :: 0 <= i < |run| && ReadsPast(run, i, w, space))
                  && !(exists i :: 0 <= i < |run| && ReadsOn(run, i, w, space)))
  {
    NeverPassedOver(s0, run, w.thread, space);
    forall i | 0 <= i < |run|
      ensures ReadsOn(run, i, w, space) <==> ConsultedOn(s0, run, i, w, space)
      ensures ReadsPast(run, i, w, space) <==> ConsultedPast(s0, run, i, w, space)
    {
    }
    HitIffReached(s0, run, w, space);
  }

  // ------------------------------------------------------------------ several targets

  /** At the first check of its thread that is not below it a target is settled, by its hit callback if
      the check reads it, else by its overshoot callback if it has one, else silently, exactly when no
      target ahead of it fires there. */
  lemma {:induction false} FiresInTurn(s0: Interp, run: seq<Event>, i: nat, w: Watch, space: SpaceId)
    requires i < |run| && Armed(s0, run, i + 1, w, space)
    requires ChecksOf(run[i], w.thread) && run[i].readings(space).At? && !ReadsBelow(run[i], w.target, space)
    requires forall k :: 0 <= k < i && ChecksOf(run[k], w.thread) ==> ReadsBelow(run[k], w.target, space)
    ensures var reached := Reached(StateAt(s0, run, i).table, w.thread, run[i].readings, space);
            var exact := run[i].readings(space).vector == w.target;
            && (DeliveryAt(s0, run, i) == Delivered(space, true) <==> reached && exact)
            && (DeliveryAt(s0, run, i) == Delivered(space, false) <==> reached && !exact && w.overshoot)
            && (WatchOf(StateAt(s0, run, i + 1).table, space) == NoWatch <==> reached)
  {
    AllBelowAhead(s0, run, i, w, space);
    ArmedWhileAhead(s0, run, i, w, space);
    EventWatch(s0, run, i, w, space);
    CallAtExact(s0, run, i, w, space);
    Trichotomy(run[i].readings(space), w.target);
  }

  lemma {:induction false} AllBelowAhead(s0: Interp, run: seq<Event>, n: nat, w: Watch, space: SpaceId)
    requires n <= |run| && w.Watch?
    requires forall k :: 0 <= k < n && ChecksOf(run[k], w.thread) ==> ReadsBelow(run[k], w.target, space)
    ensures StillAhead(s0, run, n, w, space)
  {
    if n > 0 {
      AllBelowAhead(s0, run, n - 1, w, space);
    }
  }

  /** Two targets reached at the same boundary: the root's hit runs, the other one's turn is lost, and
      the next boundary reports as an overshoot a target that was read exactly. */
  lemma {:induction false} SecondTargetDelayed()
    ensures var s0 := Interp(Last(1), Table(Watch(1, [5, 0], true), [Entry(7, false, NoThread, Watch(1, [3, 0], true))]));
            var run := [Check(1, space => if space == ROOT then At([5, 0]) else At([3, 0])),
                        Check(1, space => if space == ROOT then At([6, 0]) else At([3, 1]))];
            && TableOk(s0.table) && run[0].readings(7) == At([3, 0])
            && DeliveryAt(s0, run, 0) == Delivered(ROOT, true)
            && DeliveryAt(s0, run, 1) == Delivered(7, false)
  {
    var waiting := Entry(7, false, NoThread, Watch(1, [3, 0], true));
    var s0 := Interp(Last(1), Table(Watch(1, [5, 0], true), [waiting]));
    var first := Check(1, space => if space == ROOT then At([5, 0]) else At([3, 0]));
    var second := Check(1, space => if space == ROOT then At([6, 0]) else At([3, 1]));
    var run := [first, second];
    assert StateAt(s0, run, 0) == s0;
    assert StateAt(s0, run, 1) == Interp(Last(1), Table(NoWatch, [waiting]));
    assert LexLess([3, 1], [3, 0]) == LexLess([3, 1][1..], [3, 0][1..]);
    assert Judge(waiting.watch, 1, second.readings(7)) == Fire(false);
  }
}
