/** Thread-switch callbacks (retracemodule.c:562-725, 1783-1844; pycore_retrace.h:924-931): one global
    thread pointer gates the per-space cursors that decide which switches are reported. */
module ThreadSwitch {
  import opened SpaceCallbacks
  import opened InterpreterRuns

  ghost predicate HasCallback(entries: seq<Entry>, space: SpaceId) {
    Matching(entries, space) < |entries|
  }

  ghost function CursorOf(entries: seq<Entry>, space: SpaceId): Cursor {
    if HasCallback(entries, space) then entries[Matching(entries, space)].cursor else NoThread
  }

  lemma {:induction false} MatchingKept(entries: seq<Entry>, k: nat, cursor: Cursor, space: SpaceId)
    requires k < |entries|
    ensures Matching(entries[k := entries[k].(cursor := cursor)], space) == Matching(entries, space)
  {
    var entries' := entries[k := entries[k].(cursor := cursor)];
    if !(entries[0].registered && entries[0].space == space) && k > 0 {
      assert entries'[1..] == entries[1..][k - 1 := entries[k].(cursor := cursor)];
      MatchingKept(entries[1..], k - 1, cursor, space);
    } else if k == 0 {
      assert entries'[1..] == entries[1..];
    }
  }

  // ------------------------------------------------------------------ what leaves a cursor alone

  lemma {:induction false} CursorCons(e: Entry, rest: seq<Entry>, space: SpaceId)
    ensures var mine := e.registered && e.space == space;
            && (HasCallback([e] + rest, space) <==> mine || HasCallback(rest, space))
            && CursorOf([e] + rest, space) == if mine then e.cursor else CursorOf(rest, space)
  {
    assert ([e] + rest)[1..] == rest;
  }

  ghost predicate SameCursor(entries: seq<Entry>, entries': seq<Entry>, space: SpaceId) {
    && (HasCallback(entries', space) <==> HasCallback(entries, space))
    && CursorOf(entries', space) == CursorOf(entries, space)
  }

  lemma {:induction false} SameCursorHead(e: Entry, rest: seq<Entry>, tail: seq<Entry>, space: SpaceId)
    requires SameCursor(rest, tail, space)
    ensures SameCursor([e] + rest, [e] + tail, space)
  {
    CursorCons(e, rest, space);
    CursorCons(e, tail, space);
  }

  /** Disarming the node at the head, and pruning it if no callback uses it. */
  lemma {:induction false} DisarmedHead(e: Entry, rest: seq<Entry>, space: SpaceId)
    ensures SameCursor([e] + rest, Keep(e.(watch := NoWatch)) + rest, space)
  {
    CursorCons(e, rest, space);
    if e.registered {
      CursorCons(e.(watch := NoWatch), rest, space);
    } else {
      assert [] + rest == rest;
    }
  }

  /** A call_at pass over the shared list, whatever it delivers and prunes, leaves every thread-switch
      callback and cursor in place. */
  lemma {:induction false} SweepKeepsCursors(entries: seq<Entry>, thread: ThreadId, readings: Readings, space: SpaceId)
    ensures SameCursor(entries, Sweep(entries, thread, readings).0, space)
  {
    if entries != [] {
      var e, rest := entries[0], entries[1..];
      assert entries == [e] + rest;
      SweepKeepsCursors(rest, thread, readings, space);
      SameCursorHead(e, rest, Sweep(rest, thread, readings).0, space);
      DisarmedHead(e, rest, space);
      DisarmedHead(e, Sweep(rest, thread, readings).0, space);
    }
  }

  /** Changing one node, and pruning it if nothing uses it any more, leaves every callback but its own,
      and its own when callback and cursor stay. */
  lemma {:induction false} ReplacedCursor(entries: seq<Entry>, k: nat, x: Entry, space: SpaceId)
    requires k < |entries| && x.space == entries[k].space
    requires x.space == space ==> x.registered == entries[k].registered && x.cursor == entries[k].cursor
    ensures SameCursor(entries, Replaced(entries, k, x), space)
    decreases k
  {
    var e, rest := entries[0], entries[1..];
    assert entries == [e] + rest;
    if k == 0 {
      ReplacedFirst(e, rest, x, space);
    } else {
      ReplacedCursor(rest, k - 1, x, space);
      ReplacedCons(e, rest, k - 1, x);
      SameCursorHead(e, rest, Replaced(rest, k - 1, x), space);
    }
  }

  lemma {:induction false} ReplacedFirst(e: Entry, rest: seq<Entry>, x: Entry, space: SpaceId)
    requires x.space == e.space && (x.space == space ==> x.registered == e.registered && x.cursor == e.cursor)
    ensures SameCursor([e] + rest, Replaced([e] + rest, 0, x), space)
  {
    ReplacedHead(e, rest, x);
    CursorCons(e, rest, space);
    if Keep(x) == [x] {
      CursorCons(x, rest, space);
    }
  }

  lemma {:induction false} ReplacedHead(e: Entry, rest: seq<Entry>, x: Entry)
    ensures Replaced([e] + rest, 0, x) == if Keep(x) == [x] then [x] + rest else rest
    ensures Keep(x) == [x] || !x.registered
  {
    var entries := [e] + rest;
    assert entries[1..] == rest && entries[..0] == [];
    if Keep(x) == [] {
      assert [] + [] + rest == rest;
    }
  }

  lemma {:induction false} ClearedCursor(entries: seq<Entry>, other: SpaceId, space: SpaceId)
    ensures SameCursor(entries, Cleared(entries, other), space)
  {
    var k := Find(entries, other);
    if k < |entries| {
      ReplacedCursor(entries, k, entries[k].(watch := NoWatch), space);
    }
  }

  lemma {:induction false} PlacedCursor(t: Table, other: SpaceId, w: Watch, space: SpaceId)
    requires w.Watch?
    ensures SameCursor(t.entries, Placed(t, other, w).entries, space)
  {
    if other != ROOT {
      var k := Find(t.entries, other);
      if k == |t.entries| {
        CursorCons(Entry(other, false, NoThread, w), t.entries, space);
      } else {
        var x := t.entries[k].(watch := w);
        ReplacedCursor(t.entries, k, x, space);
        assert t.entries[..k] + [x] + t.entries[k + 1..] == t.entries[k := x];
      }
    }
  }

  lemma {:induction false} RegisteredCursor(entries: seq<Entry>, other: SpaceId, install: bool, visible: Cursor, space: SpaceId)
    requires other != space
    ensures SameCursor(entries, Registered(entries, other, install, visible), space)
  {
    var k := Find(entries, other);
    if k < |entries| {
      ReplacedCursor(entries, k, Entry(other, install, if install then visible else NoThread, entries[k].watch), space);
    } else if install {
      CursorCons(Entry(other, true, visible, NoWatch), entries, space);
    }
  }

  /** The callback of the space is installed anew or cleared. */
  ghost predicate Reregisters(e: Event, space: SpaceId) {
    e.Register? && e.space == space
  }

  /** An event that is no turn and does not install or clear the space's callback leaves its cursor and
      the last-thread pointer alone. */
  lemma {:induction false} AsideCursor(s: Interp, e: Event, space: SpaceId)
    requires EventOk(e) && !e.Turn? && !Reregisters(e, space)
    ensures SameCursor(s.table.entries, After(s, e).table.entries, space) && After(s, e).last == s.last
  {
    match e
    case Check(thread, readings) => SweepKeepsCursors(s.table.entries, thread, readings, space);
    case Arm(other, w) =>
      if other != ROOT {
        ClearedCursor(s.table.entries, other, space);
      }
      PlacedCursor(ClearedTable(s.table, other), other, w, space);
    case Clear(other) =>
      if other != ROOT {
        ClearedCursor(s.table.entries, other, space);
      }
    case Register(other, install, visible) => RegisteredCursor(s.table.entries, other, install, visible, space);
  }

  // ------------------------------------------------------------------ one turn

  /** A turn touches no cursor but that of its own space. */
  lemma {:induction false} TurnCursor(s: Interp, thread: ThreadId, at: FrameSpace, space: SpaceId)
    requires HasCallback(s.table.entries, space)
    ensures var e := Turn(thread, at);
            var s', switch := After(s, e), Switches(s, e);
            && s'.last == Last(thread) && HasCallback(s'.table.entries, space)
            && (at != Within(space) ==>
                  CursorOf(s'.table.entries, space) == CursorOf(s.table.entries, space)
                  && (switch.Switch? ==> switch.space != space))
            && (at == Within(space) ==>
                  if s.last == Last(thread) || s.last == NoThread
                  then switch == NoSwitch && CursorOf(s'.table.entries, space) == CursorOf(s.table.entries, space)
                  else CursorOf(s'.table.entries, space) == Last(thread)
                       && switch == match CursorOf(s.table.entries, space)
                                    case NoThread => NoSwitch
                                    case Last(p) => if p == thread then NoSwitch else Switch(space, p, thread))
  {
    var entries := s.table.entries;
    var m := Matching(entries, space);
    assert entries[m].registered;
    var k := if at.Hidden? then |entries| else Matching(entries, at.space);
    if k < |entries| {
      MatchingKept(entries, k, Last(thread), space);
    }
  }

  // ------------------------------------------------------------------ runs

  /** The callback of the space is installed at the start and stays so for the first n events; anything
      else may happen. */
  ghost predicate Installed(s0: Interp, run: seq<Event>, n: nat, space: SpaceId)
    requires n <= |run|
  {
    && HasCallback(s0.table.entries, space) && RunOk(run)
    && forall k :: 0 <= k < n ==> !Reregisters(run[k], space)
  }

  /** What is reported at the i-th event. */
  ghost function SwitchAt(s0: Interp, run: seq<Event>, i: nat): Switch
    requires i < |run|
  {
    Switches(StateAt(s0, run, i), run[i])
  }

  ghost predicate SwitchesIn(s0: Interp, run: seq<Event>, i: nat, space: SpaceId)
    requires i < |run|
  {
    SwitchAt(s0, run, i).Switch? && SwitchAt(s0, run, i).space == space
  }

  ghost function CursorAt(s0: Interp, run: seq<Event>, i: nat, space: SpaceId): Cursor
    requires i <= |run|
  {
    CursorOf(StateAt(s0, run, i).table.entries, space)
  }

  lemma {:induction false} EventKeepsCallback(s0: Interp, run: seq<Event>, k: nat, space: SpaceId)
    requires k < |run| && HasCallback(StateAt(s0, run, k).table.entries, space)
    requires RunOk(run) && !Reregisters(run[k], space)
    ensures HasCallback(StateAt(s0, run, k + 1).table.entries, space)
  {
    EventCursor(s0, run, k, space);
  }

  lemma {:induction false} NotReregistered(s0: Interp, run: seq<Event>, k: nat, n: nat, space: SpaceId)
    requires k < n <= |run| && Installed(s0, run, n, space)
    ensures RunOk(run) && !Reregisters(run[k], space)
  {
  }

  lemma {:induction false} CallbackStays(s0: Interp, run: seq<Event>, i: nat, space: SpaceId)
    requires i <= |run| && Installed(s0, run, i, space)
    ensures HasCallback(StateAt(s0, run, i).table.entries, space)
  {
    if i > 0 {
      InstalledEarlier(s0, run, i - 1, i, space);
      CallbackStays(s0, run, i - 1, space);
      CallbackStep(s0, run, i - 1, space);
    }
  }

  lemma {:induction false} CallbackStep(s0: Interp, run: seq<Event>, k: nat, space: SpaceId)
    requires k < |run| && Installed(s0, run, k + 1, space) && HasCallback(StateAt(s0, run, k).table.entries, space)
    ensures HasCallback(StateAt(s0, run, k + 1).table.entries, space)
  {
    NotReregistered(s0, run, k, k + 1, space);
    EventKeepsCallback(s0, run, k, space);
  }

  /** What the k-th event does to the cursor of the space, and what it reports of it. */
  lemma {:induction false} EventCursor(s0: Interp, run: seq<Event>, k: nat, space: SpaceId)
    requires k < |run| && HasCallback(StateAt(s0, run, k).table.entries, space)
    requires RunOk(run) && !Reregisters(run[k], space)
    ensures HasCallback(StateAt(s0, run, k + 1).table.entries, space)
    ensures StateAt(s0, run, k + 1).last == if run[k].Turn? then Last(run[k].thread) else StateAt(s0, run, k).last
    ensures var last, cursor := StateAt(s0, run, k).last, CursorAt(s0, run, k, space);
            if TurnIn(run[k], space) && last != NoThread && last != Last(run[k].thread)
            then && CursorAt(s0, run, k + 1, space) == Last(run[k].thread)
                 && SwitchAt(s0, run, k) == match cursor
                                            case NoThread => NoSwitch
                                            case Last(p) => if p == run[k].thread then NoSwitch else Switch(space, p, run[k].thread)
            else CursorAt(s0, run, k + 1, space) == cursor && !SwitchesIn(s0, run, k, space)
  {
    assert EventOk(run[k]);
    if run[k].Turn? {
      TurnCursor(StateAt(s0, run, k), run[k].thread, run[k].at, space);
    } else {
      AsideCursor(StateAt(s0, run, k), run[k], space);
    }
  }

  ghost predicate TurnIn(e: Event, space: SpaceId) {
    e.Turn? && e.at == Within(space)
  }

  /** No switch of the space is reported between events i and j. */
  ghost predicate QuietBetween(s0: Interp, run: seq<Event>, i: nat, j: nat, space: SpaceId)
    requires i < j <= |run|
    decreases j
  {
    j > i + 1 ==> QuietBetween(s0, run, i, j - 1, space) && !SwitchesIn(s0, run, j - 1, space)
  }

  /** Successive callbacks of a space chain: the next thread of one is the previous thread of the
      following, and no callback reports a thread switching to itself. */
  lemma {:induction false} CallbacksChain(s0: Interp, run: seq<Event>, i: nat, j: nat, space: SpaceId)
    requires i < j < |run| && Installed(s0, run, j, space)
    requires SwitchesIn(s0, run, i, space) && SwitchesIn(s0, run, j, space) && QuietBetween(s0, run, i, j, space)
    ensures SwitchAt(s0, run, j).previous == SwitchAt(s0, run, i).next
    ensures SwitchAt(s0, run, j).previous != SwitchAt(s0, run, j).next
  {
    CursorStays(s0, run, i, j, space);
    CallbackStays(s0, run, j, space);
    NoRegistrationSwitch(s0, run, j, space);
    EventCursor(s0, run, j, space);
  }

  /** Only a turn reports a switch. */
  lemma {:induction false} NoRegistrationSwitch(s0: Interp, run: seq<Event>, j: nat, space: SpaceId)
    requires j < |run| && SwitchesIn(s0, run, j, space)
    ensures !Reregisters(run[j], space)
  {
  }

  /** A reported switch leaves the cursor at its next thread. */
  lemma {:induction false} SwitchSetsCursor(s0: Interp, run: seq<Event>, i: nat, space: SpaceId)
    requires i < |run| && Installed(s0, run, i, space) && SwitchesIn(s0, run, i, space)
    ensures CursorAt(s0, run, i + 1, space) == Last(SwitchAt(s0, run, i).next)
  {
    CallbackStays(s0, run, i, space);
    NoRegistrationSwitch(s0, run, i, space);
    EventCursor(s0, run, i, space);
  }

  /** A cursor that is set moves only when a switch is reported. */
  lemma {:induction false} CursorMovesWithSwitch(s0: Interp, run: seq<Event>, i: nat, space: SpaceId)
    requires i < |run| && Installed(s0, run, i + 1, space) && !SwitchesIn(s0, run, i, space)
    requires CursorAt(s0, run, i, space).Last?
    ensures CursorAt(s0, run, i + 1, space) == CursorAt(s0, run, i, space)
  {
    CallbackStays(s0, run, i, space);
    EventCursor(s0, run, i, space);
  }

  lemma {:induction false} InstalledEarlier(s0: Interp, run: seq<Event>, i: nat, j: nat, space: SpaceId)
    requires i <= j <= |run| && Installed(s0, run, j, space)
    ensures Installed(s0, run, i, space)
  {
  }

  lemma {:induction false} CursorStays(s0: Interp, run: seq<Event>, i: nat, j: nat, space: SpaceId)
    requires i < j <= |run| && Installed(s0, run, j, space)
    requires SwitchesIn(s0, run, i, space) && QuietBetween(s0, run, i, j, space)
    ensures CursorAt(s0, run, j, space) == Last(SwitchAt(s0, run, i).next)
    decreases j
  {
    if j == i + 1 {
      InstalledEarlier(s0, run, i, j, space);
      SwitchSetsCursor(s0, run, i, space);
    } else {
      InstalledEarlier(s0, run, j - 1, j, space);
      CursorStays(s0, run, i, j - 1, space);
      CursorMovesWithSwitch(s0, run, j - 1, space);
    }
  }

  // ------------------------------------------------------------------ the per-space rule

  /** The thread that last took a turn in the space before the i-th event. */
  ghost function LastIn(c0: Cursor, run: seq<Event>, i: nat, space: SpaceId): Cursor
    requires i <= |run|
  {
    if i == 0 then c0
    else if TurnIn(run[i - 1], space) then Last(run[i - 1].thread)
    else LastIn(c0, run, i - 1, space)
  }

  /** The thread that last took a turn anywhere before the i-th event. */
  ghost function Before(s0: Interp, run: seq<Event>, i: nat): Cursor
    requires i <= |run|
  {
    if i == 0 then s0.last
    else if run[i - 1].Turn? then Last(run[i - 1].thread)
    else Before(s0, run, i - 1)
  }

  ghost function Start(s0: Interp, space: SpaceId): Cursor {
    CursorOf(s0.table.entries, space)
  }

  /** A turn in the space by another thread than the last one there. */
  ghost predicate Change(s0: Interp, run: seq<Event>, i: nat, space: SpaceId)
    requires i < |run|
  {
    var previous := LastIn(Start(s0, space), run, i, space);
    TurnIn(run[i], space) && previous.Last? && previous != Last(run[i].thread)
  }

  /** The thread taking the turn was already running, or nobody was. */
  ghost predicate InSlice(s0: Interp, run: seq<Event>, i: nat)
    requires i < |run| && run[i].Turn?
  {
    Before(s0, run, i) == NoThread || Before(s0, run, i) == Last(run[i].thread)
  }

  /** The space's cursor has been set: at the start, or by a turn there that began a slice. */
  ghost predicate Known(s0: Interp, run: seq<Event>, i: nat, space: SpaceId)
    requires i <= |run|
  {
    if i == 0 then Start(s0, space).Last?
    else Known(s0, run, i - 1, space) || (TurnIn(run[i - 1], space) && !InSlice(s0, run, i - 1))
  }

  /** At the i-th event exactly the adjacent thread change of the space is reported, if there is one. */
  ghost predicate ReportsAt(s0: Interp, run: seq<Event>, i: nat, space: SpaceId)
    requires i < |run|
  {
    if Change(s0, run, i, space)
    then SwitchAt(s0, run, i) == Switch(space, LastIn(Start(s0, space), run, i, space).thread, run[i].thread)
    else !SwitchesIn(s0, run, i, space)
  }

  ghost predicate ReportsExactly(s0: Interp, run: seq<Event>, n: nat, space: SpaceId)
    requires n <= |run|
  {
    n > 0 ==> ReportsExactly(s0, run, n - 1, space) && ReportsAt(s0, run, n - 1, space)
  }

  /** Every change among the first n events begins a slice, with the cursor already set. */
  ghost predicate Witnessed(s0: Interp, run: seq<Event>, n: nat, space: SpaceId)
    requires n <= |run|
  {
    n > 0 ==>
      && Witnessed(s0, run, n - 1, space)
      && (Change(s0, run, n - 1, space) ==> !InSlice(s0, run, n - 1) && Known(s0, run, n - 1, space))
  }

  lemma {:induction false} LastIsBefore(s0: Interp, run: seq<Event>, i: nat)
    requires i <= |run|
    ensures StateAt(s0, run, i).last == Before(s0, run, i)
  {
    if i > 0 {
      LastIsBefore(s0, run, i - 1);
    }
  }

  lemma {:induction false} KnownLast(s0: Interp, run: seq<Event>, i: nat, space: SpaceId)
    requires i <= |run| && Known(s0, run, i, space)
    ensures LastIn(Start(s0, space), run, i, space).Last?
  {
    if i > 0 && !TurnIn(run[i - 1], space) {
      KnownLast(s0, run, i - 1, space);
    }
  }

  /** The cursor moves with the turns of the space that begin a slice, and with nothing else. */
  lemma {:induction false} CursorStep(s0: Interp, run: seq<Event>, i: nat, space: SpaceId)
    requires i < |run| && Installed(s0, run, i + 1, space)
    ensures CursorAt(s0, run, i + 1, space)
            == if TurnIn(run[i], space) && !InSlice(s0, run, i) then Last(run[i].thread) else CursorAt(s0, run, i, space)
  {
    InstalledEarlier(s0, run, i, i + 1, space);
    CallbackStays(s0, run, i, space);
    EventCursor(s0, run, i, space);
    LastIsBefore(s0, run, i);
  }

  /** While every change is witnessed the cursor, once set, is the last thread of the space. */
  lemma {:induction false} WitnessedCursor(s0: Interp, run: seq<Event>, n: nat, space: SpaceId)
    requires n <= |run| && Installed(s0, run, n, space) && Witnessed(s0, run, n, space)
    ensures CursorAt(s0, run, n, space) == if Known(s0, run, n, space) then LastIn(Start(s0, space), run, n, space) else NoThread
  {
    if n > 0 {
      WitnessedCursor(s0, run, n - 1, space);
      CursorStep(s0, run, n - 1, space);
      if Known(s0, run, n - 1, space) {
        KnownLast(s0, run, n - 1, space);
      }
    }
  }

  /** Exactly when every switch of a space is reported and nothing else is, in any run and from any
      start: each change of thread in the space begins a slice, with the space's cursor set by then. The
      one global pointer refines the per-space rule just so far. */
  lemma {:induction false} ReportExact(s0: Interp, run: seq<Event>, n: nat, space: SpaceId)
    requires n <= |run| && Installed(s0, run, n, space)
    ensures ReportsExactly(s0, run, n, space) <==> Witnessed(s0, run, n, space)
  {
    if n > 0 {
      ReportExact(s0, run, n - 1, space);
      if Witnessed(s0, run, n - 1, space) {
        ReportStep(s0, run, n - 1, space);
      }
    }
  }

  lemma {:induction false} ReportStep(s0: Interp, run: seq<Event>, i: nat, space: SpaceId)
    requires i < |run| && Installed(s0, run, i + 1, space) && Witnessed(s0, run, i, space)
    ensures ReportsAt(s0, run, i, space)
            <==> (Change(s0, run, i, space) ==> !InSlice(s0, run, i) && Known(s0, run, i, space))
  {
    WitnessedCursor(s0, run, i, space);
    CallbackStays(s0, run, i, space);
    EventCursor(s0, run, i, space);
    LastIsBefore(s0, run, i);
  }

  /** A thread comes into the space in the middle of its own slice, when another thread (or none) was
      the last there. */
  ghost predicate ArrivesMidSlice(s0: Interp, run: seq<Event>, i: nat, space: SpaceId)
    requires i < |run|
  {
    TurnIn(run[i], space) && InSlice(s0, run, i) && LastIn(Start(s0, space), run, i, space) != Last(run[i].thread)
  }

  ghost predicate NoArrival(s0: Interp, run: seq<Event>, n: nat, space: SpaceId)
    requires n <= |run|
  {
    n > 0 ==> NoArrival(s0, run, n - 1, space) && !ArrivesMidSlice(s0, run, n - 1, space)
  }

  /** From a cursor that is set, reporting is exact exactly when no thread arrives mid-slice. */
  lemma {:induction false} ReportExactOnceSet(s0: Interp, run: seq<Event>, n: nat, space: SpaceId)
    requires n <= |run| && Installed(s0, run, n, space) && Start(s0, space).Last?
    ensures ReportsExactly(s0, run, n, space) <==> NoArrival(s0, run, n, space)
  {
    ReportExact(s0, run, n, space);
    ArrivalsAreUnwitnessed(s0, run, n, space);
  }

  lemma {:induction false} ArrivalsAreUnwitnessed(s0: Interp, run: seq<Event>, n: nat, space: SpaceId)
    requires n <= |run| && Start(s0, space).Last?
    ensures Known(s0, run, n, space) && (Witnessed(s0, run, n, space) <==> NoArrival(s0, run, n, space))
  {
    if n > 0 {
      ArrivalsAreUnwitnessed(s0, run, n - 1, space);
      KnownLast(s0, run, n - 1, space);
    }
  }

  /** Up to the n-th event the cursor of the space has always been the last thread there. */
  ghost predicate Tracks(s0: Interp, run: seq<Event>, n: nat, space: SpaceId)
    requires n <= |run|
  {
    && (n > 0 ==> Tracks(s0, run, n - 1, space))
    && CursorAt(s0, run, n, space) == LastIn(Start(s0, space), run, n, space)
  }

  /** The cursor itself is always right exactly when no thread arrives mid-slice. */
  lemma {:induction false} CursorExact(s0: Interp, run: seq<Event>, n: nat, space: SpaceId)
    requires n <= |run| && Installed(s0, run, n, space)
    ensures Tracks(s0, run, n, space) <==> NoArrival(s0, run, n, space)
  {
    if n > 0 {
      CursorExact(s0, run, n - 1, space);
      CursorStep(s0, run, n - 1, space);
    }
  }

  // ------------------------------------------------------------------ installing and clearing

  /** Installing a callback sets its cursor to the thread that is visible in the space, if any. */
  lemma {:induction false} InstallSets(entries: seq<Entry>, space: SpaceId, visible: Cursor)
    requires DistinctSpaces(entries)
    ensures HasCallback(Registered(entries, space, true, visible), space)
    ensures CursorOf(Registered(entries, space, true, visible), space) == visible
  {
    RegisteredMatches(entries, space, true, visible);
  }

  /** Clearing a callback leaves none in its space, whether or not its node stays. */
  lemma {:induction false} ClearRemoves(entries: seq<Entry>, space: SpaceId, visible: Cursor)
    requires DistinctSpaces(entries)
    ensures !HasCallback(Registered(entries, space, false, visible), space)
  {
    RegisteredMatches(entries, space, false, visible);
  }

  lemma {:induction false} TurnWithout(s: Interp, thread: ThreadId, at: FrameSpace, space: SpaceId)
    requires !HasCallback(s.table.entries, space)
    ensures !HasCallback(After(s, Turn(thread, at)).table.entries, space)
    ensures Switches(s, Turn(thread, at)).Switch? ==> Switches(s, Turn(thread, at)).space != space
  {
    var entries := s.table.entries;
    var k := if at.Hidden? then |entries| else Matching(entries, at.space);
    if k < |entries| {
      MatchingKept(entries, k, Last(thread), space);
    }
  }

  /** With no callback in the space an event reports no switch of it, and brings none in unless it
      installs one. */
  lemma {:induction false} EventWithout(s: Interp, e: Event, space: SpaceId)
    requires TableOk(s.table) && EventOk(e) && !HasCallback(s.table.entries, space) && !Installs(e, space)
    ensures !HasCallback(After(s, e).table.entries, space)
    ensures Switches(s, e).Switch? ==> Switches(s, e).space != space
  {
    if e.Turn? {
      TurnWithout(s, e.thread, e.at, space);
    } else if Reregisters(e, space) {
      ClearRemoves(s.table.entries, space, e.visible);
    } else {
      AsideCursor(s, e, space);
    }
  }

  ghost predicate Installs(e: Event, space: SpaceId) {
    e.Register? && e.space == space && e.install
  }

  /** From the moment its callback is cleared no switch of a space is reported until one is installed. */
  lemma {:induction false} SilentOnceCleared(s0: Interp, run: seq<Event>, i: nat, j: nat, space: SpaceId)
    requires TableOk(s0.table) && RunOk(run) && i < j < |run|
    requires run[i].Register? && run[i].space == space && !run[i].install
    requires forall k :: i < k < j ==> !Installs(run[k], space)
    ensures !HasCallback(StateAt(s0, run, j).table.entries, space)
    ensures !SwitchesIn(s0, run, j, space)
    decreases j - i
  {
    if j == i + 1 {
      RunKeepsOrder(s0, run, i);
      ClearRemoves(StateAt(s0, run, i).table.entries, space, run[i].visible);
    } else {
      SilentOnceCleared(s0, run, i, j - 1, space);
      RunKeepsOrder(s0, run, j - 1);
      assert EventOk(run[j - 1]);
      EventWithout(StateAt(s0, run, j - 1), run[j - 1], space);
    }
    if run[j].Turn? {
      TurnWithout(StateAt(s0, run, j), run[j].thread, run[j].at, space);
    }
  }

  /** The turn begins a slice: another thread was the last to run anywhere. */
  ghost predicate BeginsSlice(s0: Interp, run: seq<Event>, k: nat)
    requires k < |run|
  {
    run[k].Turn? && StateAt(s0, run, k).last.Last? && StateAt(s0, run, k).last != Last(run[k].thread)
  }

  /** Between the installation at event i and event j nobody begins a slice in the space, and the
      callback is left alone. */
  ghost predicate Undisturbed(s0: Interp, run: seq<Event>, i: nat, j: nat, space: SpaceId)
    requires i <= j <= |run|
  {
    forall k :: i < k < j ==> !Reregisters(run[k], space) && !(TurnIn(run[k], space) && BeginsSlice(s0, run, k))
  }

  lemma {:induction false} CursorWaits(s0: Interp, run: seq<Event>, i: nat, j: nat, space: SpaceId)
    requires TableOk(s0.table) && RunOk(run) && i < j <= |run| && Installs(run[i], space) && Undisturbed(s0, run, i, j, space)
    ensures HasCallback(StateAt(s0, run, j).table.entries, space) && CursorAt(s0, run, j, space) == run[i].visible
    decreases j - i
  {
    if j == i + 1 {
      RunKeepsOrder(s0, run, i);
      InstallSets(StateAt(s0, run, i).table.entries, space, run[i].visible);
    } else {
      CursorWaits(s0, run, i, j - 1, space);
      EventCursor(s0, run, j - 1, space);
    }
  }

  /** The first report after an installation: the first turn that begins a slice in the space reports a
      switch from the thread that was visible there at the installation, if there was one and it is
      another; until then nothing is reported. */
  lemma {:induction false} FirstReport(s0: Interp, run: seq<Event>, i: nat, j: nat, space: SpaceId)
    requires TableOk(s0.table) && RunOk(run) && i < j < |run| && Installs(run[i], space) && Undisturbed(s0, run, i, j, space)
    ensures TurnIn(run[j], space) && BeginsSlice(s0, run, j) ==>
              SwitchAt(s0, run, j) == if run[i].visible.Last? && run[i].visible != Last(run[j].thread)
                                      then Switch(space, run[i].visible.thread, run[j].thread) else NoSwitch
    ensures !(TurnIn(run[j], space) && BeginsSlice(s0, run, j)) ==> !SwitchesIn(s0, run, j, space)
  {
    CursorWaits(s0, run, i, j, space);
    if !Reregisters(run[j], space) {
      EventCursor(s0, run, j, space);
    }
  }

  // ------------------------------------------------------------------ threads that keep to one space

  /** Every thread takes its turns in one space of its own, and if the running thread's is this one the
      cursor is set to it. */
  ghost predicate KeepHome(s0: Interp, run: seq<Event>, space: SpaceId, home: ThreadId -> SpaceId) {
    && (forall k :: 0 <= k < |run| && run[k].Turn? ==> run[k].at == Within(home(run[k].thread)))
    && s0.last.Last?
    && (home(s0.last.thread) == space ==> Start(s0, space) == s0.last)
  }

  /** A thread of the space that is running already was the last there. */
  lemma {:induction false} HomeSlice(s0: Interp, run: seq<Event>, i: nat, space: SpaceId, home: ThreadId -> SpaceId)
    requires i <= |run| && KeepHome(s0, run, space, home)
    ensures Before(s0, run, i).Last?
    ensures home(Before(s0, run, i).thread) == space ==> LastIn(Start(s0, space), run, i, space) == Before(s0, run, i)
  {
    if i > 0 {
      HomeSlice(s0, run, i - 1, space, home);
    }
  }

  lemma {:induction false} HomesWitness(s0: Interp, run: seq<Event>, n: nat, space: SpaceId, home: ThreadId -> SpaceId)
    requires n <= |run| && KeepHome(s0, run, space, home)
    ensures Witnessed(s0, run, n, space)
    ensures LastIn(Start(s0, space), run, n, space).Last? ==> Known(s0, run, n, space)
  {
    if n > 0 {
      HomesWitness(s0, run, n - 1, space, home);
      HomeSlice(s0, run, n - 1, space, home);
    }
  }

  /** When every thread keeps to one space, the callbacks of a space are exactly the adjacent thread
      changes in that space's own subsequence of turns. */
  lemma {:induction false} CallbacksAreAdjacentChanges(s0: Interp, run: seq<Event>, n: nat, space: SpaceId, home: ThreadId -> SpaceId)
    requires n <= |run| && Installed(s0, run, n, space) && KeepHome(s0, run, space, home)
    ensures ReportsExactly(s0, run, n, space)
  {
    HomesWitness(s0, run, n, space, home);
    ReportExact(s0, run, n, space);
  }

  /** A concrete arrival mid-slice: thread 2 enters space 0 while it is already the current thread, so
      the switch from thread 1 is never reported. */
  lemma {:induction false} MidSliceSwitchMissed()
    ensures var s0 := Interp(Last(1), Table(NoWatch, [Entry(0, true, Last(1), NoWatch)]));
            var run := [Turn(1, Within(0)), Turn(2, Within(7)), Turn(2, Within(0))];
            && Installed(s0, run, 3, 0) && Change(s0, run, 2, 0)
            && SwitchAt(s0, run, 2) == NoSwitch && CursorAt(s0, run, 3, 0) == Last(1)
  {
    var s0 := Interp(Last(1), Table(NoWatch, [Entry(0, true, Last(1), NoWatch)]));
    var run := [Turn(1, Within(0)), Turn(2, Within(7)), Turn(2, Within(0))];
    assert s0.table.entries[0].registered;
    assert StateAt(s0, run, 1) == s0;
    assert Matching(s0.table.entries, 7) == 1;
    assert StateAt(s0, run, 2) == Interp(Last(2), s0.table);
    assert StateAt(s0, run, 3) == Interp(Last(2), s0.table);
  }
}
