/** The callback list over whole runs of the interpreter (retracemodule.c:300-336, 562-725, 1200-1349,
    1783-1966): an instruction boundary is a check of the targets and then, unless a callback raised, a
    turn of the thread; targets are armed and cleared and callbacks installed at any point, also by the
    callbacks themselves. */
module InterpreterRuns {
  import opened SpaceCallbacks

  datatype Interp = Interp(last: Cursor, table: Table)

  /** A boundary at a visible frame is a check followed by a turn; a check whose callback raised has no
      turn after it, and a boundary at a hidden frame is a turn alone. What a callback does comes
      between. Arming stands for a call_at that is not refused. */
  datatype Event =
    | Check(thread: ThreadId, readings: Readings)
    | Turn(thread: ThreadId, at: FrameSpace)
    | Arm(space: SpaceId, watch: Watch)
    | Clear(space: SpaceId)
    | Register(space: SpaceId, install: bool, visible: Cursor)

  ghost predicate EventOk(e: Event) {
    e.Arm? ==> e.watch.Watch? && e.watch.thread != 0
  }

  ghost predicate RunOk(run: seq<Event>) {
    forall i :: 0 <= i < |run| ==> EventOk(run[i])
  }

  ghost function After(s: Interp, e: Event): Interp {
    match e
    case Check(thread, readings) => s.(table := Checked(s.table, thread, readings).0)
    case Turn(thread, at) =>
      Interp(Last(thread), s.table.(entries := SwitchStep(s.last, s.table.entries, thread, at).0))
    case Arm(space, watch) => s.(table := ArmedTable(s.table, space, watch))
    case Clear(space) => s.(table := ClearedTable(s.table, space))
    case Register(space, install, visible) =>
      s.(table := s.table.(entries := Registered(s.table.entries, space, install, visible)))
  }

  /** The call_at callback an event delivers. */
  ghost function Delivers(s: Interp, e: Event): Delivery {
    if e.Check? then Checked(s.table, e.thread, e.readings).1 else Silent
  }

  /** The thread switch an event delivers. */
  ghost function Switches(s: Interp, e: Event): Switch {
    if e.Turn? then SwitchStep(s.last, s.table.entries, e.thread, e.at).1 else NoSwitch
  }

  /** The state after the first i events. */
  ghost function StateAt(s0: Interp, run: seq<Event>, i: nat): Interp
    requires i <= |run|
  {
    if i == 0 then s0 else After(StateAt(s0, run, i - 1), run[i - 1])
  }

  // ------------------------------------------------------------------ the list stays in order

  lemma {:induction false} SweepOk(entries: seq<Entry>, thread: ThreadId, readings: Readings)
    requires DistinctSpaces(entries) && AllOk(entries)
    ensures var swept := Sweep(entries, thread, readings).0;
            && DistinctSpaces(swept) && AllOk(swept)
            && forall i :: 0 <= i < |swept| ==> exists j :: 0 <= j < |entries| && entries[j].space == swept[i].space
  {
    if entries != [] {
      var e, rest := entries[0], entries[1..];
      assert EntryOk(e);
      SweepOk(rest, thread, readings);
      var cleared := Keep(e.(watch := NoWatch));
      var verdict := Judge(e.watch, thread, readings(e.space));
      var swept, tail := Sweep(entries, thread, readings).0, Sweep(rest, thread, readings).0;
      var head := if verdict.Wait? then [e] else cleared;
      assert swept == head + if verdict.Fire? then rest else tail;
      forall i | 0 <= i < |tail|
        ensures tail[i].space != e.space && EntryOk(tail[i])
        ensures exists j :: 0 <= j < |entries| && entries[j].space == tail[i].space
      {
        var j :| 0 <= j < |rest| && rest[j].space == tail[i].space;
        assert entries[j + 1] == rest[j];
      }
      assert forall i :: 0 <= i < |rest| ==> rest[i] == entries[i + 1];
    }
  }

  lemma {:induction false} ClearedOk(entries: seq<Entry>, space: SpaceId)
    requires DistinctSpaces(entries) && AllOk(entries)
    ensures DistinctSpaces(Cleared(entries, space)) && AllOk(Cleared(entries, space))
  {
    var k := Find(entries, space);
    if k < |entries| {
      ReplacedFlags(entries, k, entries[k].(watch := NoWatch));
    }
  }

  lemma {:induction false} PlacedOk(t: Table, space: SpaceId, w: Watch)
    requires TableOk(t) && w.Watch? && w.thread != 0
    ensures TableOk(Placed(t, space, w))
  {
    if space != ROOT {
      var k := Find(t.entries, space);
      if k == |t.entries| {
        HeadFlags(t.entries, Entry(space, false, NoThread, w));
      } else {
        ReplacedFlags(t.entries, k, t.entries[k].(watch := w));
      }
    }
  }

  lemma {:induction false} RegisteredOk(entries: seq<Entry>, space: SpaceId, install: bool, visible: Cursor)
    requires DistinctSpaces(entries) && AllOk(entries)
    ensures DistinctSpaces(Registered(entries, space, install, visible)) && AllOk(Registered(entries, space, install, visible))
  {
    var k := Find(entries, space);
    if k < |entries| {
      assert EntryOk(entries[k]);
      ReplacedFlags(entries, k, Entry(space, install, if install then visible else NoThread, entries[k].watch));
    } else if install {
      HeadFlags(entries, Entry(space, true, visible, NoWatch));
    }
  }

  lemma {:induction false} EventKeepsOrder(s: Interp, e: Event)
    requires TableOk(s.table) && EventOk(e)
    ensures TableOk(After(s, e).table)
  {
    match e
    case Check(thread, readings) => SweepOk(s.table.entries, thread, readings);
    case Turn(thread, at) =>
    case Arm(space, watch) =>
      if space != ROOT {
        ClearedOk(s.table.entries, space);
      }
      PlacedOk(ClearedTable(s.table, space), space, watch);
    case Clear(space) =>
      if space != ROOT {
        ClearedOk(s.table.entries, space);
      }
    case Register(space, install, visible) => RegisteredOk(s.table.entries, space, install, visible);
  }

  lemma {:induction false} RunKeepsOrder(s0: Interp, run: seq<Event>, i: nat)
    requires TableOk(s0.table) && RunOk(run) && i <= |run|
    ensures TableOk(StateAt(s0, run, i).table)
  {
    if i > 0 {
      RunKeepsOrder(s0, run, i - 1);
      EventKeepsOrder(StateAt(s0, run, i - 1), run[i - 1]);
    }
  }

  // ------------------------------------------------------------------ the interpreter makes these steps

  ghost function View(interp: Interpreter): Interp
    reads interp
  {
    Interp(interp.lastThread, interp.Targets())
  }

  method Perform(interp: Interpreter, e: Event) returns (delivery: Delivery, switch: Switch)
    requires interp.Valid() && EventOk(e)
    modifies interp
    ensures interp.Valid()
    ensures View(interp) == After(old(View(interp)), e)
    ensures delivery == Delivers(old(View(interp)), e) && switch == Switches(old(View(interp)), e)
  {
    delivery, switch := Silent, NoSwitch;
    match e
    case Check(thread, readings) => delivery := interp.CheckCallAt(thread, readings);
    case Turn(thread, at) => switch := interp.TakeTurn(thread, at);
    case Arm(space, watch) => interp.Arm(space, watch);
    case Clear(space) => interp.ClearCallAt(space);
    case Register(space, install, visible) => interp.SetSwitchCallback(space, install, visible);
  }

  /** A whole boundary is the check, then the turn unless a callback delivered by the check raised; at a
      hidden frame it is the turn alone. */
  method Boundary(interp: Interpreter, thread: ThreadId, at: FrameSpace, readings: Readings, raises: bool)
    requires interp.Valid()
    modifies interp
    ensures interp.Valid()
    ensures var s := old(View(interp));
            var check, turn := Check(thread, readings), Turn(thread, at);
            View(interp) == (if at.Hidden? then After(s, turn)
                             else if Delivers(s, check).Delivered? && raises then After(s, check)
                             else After(After(s, check), turn))
  {
    var _, _, _ := interp.BeginInstruction(thread, at, readings, raises);
  }
}
