/** The interpreter's callback list (retracemodule.c:300-385, 562-669, 1200-1349, 1783-1966): one node
    per space holds a thread-switch callback with its cursor and a call_at target; the root space keeps
    its call_at target apart. */
module SpaceCallbacks {
  import opened Lexicographic

  /** Zero is the id of a thread that was never seeded. */
  type ThreadId = nat
  type SpaceId = nat

  const ROOT: SpaceId := 0

  /** Where a boundary is: in a frame with no coordinates, or in a frame of a space. */
  datatype FrameSpace = Hidden | Within(space: SpaceId)

  datatype Cursor = NoThread | Last(thread: ThreadId)

  /** An armed call_at: the thread and coordinates waited for, and whether an overshoot callback was
      given besides the hit callback. */
  datatype Watch = NoWatch | Watch(thread: ThreadId, target: seq<nat>, overshoot: bool)

  /** One node of the list; `registered` means its thread-switch callback is set. */
  datatype Entry = Entry(space: SpaceId, registered: bool, cursor: Cursor, watch: Watch)

  /** A delivered thread-switch callback: previous visible thread of the space, next thread. */
  datatype Switch = NoSwitch | Switch(space: SpaceId, previous: ThreadId, next: ThreadId)

  /** A delivered call_at callback. */
  datatype Delivery = Silent | Delivered(space: SpaceId, hit: bool)

  /** A call_at callback as it ran, with whether its own target was still armed then. */
  datatype Invocation = Invocation(space: SpaceId, hit: bool, stillArmed: bool)

  /** What the running thread's coordinates read in a space; unseen when it never ran there. */
  datatype Reading = Unseen | At(vector: seq<nat>)

  type Readings = SpaceId -> Reading

  datatype ArmError = ZeroThread | BadCoordinates | UnknownThread | UnknownSpace | InThePast

  datatype ArmResult = Armed | Refused(error: ArmError)

  predicate DistinctSpaces(entries: seq<Entry>) {
    forall i, j :: 0 <= i < j < |entries| ==> entries[i].space != entries[j].space
  }

  predicate Empty(e: Entry) {
    !e.registered && e.watch.NoWatch?
  }

  predicate EntryOk(e: Entry) {
    !Empty(e) && (e.space == ROOT ==> e.watch.NoWatch?) && (e.watch.Watch? ==> e.watch.thread != 0)
  }

  predicate AllOk(entries: seq<Entry>) {
    forall i :: 0 <= i < |entries| ==> EntryOk(entries[i])
  }

  predicate AnyRegistered(entries: seq<Entry>) {
    exists i :: 0 <= i < |entries| && entries[i].registered
  }

  predicate AnyWatch(entries: seq<Entry>) {
    exists i :: 0 <= i < |entries| && entries[i].watch.Watch?
  }

  function Find(entries: seq<Entry>, space: SpaceId): (k: nat)
    ensures k <= |entries|
    ensures k < |entries| ==> entries[k].space == space
    ensures forall j :: 0 <= j < k ==> entries[j].space != space
  {
    if entries == [] then 0
    else if entries[0].space == space then 0
    else 1 + Find(entries[1..], space)
  }

  /** Index of the registered node the switch delivery stops at, or the length of the list. */
  function Matching(entries: seq<Entry>, space: SpaceId): (k: nat)
    ensures k <= |entries|
    ensures k < |entries| ==> entries[k].registered && entries[k].space == space
    ensures forall j :: 0 <= j < k ==> !(entries[j].registered && entries[j].space == space)
  {
    if entries == [] then 0
    else if entries[0].registered && entries[0].space == space then 0
    else 1 + Matching(entries[1..], space)
  }

  // ------------------------------------------------------------------ specifications

  /** A node is pruned as soon as it has no use left. */
  function Keep(e: Entry): seq<Entry> {
    if Empty(e) then [] else [e]
  }

  ghost function Replaced(entries: seq<Entry>, k: nat, e: Entry): seq<Entry>
    requires k < |entries|
  {
    entries[..k] + Keep(e) + entries[k + 1..]
  }

  /** Clearing a thread-switch callback prunes a node with no other use; installing one resets the
      cursor. */
  ghost function Registered(entries: seq<Entry>, space: SpaceId, install: bool, visible: Cursor): seq<Entry> {
    var k := Find(entries, space);
    if k == |entries| then (if install then [Entry(space, true, visible, NoWatch)] + entries else entries)
    else Replaced(entries, k, Entry(space, install, if install then visible else NoThread, entries[k].watch))
  }

  /** The switch an entry reports at a boundary that is delivered to it. */
  function Report(e: Entry, thread: ThreadId): Switch {
    match e.cursor
    case NoThread => NoSwitch
    case Last(previous) => if previous == thread then NoSwitch else Switch(e.space, previous, thread)
  }

  ghost function SwitchDelivered(entries: seq<Entry>, thread: ThreadId, at: FrameSpace): (seq<Entry>, Switch) {
    var k := if at.Hidden? then |entries| else Matching(entries, at.space);
    if k == |entries| then (entries, NoSwitch)
    else (entries[k := entries[k].(cursor := Last(thread))], Report(entries[k], thread))
  }

  /** The thread part of an instruction boundary. */
  ghost function SwitchStep(last: Cursor, entries: seq<Entry>, thread: ThreadId, at: FrameSpace): (seq<Entry>, Switch) {
    if last == Last(thread) || last == NoThread || !AnyRegistered(entries) then (entries, NoSwitch)
    else SwitchDelivered(entries, thread, at)
  }

  ghost function Cleared(entries: seq<Entry>, space: SpaceId): seq<Entry> {
    var k := Find(entries, space);
    if k == |entries| then entries else Replaced(entries, k, entries[k].(watch := NoWatch))
  }

  /** Where the targets live: the root slot and the list. */
  datatype Table = Table(root: Watch, entries: seq<Entry>)

  ghost predicate TableOk(t: Table) {
    DistinctSpaces(t.entries) && AllOk(t.entries) && (t.root.Watch? ==> t.root.thread != 0)
  }

  function WatchIn(entries: seq<Entry>, space: SpaceId): Watch {
    var k := Find(entries, space);
    if k == |entries| then NoWatch else entries[k].watch
  }

  function WatchOf(t: Table, space: SpaceId): Watch {
    if space == ROOT then t.root else WatchIn(t.entries, space)
  }

  ghost function ClearedTable(t: Table, space: SpaceId): Table {
    if space == ROOT then t.(root := NoWatch) else t.(entries := Cleared(t.entries, space))
  }

  ghost function Placed(t: Table, space: SpaceId, w: Watch): Table {
    if space == ROOT then t.(root := w)
    else
      var k := Find(t.entries, space);
      t.(entries := if k == |t.entries| then [Entry(space, false, NoThread, w)] + t.entries
                    else t.entries[k := t.entries[k].(watch := w)])
  }

  /** Arming first clears, so a node used for nothing else is pruned and comes back at the head. */
  ghost function ArmedTable(t: Table, space: SpaceId, w: Watch): Table {
    Placed(ClearedTable(t, space), space, w)
  }

  datatype Verdict = Wait | Drop | Fire(hit: bool)

  /** What a boundary of a thread does to a target, given the reading of the target's space. */
  function Judge(w: Watch, thread: ThreadId, reading: Reading): Verdict {
    if w.NoWatch? || w.thread != thread then Wait
    else if reading.Unseen? then Drop
    else if LexLess(reading.vector, w.target) then Wait
    else if reading.vector == w.target then Fire(true)
    else if w.overshoot then Fire(false)
    else Drop
  }

  /** One pass over the list: targets passed without an overshoot callback are dropped, and the first
      that fires ends the pass. */
  ghost function Sweep(entries: seq<Entry>, thread: ThreadId, readings: Readings): (seq<Entry>, Delivery) {
    if entries == [] then ([], Silent)
    else
      var e := entries[0];
      match Judge(e.watch, thread, readings(e.space))
      case Wait =>
        var (rest, delivery) := Sweep(entries[1..], thread, readings);
        ([e] + rest, delivery)
      case Drop =>
        var (rest, delivery) := Sweep(entries[1..], thread, readings);
        (Keep(e.(watch := NoWatch)) + rest, delivery)
      case Fire(hit) => (Keep(e.(watch := NoWatch)) + entries[1..], Delivered(e.space, hit))
  }

  ghost function Checked(t: Table, thread: ThreadId, readings: Readings): (Table, Delivery) {
    match Judge(t.root, thread, readings(ROOT))
    case Fire(hit) => (t.(root := NoWatch), Delivered(ROOT, hit))
    case verdict =>
      var (entries, delivery) := Sweep(t.entries, thread, readings);
      (Table(if verdict.Drop? then NoWatch else t.root, entries), delivery)
  }

  // ------------------------------------------------------------------ list facts

  /** Dropping a node with no use left keeps the list in order. */
  lemma {:induction false} DroppedOrder(entries: seq<Entry>, k: nat)
    requires k < |entries| && DistinctSpaces(entries)
    requires forall i :: 0 <= i < |entries| && i != k ==> EntryOk(entries[i])
    ensures DistinctSpaces(entries[..k] + entries[k + 1..]) && AllOk(entries[..k] + entries[k + 1..])
  {
    var kept := entries[..k] + entries[k + 1..];
    assert forall i :: 0 <= i < |kept| ==> kept[i] == entries[if i < k then i else i + 1];
  }

  /** It keeps the flags computed from the list. */
  lemma {:induction false} DroppedFlags(entries: seq<Entry>, k: nat)
    requires k < |entries| && Empty(entries[k])
    ensures var kept := entries[..k] + entries[k + 1..];
            (AnyRegistered(kept) <==> AnyRegistered(entries)) && (AnyWatch(kept) <==> AnyWatch(entries))
  {
    var kept := entries[..k] + entries[k + 1..];
    forall i | 0 <= i < |kept|
      ensures kept[i] == entries[if i < k then i else i + 1]
    {
    }
    forall i | 0 <= i < |entries| && i != k
      ensures entries[i] == kept[if i < k then i else i - 1]
    {
    }
  }

  lemma {:induction false} ReplacedFlags(entries: seq<Entry>, k: nat, e: Entry)
    requires k < |entries| && DistinctSpaces(entries) && AllOk(entries)
    requires e.space == entries[k].space && (Empty(e) || EntryOk(e))
    ensures var changed, kept := entries[k := e], Replaced(entries, k, e);
            && kept == Replaced(changed, k, e)
            && DistinctSpaces(kept) && AllOk(kept)
            && (AnyRegistered(kept) <==> AnyRegistered(changed)) && (AnyWatch(kept) <==> AnyWatch(changed))
  {
    var changed := entries[k := e];
    assert changed[..k] == entries[..k] && changed[k + 1..] == entries[k + 1..];
    if Empty(e) {
      DroppedOrder(changed, k);
      DroppedFlags(changed, k);
      assert entries[..k] + [] + entries[k + 1..] == changed[..k] + changed[k + 1..];
    } else {
      assert Replaced(entries, k, e) == changed;
    }
  }

  lemma {:induction false} MatchingAt(entries: seq<Entry>, k: nat)
    requires k < |entries| && entries[k].registered
    requires forall i :: 0 <= i < k ==> !(entries[i].registered && entries[i].space == entries[k].space)
    ensures Matching(entries, entries[k].space) == k
  {
  }

  /** After a registration a turn in the space finds a callback exactly when one was installed, and its
      cursor is the thread visible there. */
  lemma {:induction false} RegisteredMatches(entries: seq<Entry>, space: SpaceId, install: bool, visible: Cursor)
    requires DistinctSpaces(entries)
    ensures var after := Registered(entries, space, install, visible);
            && (Matching(after, space) < |after| <==> install)
            && (install ==> after[Matching(after, space)].cursor == visible)
            && (forall i :: 0 <= i < |after| && after[i].space == space ==>
                  after[i].registered == install && after[i].cursor == if install then visible else NoThread)
  {
    var k, after := Find(entries, space), Registered(entries, space, install, visible);
    if k < |entries| {
      var x := Entry(space, install, if install then visible else NoThread, entries[k].watch);
      var kept := if Keep(x) == [] then 0 else 1;
      assert after == entries[..k] + Keep(x) + entries[k + 1..];
      forall i | 0 <= i < |after|
        ensures after[i].space == space ==> kept == 1 && i == k && after[i] == x
      {
        assert after[i] == if i < k then entries[i] else if i < k + kept then x else entries[i + 1 - kept];
      }
      if install {
        assert after[k] == x;
        MatchingAt(after, k);
      }
    } else if install {
      assert after[0] == Entry(space, true, visible, NoWatch);
    }
  }

  /** A change to a node that keeps its callback, or its target, keeps the flag computed from it. */
  lemma {:induction false} ChangedFlags(entries: seq<Entry>, k: nat, e: Entry)
    requires k < |entries|
    ensures e.registered == entries[k].registered ==> (AnyRegistered(entries[k := e]) <==> AnyRegistered(entries))
    ensures e.watch.Watch? == entries[k].watch.Watch? ==> (AnyWatch(entries[k := e]) <==> AnyWatch(entries))
  {
    var changed := entries[k := e];
    if e.registered == entries[k].registered {
      assert forall i :: 0 <= i < |entries| ==> changed[i].registered == entries[i].registered;
    }
    if e.watch.Watch? == entries[k].watch.Watch? {
      assert forall i :: 0 <= i < |entries| ==> changed[i].watch.Watch? == entries[i].watch.Watch?;
    }
  }

  lemma {:induction false} HeadFlags(entries: seq<Entry>, e: Entry)
    requires DistinctSpaces(entries) && AllOk(entries) && EntryOk(e) && Find(entries, e.space) == |entries|
    ensures var longer := [e] + entries;
            && DistinctSpaces(longer) && AllOk(longer)
            && (AnyRegistered(longer) <==> e.registered || AnyRegistered(entries))
            && (AnyWatch(longer) <==> e.watch.Watch? || AnyWatch(entries))
  {
    var longer := [e] + entries;
    assert longer[0] == e;
    assert forall i :: 0 <= i < |entries| ==> entries[i] == longer[i + 1];
    assert forall i :: 0 < i < |longer| ==> longer[i] == entries[i - 1];
  }

  /** Sign of the comparison of a target with the current coordinates. */
  method CompareTarget(target: seq<nat>, current: seq<nat>) returns (comparison: int)
    ensures comparison < 0 <==> LexLess(target, current)
    ensures comparison == 0 <==> target == current
    ensures comparison > 0 <==> LexLess(current, target)
  {
    var common := if |target| < |current| then |target| else |current|;
    for position := 0 to common
      invariant target[..position] == current[..position]
    {
      ghost var prefix := target[..position];
      assert target == prefix + target[position..] && current == prefix + current[position..];
      LexCommonPrefix(prefix, target[position..], current[position..]);
      LexCommonPrefix(prefix, current[position..], target[position..]);
      if target[position] < current[position] {
        return -1;
      } else if target[position] > current[position] {
        return 1;
      }
    }
    if |target| < |current| {
      LexExtend(target, current[common..]);
      assert current == target + current[common..];
      LexAsymmetric(target, current);
      return -1;
    } else if |target| > |current| {
      LexExtend(current, target[common..]);
      assert target == current + target[common..];
      LexAsymmetric(current, target);
      return 1;
    } else {
      assert target == target[..common] && current == current[..common];
      if LexLess(target, current) {
        LexAsymmetric(target, current);
      }
      return 0;
    }
  }

  class Interpreter {
    var lastThread: Cursor
    var entries: seq<Entry>
    var switchArmed: bool
    var rootWatch: Watch
    var extraArmed: bool
    var calls: seq<Invocation>

    ghost predicate Valid()
      reads this
    {
      && DistinctSpaces(entries) && AllOk(entries)
      && (switchArmed <==> AnyRegistered(entries)) && (extraArmed <==> AnyWatch(entries))
      && (rootWatch.Watch? ==> rootWatch.thread != 0)
    }

    ghost function Targets(): Table
      reads this
    {
      Table(rootWatch, entries)
    }

    constructor ()
      ensures Valid() && lastThread == NoThread && entries == [] && rootWatch == NoWatch && calls == []
    {
      lastThread, entries, switchArmed, rootWatch, extraArmed, calls := NoThread, [], false, NoWatch, false, [];
    }

    // ---------------------------------------------------------------- thread switches

    /** The delivery loop: the first registered entry of the frame's space is the only one treated. */
    method DeliverSwitch(current: ThreadId, at: FrameSpace) returns (switch: Switch)
      requires Valid()
      modifies this`entries
      ensures Valid()
      ensures (entries, switch) == SwitchDelivered(old(entries), current, at)
    {
      for i := 0 to |entries|
        invariant entries == old(entries)
        invariant forall j :: 0 <= j < i ==> !(entries[j].registered && at == Within(entries[j].space))
      {
        var entry := entries[i];
        if entry.registered && at == Within(entry.space) {
          assert Matching(entries, entry.space) == i;
          if entry.cursor == Last(current) {
            assert entries[i := entry] == entries;
            return NoSwitch;
          }
          entries := entries[i := entry.(cursor := Last(current))];
          switch := Report(entry, current);
          ChangedFlags(old(entries), i, entry.(cursor := Last(current)));
          return;
        }
      }
      switch := NoSwitch;
    }

    /** Installs or clears the thread-switch callback of a space; `visible` is the registering thread
        if it has a frame in that space. */
    method SetSwitchCallback(space: SpaceId, install: bool, visible: Cursor)
      requires Valid()
      modifies this`entries, this`switchArmed
      ensures Valid()
      ensures entries == Registered(old(entries), space, install, visible)
      ensures Matching(entries, space) < |entries| <==> install
      ensures install ==> entries[Matching(entries, space)].cursor == visible
    {
      RegisteredMatches(entries, space, install, visible);
      if !install && Find(entries, space) == |entries| {
        return;
      }
      StoreCallback(space, install, visible);
      switchArmed := exists i :: 0 <= i < |entries| && entries[i].registered;
    }

    /** Writes the callback and cursor of a space, making or pruning its node as needed. */
    method StoreCallback(space: SpaceId, install: bool, visible: Cursor)
      requires Valid() && (install || Find(entries, space) < |entries|)
      modifies this`entries
      ensures DistinctSpaces(entries) && AllOk(entries) && (extraArmed <==> AnyWatch(entries))
      ensures entries == Registered(old(entries), space, install, visible)
    {
      var k: nat := Find(entries, space);
      if k == |entries| {
        entries := [Entry(space, true, visible, NoWatch)] + entries;
        HeadFlags(old(entries), Entry(space, true, visible, NoWatch));
      } else {
        var entry := Entry(space, install, if install then visible else NoThread, entries[k].watch);
        ReplacedFlags(entries, k, entry);
        ChangedFlags(entries, k, entry);
        entries := entries[k := entry];
        Prune(k);
      }
    }

    /** Unlinks a node that has no use left. */
    method Prune(k: nat)
      requires k < |entries|
      modifies this`entries
      ensures entries == Replaced(old(entries), k, old(entries)[k])
    {
      if Empty(entries[k]) {
        entries := entries[..k] + entries[k + 1..];
      }
    }

    // ---------------------------------------------------------------- call_at

    method ClearCallAt(space: SpaceId)
      requires Valid()
      modifies this`entries, this`rootWatch, this`extraArmed
      ensures Valid()
      ensures Targets() == ClearedTable(old(Targets()), space)
    {
      if space == ROOT {
        rootWatch := NoWatch;
        return;
      }
      var k: nat := Find(entries, space);
      if k < |entries| {
        var entry := entries[k].(watch := NoWatch);
        ReplacedFlags(entries, k, entry);
        ChangedFlags(entries, k, entry);
        entries := entries[k := entry];
        extraArmed := exists i :: 0 <= i < |entries| && entries[i].watch.Watch?;
        Prune(k);
      }
    }

    /** Runs a call_at callback. */
    method Invoke(space: SpaceId, hit: bool)
      modifies this`calls
      ensures calls == old(calls) + [Invocation(space, hit, WatchOf(Targets(), space).Watch?)]
    {
      var armed := if space == ROOT then rootWatch.Watch? else WatchIn(entries, space).Watch?;
      calls := calls + [Invocation(space, hit, armed)];
    }

    /** Examines one target at a boundary: it is cleared before its callback runs. */
    method CheckSlot(thread: ThreadId, space: SpaceId, watch: Watch, reading: Reading) returns (delivery: Delivery)
      requires Valid() && (watch == NoWatch || watch == WatchOf(Targets(), space))
      modifies this`entries, this`rootWatch, this`extraArmed, this`calls
      ensures Valid()
      ensures var verdict := Judge(watch, thread, reading);
              && Targets() == (if verdict.Wait? then old(Targets()) else ClearedTable(old(Targets()), space))
              && delivery == (if verdict.Fire? then Delivered(space, verdict.hit) else Silent)
              && calls == old(calls) + (if verdict.Fire? then [Invocation(space, verdict.hit, false)] else [])
    {
      delivery := Silent;
      if watch.NoWatch? || watch.thread != thread {
        return;
      }
      if reading.Unseen? {
        ClearCallAt(space);
        return;
      }
      var comparison := CompareTarget(watch.target, reading.vector);
      JudgeCompares(watch, thread, reading.vector);
      if comparison > 0 {
        return;
      }
      if comparison < 0 && !watch.overshoot {
        ClearCallAt(space);
        return;
      }
      FireTarget(space, comparison == 0);
      delivery := Delivered(space, comparison == 0);
    }

    /** Disarms a target and runs its callback. */
    method FireTarget(space: SpaceId, hit: bool)
      requires Valid()
      modifies this`entries, this`rootWatch, this`extraArmed, this`calls
      ensures Valid() && Targets() == ClearedTable(old(Targets()), space)
      ensures calls == old(calls) + [Invocation(space, hit, false)]
    {
      ClearedTableWatch(Targets(), space);
      ClearCallAt(space);
      Invoke(space, hit);
    }

    /** Examines every target at an instruction boundary of a thread, the root's first; a delivered
        callback ends the pass. */
    method CheckCallAt(thread: ThreadId, readings: Readings) returns (delivery: Delivery)
      requires Valid()
      modifies this`entries, this`rootWatch, this`extraArmed, this`calls
      ensures Valid()
      ensures (Targets(), delivery) == Checked(old(Targets()), thread, readings)
      ensures calls == old(calls) + match delivery
                                    case Silent => []
                                    case Delivered(space, hit) => [Invocation(space, hit, false)]
    {
      SilentUnlessArmed(Targets(), thread, readings);
      if thread == 0 || (rootWatch.NoWatch? && !extraArmed) {
        return Silent;
      }
      delivery := CheckSlot(thread, ROOT, rootWatch, readings(ROOT));
      if delivery.Delivered? || !extraArmed {
        return;
      }
      delivery := CheckList(thread, readings);
    }

    method CheckList(thread: ThreadId, readings: Readings) returns (delivery: Delivery)
      requires Valid()
      modifies this`entries, this`rootWatch, this`extraArmed, this`calls
      ensures Valid() && rootWatch == old(rootWatch)
      ensures (entries, delivery) == Sweep(old(entries), thread, readings)
      ensures calls == old(calls) + match delivery
                                    case Silent => []
                                    case Delivered(space, hit) => [Invocation(space, hit, false)]
    {
      var i: nat := 0;
      delivery := Silent;
      SweptWhole(entries, thread, readings);
      while i < |entries| && delivery.Silent?
        invariant Valid() && rootWatch == old(rootWatch) && i <= |entries|
        invariant delivery.Silent? ==> SweptTo(entries, i, thread, readings) == Sweep(old(entries), thread, readings)
        invariant delivery.Delivered? ==> (entries, delivery) == Sweep(old(entries), thread, readings)
        invariant calls == old(calls) + match delivery
                                        case Silent => []
                                        case Delivered(space, hit) => [Invocation(space, hit, false)]
        decreases delivery.Silent?, |entries| - i
      {
        delivery, i := CheckNode(i, thread, readings);
      }
      if delivery.Silent? {
        assert entries[..i] + [] == entries;
      }
    }

    /** Examines the target of one node; the next position is that of the node after it, whether or
        not the node itself was pruned. */
    method CheckNode(i: nat, thread: ThreadId, readings: Readings) returns (delivery: Delivery, next: nat)
      requires Valid() && i < |entries|
      modifies this`entries, this`rootWatch, this`extraArmed, this`calls
      ensures Valid() && rootWatch == old(rootWatch) && next <= |entries| && |entries| - next < |old(entries)| - i
      ensures if delivery.Silent? then SweptTo(entries, next, thread, readings) == SweptTo(old(entries), i, thread, readings)
              else (entries, delivery) == SweptTo(old(entries), i, thread, readings)
      ensures calls == old(calls) + match delivery
                                    case Silent => []
                                    case Delivered(space, hit) => [Invocation(space, hit, false)]
    {
      var size, entry := |entries|, entries[i];
      FindAt(entries, i);
      assert EntryOk(entry);
      SweepHead(entries, i, thread, readings);
      delivery := CheckSlot(thread, entry.space, entry.watch, readings(entry.space));
      next := if |entries| == size then i + 1 else i;
    }

    /** Arms a target; `reading` is that of the space on the thread waited for, or none when no such
        thread is known. */
    method CallAt(thread: ThreadId, target: seq<nat>, overshoot: bool, space: SpaceId, known: bool, reading: Reading)
      returns (result: ArmResult)
      requires Valid()
      modifies this`entries, this`rootWatch, this`extraArmed
      ensures Valid()
      ensures result == Admission(thread, target, overshoot, known, reading)
      ensures result == Armed <==> thread != 0 && |target| > 0 && |target| % 2 == 0 && known
                                   && !Judge(Watch(thread, target, overshoot), thread, reading).Drop?
      ensures Targets() == if result == Armed then ArmedTable(old(Targets()), space, Watch(thread, target, overshoot))
                           else old(Targets())
    {
      AdmissionExact(thread, target, overshoot, known, reading);
      if thread == 0 {
        return Refused(ZeroThread);
      }
      if |target| == 0 || |target| % 2 != 0 {
        return Refused(BadCoordinates);
      }
      if !known {
        return Refused(UnknownThread);
      }
      if reading.Unseen? {
        return Refused(UnknownSpace);
      }
      var comparison := CompareTarget(target, reading.vector);
      if comparison < 0 && !overshoot {
        return Refused(InThePast);
      }
      Arm(space, Watch(thread, target, overshoot));
      result := Armed;
    }

    /** Clears the target of the space, then places the new one. */
    method Arm(space: SpaceId, watch: Watch)
      requires Valid() && watch.Watch? && watch.thread != 0
      modifies this`entries, this`rootWatch, this`extraArmed
      ensures Valid()
      ensures Targets() == ArmedTable(old(Targets()), space, watch)
    {
      ClearCallAt(space);
      Place(space, watch);
    }

    method Place(space: SpaceId, watch: Watch)
      requires Valid() && watch.Watch? && watch.thread != 0
      modifies this`entries, this`rootWatch, this`extraArmed
      ensures Valid()
      ensures Targets() == Placed(old(Targets()), space, watch)
    {
      if space == ROOT {
        rootWatch := watch;
        return;
      }
      var k: nat := Find(entries, space);
      if k == |entries| {
        HeadFlags(entries, Entry(space, false, NoThread, watch));
        entries := [Entry(space, false, NoThread, watch)] + entries;
      } else {
        var entry := entries[k].(watch := watch);
        ReplacedFlags(entries, k, entry);
        ChangedFlags(entries, k, entry);
        entries := entries[k := entry];
        assert entries[k].watch.Watch?;
      }
      extraArmed := true;
    }

    /** The interpreter part of an instruction boundary outside callbacks: targets are checked only at
        a visible frame; `raises` says whether a call_at callback delivered here would raise. */
    method BeginInstruction(thread: ThreadId, at: FrameSpace, readings: Readings, raises: bool)
      returns (ok: bool, delivery: Delivery, switch: Switch)
      requires Valid()
      modifies this
      ensures Valid()
      ensures var (table, call) := if at.Hidden? then (old(Targets()), Silent) else Checked(old(Targets()), thread, readings);
              && delivery == call && ok == !(call.Delivered? && raises)
              && rootWatch == table.root
              && (entries, switch) == (if ok then SwitchStep(old(lastThread), table.entries, thread, at)
                                       else (table.entries, NoSwitch))
              && lastThread == (if ok then Last(thread) else old(lastThread))
    {
      ok, switch, delivery := true, NoSwitch, Silent;
      SilentUnlessArmed(Targets(), thread, readings);
      if (rootWatch.Watch? || extraArmed) && at.Within? {
        delivery := CheckCallAt(thread, readings);
        if delivery.Delivered? && raises {
          ok := false;
          return;
        }
      }
      switch := TakeTurn(thread, at);
    }

    /** The thread part of an instruction boundary. */
    method TakeTurn(thread: ThreadId, at: FrameSpace) returns (switch: Switch)
      requires Valid()
      modifies this`entries, this`lastThread
      ensures Valid()
      ensures (entries, switch) == SwitchStep(old(lastThread), old(entries), thread, at) && lastThread == Last(thread)
    {
      switch := NoSwitch;
      if lastThread != Last(thread) {
        if lastThread != NoThread && switchArmed {
          switch := DeliverSwitch(thread, at);
        }
        lastThread := Last(thread);
      }
    }
  }

  // ------------------------------------------------------------------ one pass

  ghost function Admission(thread: ThreadId, target: seq<nat>, overshoot: bool, known: bool, reading: Reading): ArmResult {
    if thread == 0 then Refused(ZeroThread)
    else if |target| == 0 || |target| % 2 != 0 then Refused(BadCoordinates)
    else if !known then Refused(UnknownThread)
    else if reading.Unseen? then Refused(UnknownSpace)
    else if LexLess(target, reading.vector) && !overshoot then Refused(InThePast)
    else Armed
  }

  /** A well-formed request on a space the thread has run in is refused exactly when a check at that
      very reading would drop it unheard. */
  lemma {:induction false} RefusedIffDropped(thread: ThreadId, target: seq<nat>, overshoot: bool, vector: seq<nat>)
    requires thread != 0 && |target| > 0 && |target| % 2 == 0
    ensures Admission(thread, target, overshoot, true, At(vector)) == Refused(InThePast)
            <==> Judge(Watch(thread, target, overshoot), thread, At(vector)).Drop?
    ensures Admission(thread, target, overshoot, true, At(vector)) in {Armed, Refused(InThePast)}
  {
    LexTotal(vector, target);
    JudgeCompares(Watch(thread, target, overshoot), thread, vector);
  }

  /** When a request is admitted, and the one reason each refusal gives, in the order they are looked for. */
  lemma {:induction false} AdmissionExact(thread: ThreadId, target: seq<nat>, overshoot: bool, known: bool, reading: Reading)
    ensures var formed := |target| > 0 && |target| % 2 == 0;
            var dropped := Judge(Watch(thread, target, overshoot), thread, reading).Drop?;
            && (Admission(thread, target, overshoot, known, reading) == Armed <==> thread != 0 && formed && known && !dropped)
            && (Admission(thread, target, overshoot, known, reading) == Refused(ZeroThread) <==> thread == 0)
            && (Admission(thread, target, overshoot, known, reading) == Refused(BadCoordinates) <==> thread != 0 && !formed)
            && (Admission(thread, target, overshoot, known, reading) == Refused(UnknownThread) <==> thread != 0 && formed && !known)
            && (Admission(thread, target, overshoot, known, reading) == Refused(UnknownSpace)
                <==> thread != 0 && formed && known && reading == Unseen)
            && (Admission(thread, target, overshoot, known, reading) == Refused(InThePast)
                <==> thread != 0 && formed && known && reading != Unseen && dropped)
  {
    if thread != 0 && |target| > 0 && |target| % 2 == 0 && known && reading.At? {
      RefusedIffDropped(thread, target, overshoot, reading.vector);
    }
  }

  lemma {:induction false} FindAt(entries: seq<Entry>, i: nat)
    requires DistinctSpaces(entries) && i < |entries|
    ensures Find(entries, entries[i].space) == i
  {
  }

  lemma {:induction false} WatchCons(e: Entry, rest: seq<Entry>, space: SpaceId)
    ensures WatchIn([e] + rest, space) == if e.space == space then e.watch else WatchIn(rest, space)
    ensures forall i :: 0 <= i < |rest| ==> ([e] + rest)[i + 1] == rest[i]
  {
    assert ([e] + rest)[1..] == rest;
  }

  /** Changing the node at one position, and pruning it if nothing uses it any more, changes the target
      of its space at most. */
  lemma {:induction false} ReplacedWatch(entries: seq<Entry>, k: nat, x: Entry, other: SpaceId)
    requires DistinctSpaces(entries) && k < |entries| && x.space == entries[k].space
    ensures WatchIn(Replaced(entries, k, x), other) == if other == x.space then x.watch else WatchIn(entries, other)
    decreases k
  {
    var e, rest := entries[0], entries[1..];
    assert entries == [e] + rest;
    if k == 0 {
      assert Find(rest, e.space) == |rest|;
      HeadReplaced(e, rest, x, other);
    } else {
      ReplacedWatch(rest, k - 1, x, other);
      ReplacedCons(e, rest, k - 1, x);
      WatchCons(e, rest, other);
      WatchCons(e, Replaced(rest, k - 1, x), other);
    }
  }

  lemma {:induction false} HeadReplaced(e: Entry, rest: seq<Entry>, x: Entry, other: SpaceId)
    requires Find(rest, e.space) == |rest| && x.space == e.space
    ensures WatchIn(Replaced([e] + rest, 0, x), other) == if other == x.space then x.watch else WatchIn([e] + rest, other)
  {
    var entries := [e] + rest;
    assert entries[1..] == rest && Replaced(entries, 0, x) == Keep(x) + rest && [] + rest == rest;
    WatchCons(e, rest, other);
    WatchCons(x, rest, other);
  }

  lemma {:induction false} ReplacedCons(e: Entry, rest: seq<Entry>, k: nat, x: Entry)
    requires k < |rest|
    ensures Replaced([e] + rest, k + 1, x) == [e] + Replaced(rest, k, x)
  {
    var entries := [e] + rest;
    assert entries[..k + 1] == [e] + rest[..k] && entries[k + 2..] == rest[k + 1..];
    assert ([e] + rest[..k]) + Keep(x) + rest[k + 1..] == [e] + (rest[..k] + Keep(x) + rest[k + 1..]);
  }

  /** Clearing disarms one space and touches no other target. */
  lemma {:induction false} ClearedWatch(entries: seq<Entry>, space: SpaceId, other: SpaceId)
    requires DistinctSpaces(entries)
    ensures WatchIn(Cleared(entries, space), other) == if other == space then NoWatch else WatchIn(entries, other)
  {
    var k := Find(entries, space);
    if k < |entries| {
      ReplacedWatch(entries, k, entries[k].(watch := NoWatch), other);
    }
  }

  lemma {:induction false} ClearedTableWatch(t: Table, space: SpaceId)
    requires DistinctSpaces(t.entries)
    ensures WatchOf(ClearedTable(t, space), space) == NoWatch
  {
    if space != ROOT {
      ClearedWatch(t.entries, space, space);
    }
  }

  lemma {:induction false} JudgeCompares(w: Watch, thread: ThreadId, vector: seq<nat>)
    requires w.Watch? && w.thread == thread
    ensures LexLess(w.target, vector) ==> Judge(w, thread, At(vector)) == if w.overshoot then Fire(false) else Drop
  {
    if LexLess(w.target, vector) {
      LexAsymmetric(w.target, vector);
    }
  }

  lemma {:induction false} AllWait(entries: seq<Entry>, thread: ThreadId, readings: Readings)
    requires forall i :: 0 <= i < |entries| ==> Judge(entries[i].watch, thread, readings(entries[i].space)).Wait?
    ensures Sweep(entries, thread, readings) == (entries, Silent)
  {
    if entries != [] {
      AllWait(entries[1..], thread, readings);
      assert Judge(entries[0].watch, thread, readings(entries[0].space)).Wait?;
      assert entries == [entries[0]] + entries[1..];
    }
  }

  /** A pass that the armed flags skip would have changed nothing. */
  lemma {:induction false} SilentUnlessArmed(t: Table, thread: ThreadId, readings: Readings)
    requires AllOk(t.entries) && (t.root.Watch? ==> t.root.thread != 0)
    ensures thread == 0 || !AnyWatch(t.entries) ==> Sweep(t.entries, thread, readings) == (t.entries, Silent)
    ensures thread == 0 || (t.root.NoWatch? && !AnyWatch(t.entries)) ==> Checked(t, thread, readings) == (t, Silent)
  {
    if thread == 0 || !AnyWatch(t.entries) {
      forall i | 0 <= i < |t.entries|
        ensures Judge(t.entries[i].watch, thread, readings(t.entries[i].space)).Wait?
      {
        assert EntryOk(t.entries[i]);
      }
      AllWait(t.entries, thread, readings);
    }
  }

  /** What a pass comes to that has dealt with the first i nodes. */
  ghost function SweptTo(entries: seq<Entry>, i: nat, thread: ThreadId, readings: Readings): (seq<Entry>, Delivery)
    requires i <= |entries|
  {
    var (rest, last) := Sweep(entries[i..], thread, readings);
    (entries[..i] + rest, last)
  }

  lemma {:induction false} SweptWhole(entries: seq<Entry>, thread: ThreadId, readings: Readings)
    ensures SweptTo(entries, 0, thread, readings) == Sweep(entries, thread, readings)
  {
    var (rest, _) := Sweep(entries, thread, readings);
    assert entries[0..] == entries && entries[..0] + rest == rest;
  }

  /** One turn of the list pass, at position i of the list as it stands. */
  lemma {:induction false} SweepHead(entries: seq<Entry>, i: nat, thread: ThreadId, readings: Readings)
    requires i < |entries|
    ensures var e := entries[i];
            var (rest, last) := Sweep(entries[i..], thread, readings);
            var after := Replaced(entries, i, e.(watch := NoWatch));
            match Judge(e.watch, thread, readings(e.space))
            case Wait =>
              var (rest', last') := Sweep(entries[i + 1..], thread, readings);
              last' == last && entries[..i + 1] + rest' == entries[..i] + rest
            case Drop =>
              var n := if |after| < |entries| then i else i + 1;
              var (rest', last') := Sweep(after[n..], thread, readings);
              last' == last && after[..n] + rest' == entries[..i] + rest
            case Fire(hit) => last == Delivered(e.space, hit) && after == entries[..i] + rest
  {
    var e := entries[i];
    var after := Replaced(entries, i, e.(watch := NoWatch));
    assert entries[i..][0] == e && entries[i..][1..] == entries[i + 1..];
    var (rest', _) := Sweep(entries[i + 1..], thread, readings);
    assert entries[..i + 1] == entries[..i] + [e];
    var n := if |after| < |entries| then i else i + 1;
    assert after[n..] == entries[i + 1..] && after[..n] == entries[..i] + Keep(e.(watch := NoWatch));
    assert entries[..i] + Keep(e.(watch := NoWatch)) + rest' == entries[..i] + (Keep(e.(watch := NoWatch)) + rest');
    assert entries[..i] + [e] + rest' == entries[..i] + ([e] + rest');
    assert after == entries[..i] + (Keep(e.(watch := NoWatch)) + entries[i + 1..]);
  }
}
