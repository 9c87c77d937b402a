/** The ThreadHandoff object (retracemodule.c:1351-1619): its linked entries updated in place. Each
    method is one atomic section of the protocol and is proved to be the step of HandoffProtocol. */
module HandoffObject {
  import opened HandoffProtocol

  class HandoffEntry {
    const threadId: ThreadId
    var permit: bool
    var waiting: bool
    /** The gate lock is free. */
    var open: bool

    ghost function View(): Entry
      reads this
    {
      Entry(permit, waiting, open)
    }

    /** `calloc`, then the gate is acquired once. */
    constructor (threadId: ThreadId)
      ensures this.threadId == threadId && View() == Entry(false, false, false)
    {
      this.threadId := threadId;
      permit, waiting, open := false, false, false;
    }
  }

  class ThreadHandoff {
    const hasTimeout: bool
    var closed: bool
    /** The entry list, most recent first. */
    var entries: seq<HandoffEntry>
    ghost var byId: map<ThreadId, HandoffEntry>

    /** The list holds exactly one entry per thread id. */
    ghost predicate Valid()
      reads this
    {
      && (forall e :: e in entries ==> e.threadId in byId && byId[e.threadId] == e)
      && (forall t :: t in byId ==> byId[t].threadId == t && byId[t] in entries)
    }

    ghost function Table(): map<ThreadId, Entry>
      reads this, byId.Values
    {
      map t | t in byId :: byId[t].View()
    }

    constructor (hasTimeout: bool)
      ensures Valid() && !closed && Table() == map[] && entries == []
    {
      this.hasTimeout := hasTimeout;
      closed := false;
      entries := [];
      byId := map[];
    }

    method FindEntry(t: ThreadId) returns (entry: HandoffEntry?)
      requires Valid()
      ensures entry == if t in byId then byId[t] else null
    {
      for i := 0 to |entries|
        invariant forall j :: 0 <= j < i ==> entries[j].threadId != t
      {
        if entries[i].threadId == t {
          return entries[i];
        }
      }
      return null;
    }

    method GetEntry(t: ThreadId) returns (entry: HandoffEntry)
      requires Valid()
      modifies this`entries, this`byId
      ensures Valid() && Table() == WithEntry(old(Table()), t)
      ensures t in byId && entry == byId[t]
      ensures forall u :: u in old(byId) ==> u in byId && byId[u] == old(byId[u])
      ensures fresh(byId.Values - old(byId.Values))
      ensures entries == if t in old(byId) then old(entries) else [entry] + old(entries)
      ensures t !in old(byId) ==> fresh(entry) && entry.View() == Entry(false, false, false)
    {
      var found := FindEntry(t);
      if found != null {
        return found;
      }
      entry := new HandoffEntry(t);
      Prepend(entry);
    }

    method Prepend(entry: HandoffEntry)
      requires Valid() && entry.threadId !in byId
      modifies this`entries, this`byId
      ensures Valid() && byId == old(byId)[entry.threadId := entry] && entries == [entry] + old(entries)
    {
      byId := byId[entry.threadId := entry];
      entries := [entry] + entries;
    }

    /** Writes the fields of one entry. */
    method Update(entry: HandoffEntry, permit: bool, waiting: bool, open: bool)
      requires Valid() && entry.threadId in byId && byId[entry.threadId] == entry
      modifies entry
      ensures entry.View() == Entry(permit, waiting, open)
      ensures Table() == old(Table())[entry.threadId := Entry(permit, waiting, open)]
    {
      entry.permit, entry.waiting, entry.open := permit, waiting, open;
    }

    method WakeEntryLocked(entry: HandoffEntry)
      requires Valid() && entry.threadId in byId && byId[entry.threadId] == entry
      modifies entry
      ensures Table() == old(Table())[entry.threadId := Wake(old(Table())[entry.threadId])]
    {
      var wakeTarget := !entry.permit && entry.waiting;
      Update(entry, true, entry.waiting, entry.open || wakeTarget);
    }

    /** The wait up to its first release of the lock. */
    method WaitEntryLocked(entry: HandoffEntry) returns (outcome: Outcome)
      requires Valid() && entry.threadId in byId && byId[entry.threadId] == entry
      modifies entry
      ensures var e := old(Table())[entry.threadId];
              && outcome == (if e.permit || closed then Returned else Parked)
              && Table() == old(Table())[entry.threadId := Entry(false, outcome == Parked, e.open)]
    {
      if entry.permit {
        Update(entry, false, false, entry.open);
        return Returned;
      }
      Update(entry, entry.permit, true, entry.open);
      if !closed && !entry.permit {
        return Parked;
      }
      Update(entry, false, false, entry.open);
      return Returned;
    }

    /** `to(target)` up to the release of the lock: returned, raised, or parked at the gate. */
    method To(current: ThreadId, target: ThreadId) returns (outcome: Outcome)
      requires Valid()
      modifies this`entries, this`byId, byId.Values
      ensures Valid()
      ensures target == 0 || current == 0 ==> outcome == Raised && Table() == old(Table())
      ensures target != 0 && current != 0 ==> (Table(), outcome) == ToSection(closed, old(Table()), current, target)
      ensures outcome == Raised <==> target == 0 || current == 0 || closed
      ensures outcome == Returned <==> target == current != 0 && !closed
      ensures outcome != Parked ==> Table() == old(Table())
    {
      if target == 0 || current == 0 || closed {
        return Raised;
      }
      if target == current {
        return Returned;
      }
      var targetEntry := GetEntry(target);
      var entry := GetEntry(current);
      assert Table() == WithEntry(WithEntry(old(Table()), target), current);
      outcome := Transfer(entry, targetEntry);
    }

    /** Drops the caller's stale permit, wakes the target and starts the caller's wait. */
    method Transfer(entry: HandoffEntry, target: HandoffEntry) returns (outcome: Outcome)
      requires Valid() && entry != target && !closed
      requires entry.threadId in byId && byId[entry.threadId] == entry
      requires target.threadId in byId && byId[target.threadId] == target
      modifies entry, target
      ensures outcome == Parked
      ensures var both := old(Table());
              Table() == both[target.threadId := Wake(both[target.threadId])]
                             [entry.threadId := Entry(false, true, both[entry.threadId].open)]
    {
      Update(entry, false, entry.waiting, entry.open);
      WakeEntryLocked(target);
      outcome := WaitEntryLocked(entry);
    }

    /** A gate acquire that succeeds. */
    method AcquireGate(t: ThreadId)
      requires Valid() && t in byId && byId[t].open
      modifies byId.Values
      ensures Table() == old(Table())[t := old(Table())[t].(open := false)]
    {
      var entry := FindEntry(t);
      Update(entry, entry.permit, entry.waiting, false);
    }

    /** Back under the lock after the gate acquire, which may have timed out. */
    method FinishWait(t: ThreadId, acquired: bool) returns (outcome: Outcome)
      requires Valid() && t in byId
      modifies byId.Values
      ensures (Table()[t], outcome) == FinishSection(closed, old(Table()[t]), acquired)
      ensures Table() == old(Table())[t := Table()[t]]
      ensures outcome == Raised <==> !acquired
      ensures outcome == Returned <==> acquired && (closed || old(byId[t].permit))
    {
      var entry := FindEntry(t);
      if !acquired {
        entry.waiting := false;
        return Raised;
      }
      if !closed && !entry.permit {
        return Parked;
      }
      entry.waiting, entry.permit := false, false;
      return Returned;
    }

    method CloseLocked()
      requires Valid()
      modifies this`closed, byId.Values
      ensures Valid() && closed
      ensures Table() == if old(closed) then old(Table()) else map t | t in old(Table()) :: CloseEntry(old(Table())[t])
    {
      if closed {
        return;
      }
      closed := true;
      for i := 0 to |entries|
        invariant Valid() && closed
        invariant forall e :: e in entries ==> e.View() == old(e.View()) || e.View() == CloseEntry(old(e.View()))
        invariant forall j :: 0 <= j < i ==> entries[j].View() == CloseEntry(old(entries[j].View()))
      {
        var entry := entries[i];
        assert byId[entry.threadId] == entry && entry in byId.Values;
        if entry.waiting && !entry.permit {
          entry.open := true;
        }
      }
    }
  }
}
