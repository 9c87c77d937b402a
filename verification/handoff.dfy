/** The ThreadHandoff park/wake protocol (retracemodule.c:1351-1619) as interleaved atomic steps:
    the critical section of `to`, the acquisition of a gate, the re-lock that ends a wait, and
    `close`. */
module HandoffProtocol {
  import opened Sets

  type ThreadId = nat

  /** `open` means the gate lock is free, so that an acquire on it succeeds at once. */
  datatype Entry = Entry(permit: bool, waiting: bool, open: bool)

  datatype Outcome = Returned | Raised | Parked

  /** A new entry is created with its gate already held. */
  function WithEntry(entries: map<ThreadId, Entry>, t: ThreadId): map<ThreadId, Entry> {
    if t in entries then entries else entries[t := Entry(false, false, false)]
  }

  function Wake(e: Entry): Entry {
    Entry(true, e.waiting, e.open || (!e.permit && e.waiting))
  }

  function CloseEntry(e: Entry): Entry {
    Entry(e.permit, e.waiting, e.open || (e.waiting && !e.permit))
  }

  /** The critical section of `to(target)` by thread t, up to its return or its first wait. */
  function ToSection(closed: bool, entries: map<ThreadId, Entry>, t: ThreadId, target: ThreadId)
    : (r: (map<ThreadId, Entry>, Outcome))
  {
    if closed then (entries, Raised)
    else if target == t then (entries, Returned)
    else
      var both := WithEntry(WithEntry(entries, target), t);
      var woken := both[target := Wake(both[target])];
      (woken[t := Entry(false, true, both[t].open)], Parked)
  }

  /** After the gate acquire, back under the lock: a timed-out wait raises, otherwise the wait ends
      when closed or permitted, and goes back to the gate if neither holds. */
  function FinishSection(closed: bool, e: Entry, acquired: bool): (Entry, Outcome) {
    if !acquired then (e.(waiting := false), Raised)
    else if closed || e.permit then (Entry(false, false, e.open), Returned)
    else (e, Parked)
  }

  /** Where a thread is: outside the protocol, blocked on its gate, or past it and about to re-lock
      (`acquired` is false after a timeout). */
  datatype Pc = Running | AtGate | Relocking(acquired: bool)

  /** `woken` records, for each thread, whether somebody granted it a permit since it last parked. */
  datatype State = State(
    timed: bool,
    closed: bool,
    entries: map<ThreadId, Entry>,
    pcs: map<ThreadId, Pc>,
    woken: set<ThreadId>)

  datatype Step =
    | To(t: ThreadId, target: ThreadId)
    | Acquire(t: ThreadId)
    | TimeOut(t: ThreadId)
    | Finish(t: ThreadId)
    | Close

  predicate Enabled(s: State, step: Step) {
    match step
    case To(t, target) => t in s.pcs && s.pcs[t].Running?
    case Acquire(t) => t in s.pcs && s.pcs[t].AtGate? && t in s.entries && s.entries[t].open
    case TimeOut(t) => s.timed && t in s.pcs && s.pcs[t].AtGate? && t in s.entries && !s.entries[t].open
    case Finish(t) => t in s.pcs && s.pcs[t].Relocking? && t in s.entries
    case Close => true
  }

  function PcAfter(outcome: Outcome): Pc {
    if outcome == Parked then AtGate else Running
  }

  function Next(s: State, step: Step): State
    requires Enabled(s, step)
  {
    match step
    case To(t, target) =>
      var (entries, outcome) := ToSection(s.closed, s.entries, t, target);
      if outcome == Parked then
        s.(entries := entries, pcs := s.pcs[t := AtGate], woken := (s.woken - {t}) + {target})
      else s
    case Acquire(t) =>
      s.(entries := s.entries[t := s.entries[t].(open := false)], pcs := s.pcs[t := Relocking(true)])
    case TimeOut(t) => s.(pcs := s.pcs[t := Relocking(false)])
    case Finish(t) =>
      var (e, outcome) := FinishSection(s.closed, s.entries[t], s.pcs[t].acquired);
      s.(entries := s.entries[t := e], pcs := s.pcs[t := PcAfter(outcome)])
    case Close =>
      if s.closed then s
      else s.(closed := true, entries := map t | t in s.entries :: CloseEntry(s.entries[t]))
  }

  /** A fresh handoff: nobody has used it, every participant runs. */
  predicate Initial(s: State) {
    && !s.closed && s.entries == map[] && s.woken == {}
    && forall t :: t in s.pcs ==> s.pcs[t] == Running
  }

  ghost predicate StepAt(states: seq<State>, steps: seq<Step>, i: nat)
    requires |states| == |steps| + 1 && i < |steps|
  {
    Enabled(states[i], steps[i]) && states[i + 1] == Next(states[i], steps[i])
  }

  ghost predicate IsRun(states: seq<State>, steps: seq<Step>) {
    |states| == |steps| + 1 && forall i :: 0 <= i < |steps| ==> StepAt(states, steps, i)
  }

  // ------------------------------------------------------------------ gates

  ghost predicate GateOk(s: State, t: ThreadId)
    requires t in s.pcs
  {
    match s.pcs[t]
    case Running => t in s.entries ==> !s.entries[t].waiting && !s.entries[t].open
    case AtGate => t in s.entries && s.entries[t].waiting && (s.entries[t].open <==> s.entries[t].permit || s.closed)
    case Relocking(acquired) =>
      t in s.entries && s.entries[t].waiting && !s.entries[t].open && (acquired <==> s.entries[t].permit || s.closed)
  }

  /** A parked thread's gate is open exactly when it holds a permit or the handoff is closed; every
      other gate is shut. */
  ghost predicate GateInv(s: State) {
    && (forall t :: t in s.pcs ==> GateOk(s, t))
    && (forall t :: t in s.entries && t !in s.pcs ==> !s.entries[t].waiting && !s.entries[t].open)
  }

  /** The step releases thread g's gate lock. */
  ghost predicate ReleasesGate(s: State, step: Step, g: ThreadId) {
    match step
    case To(t, target) => !s.closed && g == target != t && g in s.entries && !s.entries[g].permit && s.entries[g].waiting
    case Close => !s.closed && g in s.entries && s.entries[g].waiting && !s.entries[g].permit
    case _ => false
  }

  /** The step releases the gate of a thread that has timed out and not yet re-locked. */
  ghost predicate LateWake(s: State, step: Step) {
    exists t :: t in s.pcs && s.pcs[t] == Relocking(false) && ReleasesGate(s, step, t)
  }

  /** A step keeps the gates in order exactly when it is not a late wake. */
  lemma {:induction false} GateStep(s: State, step: Step)
    requires GateInv(s) && Enabled(s, step)
    ensures GateInv(Next(s, step)) <==> !LateWake(s, step)
  {
    var s' := Next(s, step);
    if t :| t in s.pcs && s.pcs[t] == Relocking(false) && ReleasesGate(s, step, t) {
      assert GateOk(s, t) && !GateOk(s', t);
    } else {
      forall t | t in s'.pcs
        ensures GateOk(s', t)
      {
        GateKept(s, step, t);
      }
    }
  }

  lemma {:induction false} GateKept(s: State, step: Step, t: ThreadId)
    requires GateInv(s) && Enabled(s, step) && !LateWake(s, step) && t in s.pcs
    ensures t in Next(s, step).pcs && GateOk(Next(s, step), t)
  {
    assert GateOk(s, t);
    assert s.pcs[t] == Relocking(false) ==> !ReleasesGate(s, step, t);
  }

  ghost predicate NoLateWake(states: seq<State>, steps: seq<Step>, n: nat)
    requires |states| == |steps| + 1 && n <= |steps|
  {
    forall k :: 0 <= k < n ==> !LateWake(states[k], steps[k])
  }

  ghost predicate GatesInOrder(states: seq<State>, n: nat)
    requires n < |states|
  {
    forall k :: 0 <= k <= n ==> GateInv(states[k])
  }

  /** In every run, timed or not, the gates are in order at states 0 to n exactly when none of the
      first n steps wakes a thread between its timeout and its re-lock. */
  lemma {:induction false} GateExact(states: seq<State>, steps: seq<Step>, n: nat)
    requires IsRun(states, steps) && Initial(states[0]) && n < |states|
    ensures GatesInOrder(states, n) <==> NoLateWake(states, steps, n)
  {
    if n > 0 {
      GateExact(states, steps, n - 1);
      assert StepAt(states, steps, n - 1);
      if GatesInOrder(states, n - 1) {
        GateStep(states[n - 1], steps[n - 1]);
      }
    }
  }

  lemma {:induction false} GateRun(states: seq<State>, steps: seq<Step>, i: nat)
    requires IsRun(states, steps) && i < |states| && Initial(states[0]) && NoLateWake(states, steps, i)
    ensures GateInv(states[i])
  {
    GateExact(states, steps, i);
  }

  ghost predicate NoTimeOut(steps: seq<Step>, n: nat)
    requires n <= |steps|
  {
    forall k :: 0 <= k < n ==> !steps[k].TimeOut?
  }

  ghost predicate NobodyTimedOut(s: State) {
    forall t :: t in s.pcs ==> s.pcs[t] != Relocking(false)
  }

  /** While no wait has timed out, and so always in a handoff without a timeout, no wake is late. */
  lemma {:induction false} NoTimeOutNoLateWake(states: seq<State>, steps: seq<Step>, n: nat)
    requires IsRun(states, steps) && n < |states| && Initial(states[0])
    requires !states[0].timed || NoTimeOut(steps, n)
    ensures NobodyTimedOut(states[n]) && NoLateWake(states, steps, n) && states[n].timed == states[0].timed
  {
    if n > 0 {
      NoTimeOutNoLateWake(states, steps, n - 1);
      assert StepAt(states, steps, n - 1);
      assert !LateWake(states[n - 1], steps[n - 1]);
    }
  }

  /** No gate is released twice: while no wake is late, a step only releases a gate that is held, and
      the gate is then open. */
  lemma {:induction false} NoDoubleRelease(states: seq<State>, steps: seq<Step>, i: nat, g: ThreadId)
    requires IsRun(states, steps) && i < |steps| && Initial(states[0]) && NoLateWake(states, steps, i)
    requires ReleasesGate(states[i], steps[i], g)
    ensures !states[i].entries[g].open
    ensures g in states[i + 1].entries && states[i + 1].entries[g].open
  {
    GateRun(states, steps, i);
    var s := states[i];
    assert g in s.pcs ==> GateOk(s, g);
    assert StepAt(states, steps, i);
  }

  /** A wake is never lost and never spurious: while no wake is late, a parked thread can pass its gate
      exactly when it has a permit or the handoff is closed, and once past the gate it always leaves
      the wait. */
  lemma {:induction false} WakeIsExact(states: seq<State>, steps: seq<Step>, i: nat, t: ThreadId)
    requires IsRun(states, steps) && i < |states| && Initial(states[0]) && NoLateWake(states, steps, i)
    requires t in states[i].pcs
    ensures var s := states[i];
            && (s.pcs[t].AtGate? ==> t in s.entries && (Enabled(s, Acquire(t)) <==> s.entries[t].permit || s.closed))
            && (s.pcs[t].Relocking? ==> Enabled(s, Finish(t)) && Next(s, Finish(t)).pcs[t] == Running
                                        && Answer(s, Finish(t)) == if s.pcs[t].acquired then Returned else Raised)
  {
    GateRun(states, steps, i);
    assert GateOk(states[i], t);
  }

  // ------------------------------------------------------------------ no wake is lost

  /** A thread that runs is not waiting, and a parked thread that may leave finds its gate open. */
  ghost predicate WaitOk(s: State, t: ThreadId)
    requires t in s.pcs
  {
    match s.pcs[t]
    case Running => t in s.entries ==> !s.entries[t].waiting
    case AtGate => t in s.entries && s.entries[t].waiting && (s.entries[t].permit || s.closed ==> s.entries[t].open)
    case Relocking(_) => t in s.entries && s.entries[t].waiting
  }

  ghost predicate WaitInv(s: State) {
    forall t :: t in s.pcs ==> WaitOk(s, t)
  }

  lemma {:induction false} WaitKept(s: State, step: Step, t: ThreadId)
    requires t in s.pcs && WaitOk(s, t) && Enabled(s, step)
    ensures t in Next(s, step).pcs && WaitOk(Next(s, step), t)
  {
  }

  lemma {:induction false} WaitRun(states: seq<State>, steps: seq<Step>, i: nat)
    requires IsRun(states, steps) && i < |states| && Initial(states[0])
    ensures WaitInv(states[i])
  {
    if i > 0 {
      WaitRun(states, steps, i - 1);
      assert StepAt(states, steps, i - 1);
      forall t | t in states[i].pcs
        ensures WaitOk(states[i], t)
      {
        NextPcs(states[i - 1], steps[i - 1]);
        WaitKept(states[i - 1], steps[i - 1], t);
      }
    }
  }

  /** No wake is lost in any run, timed or not, late wakes included: a parked thread that has been given
      a permit, or whose handoff is closed, can pass its gate. */
  lemma {:induction false} NoLostWake(states: seq<State>, steps: seq<Step>, i: nat, t: ThreadId)
    requires IsRun(states, steps) && i < |states| && Initial(states[0])
    requires t in states[i].pcs && states[i].pcs[t].AtGate?
    ensures t in states[i].entries && (states[i].closed || states[i].entries[t].permit ==> Enabled(states[i], Acquire(t)))
  {
    WaitRun(states, steps, i);
    assert WaitOk(states[i], t);
  }

  // ------------------------------------------------------------------ the baton

  ghost predicate Runnable(s: State, t: ThreadId) {
    t in s.entries ==> !s.entries[t].waiting || s.entries[t].permit
  }

  ghost function RunnableSet(s: State): set<ThreadId> {
    set t | t in s.pcs && Runnable(s, t)
  }

  /** The step ends a wait that has timed out and that nobody woke. */
  ghost predicate Expires(s: State, step: Step) {
    && step.Finish? && step.t in s.pcs && s.pcs[step.t] == Relocking(false)
    && step.t in s.entries && !s.entries[step.t].permit
  }

  /** Before close no step but the end of an expired wait makes more participants runnable, and that
      makes one; a transfer to a participant leaves one runnable; no other step changes who is. */
  lemma {:induction false} RunnableStep(s: State, step: Step)
    requires WaitInv(s) && !s.closed && Enabled(s, step) && !step.Close?
    ensures |RunnableSet(Next(s, step))| <= |RunnableSet(s)| + (if Expires(s, step) then 1 else 0)
    ensures step.To? && step.target in s.pcs ==> Runnable(Next(s, step), step.target) && RunnableSet(Next(s, step)) != {}
    ensures !step.To? ==> RunnableSet(Next(s, step)) == RunnableSet(s) + (if Expires(s, step) then {step.t} else {})
  {
    if step.To? {
      RunnableTransfer(s, step.t, step.target);
    } else {
      forall u | u in s.pcs
        ensures Runnable(Next(s, step), u) <==> Runnable(s, u) || (Expires(s, step) && u == step.t)
      {
        RunnableElse(s, step, u);
      }
      assert RunnableSet(Next(s, step)) == RunnableSet(s) + (if Expires(s, step) then {step.t} else {});
    }
  }

  lemma {:induction false} RunnableElse(s: State, step: Step, u: ThreadId)
    requires WaitInv(s) && !s.closed && Enabled(s, step) && !step.Close? && !step.To? && u in s.pcs
    ensures Runnable(Next(s, step), u) <==> Runnable(s, u) || (Expires(s, step) && u == step.t)
  {
    assert WaitOk(s, u);
  }

  lemma {:induction false} RunnableTransfer(s: State, t: ThreadId, target: ThreadId)
    requires WaitInv(s) && !s.closed && Enabled(s, To(t, target))
    ensures |RunnableSet(Next(s, To(t, target)))| <= |RunnableSet(s)|
    ensures target in s.pcs ==> target in RunnableSet(Next(s, To(t, target)))
  {
    assert WaitOk(s, t);
    var s', rest := Next(s, To(t, target)), RunnableSet(s) - {t};
    assert t in RunnableSet(s);
    if target != t {
      forall u | u in s.pcs
        ensures Runnable(s', u) <==> u == target || (u != t && Runnable(s, u))
      {
        TransferRunnable(s, t, target, u);
      }
      SubsetSize(RunnableSet(s'), rest + {target});
    }
  }

  /** A transfer makes its target runnable, parks its caller and leaves the others alone. */
  lemma {:induction false} TransferRunnable(s: State, t: ThreadId, target: ThreadId, u: ThreadId)
    requires !s.closed && Enabled(s, To(t, target)) && t != target
    ensures Runnable(Next(s, To(t, target)), u) <==> u == target || (u != t && Runnable(s, u))
  {
  }

  lemma {:induction false} NextPcs(s: State, step: Step)
    requires Enabled(s, step)
    ensures Next(s, step).pcs.Keys == s.pcs.Keys && Next(s, step).timed == s.timed
    ensures !step.Close? ==> Next(s, step).closed == s.closed
  {
  }

  ghost predicate TargetsParticipate(states: seq<State>, steps: seq<Step>, i: nat, j: nat)
    requires states != [] && j <= |steps|
  {
    forall k :: i <= k < j && steps[k].To? ==> steps[k].target in states[0].pcs
  }

  /** How many of the steps i to j end an expired wait. */
  ghost function Expired(states: seq<State>, steps: seq<Step>, i: nat, j: nat): nat
    requires |states| == |steps| + 1 && i <= j <= |steps|
    decreases j
  {
    if i == j then 0 else Expired(states, steps, i, j - 1) + (if Expires(states[j - 1], steps[j - 1]) then 1 else 0)
  }

  /** The baton, in any run that has not been closed, timed or not: from state i to state j the number
      of runnable participants grows by no more than the waits that expired with nobody waking them, so
      one runnable participant never becomes two any other way; and if every target is a participant
      it never drops to none, so nobody is stranded. */
  lemma {:induction false} Baton(states: seq<State>, steps: seq<Step>, i: nat, j: nat)
    requires IsRun(states, steps) && i <= j < |states| && Initial(states[0])
    requires forall k :: 0 <= k < j ==> !steps[k].Close?
    ensures |RunnableSet(states[j])| <= |RunnableSet(states[i])| + Expired(states, steps, i, j)
    ensures TargetsParticipate(states, steps, i, j) && RunnableSet(states[i]) != {} ==> RunnableSet(states[j]) != {}
    decreases j - i
  {
    if i < j {
      Baton(states, steps, i, j - 1);
      OpenRun(states, steps, j - 1);
      WaitRun(states, steps, j - 1);
      assert StepAt(states, steps, j - 1);
      RunnableStep(states[j - 1], steps[j - 1]);
    }
  }

  /** Without a timeout no wait expires: one baton stays one baton. */
  lemma {:induction false} NoneExpires(states: seq<State>, steps: seq<Step>, i: nat, j: nat)
    requires IsRun(states, steps) && i <= j < |states| && Initial(states[0])
    requires !states[0].timed || NoTimeOut(steps, j)
    ensures Expired(states, steps, i, j) == 0
    decreases j - i
  {
    if i < j {
      NoneExpires(states, steps, i, j - 1);
      NoTimeOutNoLateWake(states, steps, j - 1);
    }
  }

  lemma {:induction false} OpenRun(states: seq<State>, steps: seq<Step>, j: nat)
    requires IsRun(states, steps) && j < |states| && Initial(states[0])
    requires forall k :: 0 <= k < j ==> !steps[k].Close?
    ensures !states[j].closed && states[j].pcs.Keys == states[0].pcs.Keys
  {
    if j > 0 {
      OpenRun(states, steps, j - 1);
      assert StepAt(states, steps, j - 1);
      NextPcs(states[j - 1], steps[j - 1]);
    }
  }

  /** A runnable participant, and so the single holder of the baton, can always get back to running by
      its own steps. */
  lemma {:induction false} HolderMoves(states: seq<State>, steps: seq<Step>, i: nat, t: ThreadId)
    requires IsRun(states, steps) && i < |states|
    requires Initial(states[0]) && t in RunnableSet(states[i])
    ensures states[i].pcs[t].Running? || Enabled(states[i], Acquire(t)) || Enabled(states[i], Finish(t))
  {
    WaitRun(states, steps, i);
    assert WaitOk(states[i], t);
  }

  // ------------------------------------------------------------------ after close

  ghost function Blocked(s: State): set<ThreadId> {
    set t | t in s.pcs && s.pcs[t].AtGate?
  }

  ghost function Leaving(s: State): set<ThreadId> {
    set t | t in s.pcs && s.pcs[t].Relocking?
  }

  /** Steps still owed before every parked thread is out. */
  ghost function DrainMeasure(s: State): nat {
    2 * |Blocked(s)| + |Leaving(s)|
  }

  lemma {:induction false} AcquireDrains(s: State, t: ThreadId)
    requires WaitInv(s) && Enabled(s, Acquire(t))
    ensures var s' := Next(s, Acquire(t));
            t in Blocked(s) && Blocked(s') == Blocked(s) - {t} && Leaving(s') == Leaving(s) + {t}
  {
    assert WaitOk(s, t);
  }

  lemma {:induction false} FinishDrains(s: State, t: ThreadId)
    requires WaitInv(s) && s.closed && Enabled(s, Finish(t))
    ensures var s' := Next(s, Finish(t));
            t in Leaving(s) && Blocked(s') == Blocked(s) && Leaving(s') == Leaving(s) - {t}
  {
    assert WaitOk(s, t);
  }

  /** A closed handoff has opened every gate a thread waits at. */
  lemma {:induction false} NoTimeOutOnceClosed(s: State)
    requires WaitInv(s) && s.closed
    ensures forall t :: !Enabled(s, TimeOut(t))
  {
    forall t | t in s.pcs
      ensures !Enabled(s, TimeOut(t))
    {
      assert WaitOk(s, t);
    }
  }

  lemma {:induction false} AcquireMeasure(s: State, t: ThreadId)
    requires WaitInv(s) && Enabled(s, Acquire(t))
    ensures var s' := Next(s, Acquire(t));
            DrainMeasure(s') < DrainMeasure(s) && Blocked(s') + Leaving(s') <= Blocked(s) + Leaving(s)
  {
    AcquireDrains(s, t);
    assert t !in Leaving(s);
  }

  lemma {:induction false} FinishMeasure(s: State, t: ThreadId)
    requires WaitInv(s) && s.closed && Enabled(s, Finish(t))
    ensures var s' := Next(s, Finish(t));
            DrainMeasure(s') < DrainMeasure(s) && Blocked(s') + Leaving(s') <= Blocked(s) + Leaving(s)
  {
    FinishDrains(s, t);
  }

  lemma {:induction false} DrainStep(s: State, step: Step)
    requires WaitInv(s) && s.closed && Enabled(s, step)
    ensures var s' := Next(s, step);
            && s'.closed
            && Blocked(s') + Leaving(s') <= Blocked(s) + Leaving(s)
            && (step.To? || step.Close? ==> s' == s)
            && (step.Acquire? || step.Finish? ==> DrainMeasure(s') < DrainMeasure(s))
  {
    NoTimeOutOnceClosed(s);
    match step
    case Acquire(t) => AcquireMeasure(s, t);
    case Finish(t) => FinishMeasure(s, t);
    case _ =>
  }

  lemma {:induction false} ClosedEvent(states: seq<State>, steps: seq<Step>, k: nat)
    requires IsRun(states, steps) && k < |steps| && Initial(states[0]) && states[k].closed
    ensures states[k + 1].closed && Blocked(states[k + 1]) + Leaving(states[k + 1]) <= Blocked(states[k]) + Leaving(states[k])
    ensures DrainMeasure(states[k + 1]) + (if steps[k].Acquire? || steps[k].Finish? then 1 else 0) <= DrainMeasure(states[k])
  {
    WaitRun(states, steps, k);
    assert StepAt(states, steps, k);
    DrainStep(states[k], steps[k]);
  }

  /** In a closed state every thread still in the protocol can move. */
  lemma {:induction false} ClosedCanMove(s: State, t: ThreadId)
    requires WaitInv(s) && s.closed && t in Blocked(s) + Leaving(s)
    ensures Enabled(s, Acquire(t)) || Enabled(s, Finish(t))
  {
    assert WaitOk(s, t);
  }

  /** Once closed, whatever came before, every parked thread can move, each move brings the drain
      nearer, and no thread parks again: the moves left are bounded by the drain measure, at which
      point all are out. */
  lemma {:induction false} CloseDrains(states: seq<State>, steps: seq<Step>, i: nat, j: nat)
    requires IsRun(states, steps) && i <= j < |states|
    requires Initial(states[0]) && states[i].closed
    ensures states[j].closed
    ensures Moves(steps, i, j) + DrainMeasure(states[j]) <= DrainMeasure(states[i])
    ensures Blocked(states[j]) + Leaving(states[j]) <= Blocked(states[i]) + Leaving(states[i])
    ensures forall t :: t in Blocked(states[j]) + Leaving(states[j]) ==>
              Enabled(states[j], Acquire(t)) || Enabled(states[j], Finish(t))
    decreases j - i
  {
    if i < j {
      CloseDrains(states, steps, i, j - 1);
      ClosedEvent(states, steps, j - 1);
    }
    WaitRun(states, steps, j);
    forall t | t in Blocked(states[j]) + Leaving(states[j])
      ensures Enabled(states[j], Acquire(t)) || Enabled(states[j], Finish(t))
    {
      ClosedCanMove(states[j], t);
    }
  }

  /** Number of gate and re-lock steps among steps[i..j]. */
  ghost function Moves(steps: seq<Step>, i: nat, j: nat): nat
    requires i <= j <= |steps|
    decreases j
  {
    if i == j then 0
    else Moves(steps, i, j - 1) + (if steps[j - 1].Acquire? || steps[j - 1].Finish? then 1 else 0)
  }

  // ------------------------------------------------------------------ what a wait answers


  /** With or without timeouts, a parked thread holds a permit exactly when one was granted during that
      park. */
  ghost predicate WokenOk(s: State) {
    forall t :: t in s.pcs && !s.pcs[t].Running? ==> t in s.entries && (s.entries[t].permit <==> t in s.woken)
  }

  lemma {:induction false} WokenRun(states: seq<State>, steps: seq<Step>, i: nat)
    requires IsRun(states, steps) && i < |states| && Initial(states[0])
    ensures WokenOk(states[i])
  {
    if i > 0 {
      WokenRun(states, steps, i - 1);
      assert StepAt(states, steps, i - 1);
    }
  }

  /** What the caller of a step gets. */
  ghost function Answer(s: State, step: Step): Outcome
    requires Enabled(s, step) && (step.To? || step.Finish?)
  {
    if step.To? then ToSection(s.closed, s.entries, step.t, step.target).1
    else FinishSection(s.closed, s.entries[step.t], s.pcs[step.t].acquired).1
  }

  /** Somebody has closed the handoff. */
  ghost predicate ClosedBefore(steps: seq<Step>, i: nat)
    requires i <= |steps|
  {
    i > 0 && (steps[i - 1].Close? || ClosedBefore(steps, i - 1))
  }

  /** The step is a transfer that is carried out: it parks its caller and wakes its target. */
  ghost predicate Transfers(steps: seq<Step>, k: nat)
    requires k < |steps|
  {
    steps[k].To? && steps[k].target != steps[k].t && !ClosedBefore(steps, k)
  }

  /** Somebody has transferred to the thread since it last parked. */
  ghost predicate WokenBefore(steps: seq<Step>, i: nat, t: ThreadId)
    requires i <= |steps|
  {
    i > 0 && if Transfers(steps, i - 1) && steps[i - 1].target == t then true
             else if Transfers(steps, i - 1) && steps[i - 1].t == t then false
             else WokenBefore(steps, i - 1, t)
  }

  /** The last step of the thread was to pass its gate, or was to time out at it. */
  ghost predicate LastPassed(steps: seq<Step>, i: nat, t: ThreadId)
    requires i <= |steps|
  {
    i > 0 && if !steps[i - 1].Close? && steps[i - 1].t == t then steps[i - 1].Acquire? else LastPassed(steps, i - 1, t)
  }

  ghost predicate LastTimedOut(steps: seq<Step>, i: nat, t: ThreadId)
    requires i <= |steps|
  {
    i > 0 && if !steps[i - 1].Close? && steps[i - 1].t == t then steps[i - 1].TimeOut? else LastTimedOut(steps, i - 1, t)
  }

  lemma {:induction false} HistoryRun(states: seq<State>, steps: seq<Step>, i: nat, t: ThreadId)
    requires IsRun(states, steps) && i < |states| && Initial(states[0])
    ensures states[i].closed <==> ClosedBefore(steps, i)
    ensures t in states[i].woken <==> WokenBefore(steps, i, t)
    ensures t in states[i].pcs ==>
              && (states[i].pcs[t] == Relocking(true) <==> LastPassed(steps, i, t))
              && (states[i].pcs[t] == Relocking(false) <==> LastTimedOut(steps, i, t))
  {
    if i > 0 {
      HistoryRun(states, steps, i - 1, t);
      assert StepAt(states, steps, i - 1);
      HistoryStep(states[i - 1], steps[i - 1], t);
    }
  }

  lemma {:induction false} HistoryStep(s: State, step: Step, t: ThreadId)
    requires Enabled(s, step)
    ensures var s', carried := Next(s, step), step.To? && step.target != step.t && !s.closed;
            && (s'.closed <==> step.Close? || s.closed)
            && (t in s'.woken <==> if carried && step.target == t then true else if carried && step.t == t then false else t in s.woken)
            && (t in s'.pcs <==> t in s.pcs)
            && (t in s.pcs ==> var own := !step.Close? && step.t == t;
                  && (s'.pcs[t] == Relocking(true) <==> if own then step.Acquire? else s.pcs[t] == Relocking(true))
                  && (s'.pcs[t] == Relocking(false) <==> if own then step.TimeOut? else s.pcs[t] == Relocking(false)))
  {
  }

  /** The thread has a permit: it has been transferred to, and has neither parked since nor ended a wait
      whose gate it passed. A wait that times out leaves its permit. */
  ghost predicate PermitBefore(steps: seq<Step>, i: nat, t: ThreadId)
    requires i <= |steps|
  {
    i > 0 && if Transfers(steps, i - 1) && steps[i - 1].target == t then true
             else if Transfers(steps, i - 1) && steps[i - 1].t == t then false
             else if steps[i - 1] == Finish(t) && LastPassed(steps, i - 1, t) then false
             else PermitBefore(steps, i - 1, t)
  }

  /** The thread has taken part in a transfer. */
  ghost predicate NamedBefore(steps: seq<Step>, i: nat, t: ThreadId)
    requires i <= |steps|
  {
    i > 0 && ((Transfers(steps, i - 1) && t in {steps[i - 1].t, steps[i - 1].target}) || NamedBefore(steps, i - 1, t))
  }

  /** Entries and permits, of running threads too, are what the history says in every run. */
  lemma {:induction false} PermitExact(states: seq<State>, steps: seq<Step>, i: nat, t: ThreadId)
    requires IsRun(states, steps) && i < |states| && Initial(states[0])
    ensures t in states[i].entries <==> NamedBefore(steps, i, t)
    ensures t in states[i].entries && states[i].entries[t].permit <==> PermitBefore(steps, i, t)
  {
    if i > 0 {
      PermitExact(states, steps, i - 1, t);
      assert StepAt(states, steps, i - 1);
      HistoryRun(states, steps, i - 1, t);
      PermitStep(states[i - 1], steps[i - 1], t);
    }
  }

  lemma {:induction false} PermitStep(s: State, step: Step, t: ThreadId)
    requires Enabled(s, step)
    ensures var s', carried := Next(s, step), step.To? && step.target != step.t && !s.closed;
            var held := t in s.entries && s.entries[t].permit;
            && (t in s'.entries <==> (carried && t in {step.t, step.target}) || t in s.entries)
            && (t in s'.entries && s'.entries[t].permit
                <==> if carried && step.target == t then true
                     else if carried && step.t == t then false
                     else if step == Finish(t) && s.pcs[t] == Relocking(true) then false
                     else held)
  {
  }

  /** What every transfer answers, by what has happened before it: it raises exactly when the handoff has
      been closed, returns at once exactly when it is open and the target is the caller, and parks
      otherwise. */
  lemma {:induction false} TransferAnswers(states: seq<State>, steps: seq<Step>, i: nat)
    requires IsRun(states, steps) && i < |steps| && Initial(states[0]) && steps[i].To?
    ensures Enabled(states[i], steps[i])
    ensures var answer := Answer(states[i], steps[i]);
            && (answer == Raised <==> ClosedBefore(steps, i))
            && (answer == Returned <==> !ClosedBefore(steps, i) && steps[i].target == steps[i].t)
            && (answer == Parked <==> Transfers(steps, i))
  {
    assert StepAt(states, steps, i);
    HistoryRun(states, steps, i, steps[i].t);
  }

  /** What every wait answers, by what has happened before: it raises exactly when it timed out at its
      gate; it returns exactly when it passed the gate and has been woken during that park or the
      handoff has been closed; and it goes back to the gate exactly when it passed it for nothing. */
  lemma {:induction false} WaitAnswers(states: seq<State>, steps: seq<Step>, i: nat)
    requires IsRun(states, steps) && i < |steps| && Initial(states[0]) && steps[i].Finish?
    ensures Enabled(states[i], steps[i])
    ensures var t, answer := steps[i].t, Answer(states[i], steps[i]);
            && (answer == Raised <==> LastTimedOut(steps, i, t))
            && (answer == Returned <==> LastPassed(steps, i, t) && (WokenBefore(steps, i, t) || ClosedBefore(steps, i)))
            && (answer == Parked <==> LastPassed(steps, i, t) && !WokenBefore(steps, i, t) && !ClosedBefore(steps, i))
  {
    assert StepAt(states, steps, i);
    HistoryRun(states, steps, i, steps[i].t);
    WokenRun(states, steps, i);
  }

  /** A wait that returns normally, timeouts or not, was woken during that park or saw a close, and has
      left the wait; one that raises has left it too. */
  lemma {:induction false} NormalReturnWasWoken(states: seq<State>, steps: seq<Step>, i: nat)
    requires IsRun(states, steps) && i < |steps| && Initial(states[0]) && steps[i].Finish?
    requires Enabled(states[i], steps[i]) && Answer(states[i], steps[i]) != Parked
    ensures steps[i].t in states[i + 1].pcs && states[i + 1].pcs[steps[i].t] == Running
    ensures Answer(states[i], steps[i]) == Returned ==> states[i].closed || steps[i].t in states[i].woken
  {
    assert StepAt(states, steps, i);
    WaitAnswers(states, steps, i);
    HistoryRun(states, steps, i, steps[i].t);
  }

  // ------------------------------------------------------------------ with timeouts

  lemma {:induction false} Extend(states: seq<State>, steps: seq<Step>, step: Step) returns (states': seq<State>, steps': seq<Step>)
    requires IsRun(states, steps) && Enabled(states[|steps|], step)
    ensures IsRun(states', steps') && steps' == steps + [step]
    ensures states' == states + [Next(states[|steps|], step)]
  {
    states', steps' := states + [Next(states[|steps|], step)], steps + [step];
    forall k | 0 <= k < |steps'|
      ensures StepAt(states', steps', k)
    {
      assert k < |steps| ==> StepAt(states, steps, k);
    }
  }

  /** Thread 1 parks and times out; thread 2 wakes it before it re-locks. */
  lemma {:induction false} WakeBeforeRelock() returns (states: seq<State>, steps: seq<Step>)
    ensures IsRun(states, steps) && |steps| == 3 && Initial(states[0]) && states[0].timed
    ensures var s := states[3];
            && !s.closed && s.pcs == map[1 := Relocking(false), 2 := AtGate, 3 := Running]
            && 1 in s.entries && s.entries[1] == Entry(true, true, true) && 3 !in s.entries
  {
    var s0 := State(true, false, map[], map[1 := Running, 2 := Running, 3 := Running], {});
    states, steps := Extend([s0], [], To(1, 2));
    states, steps := Extend(states, steps, TimeOut(1));
    states, steps := Extend(states, steps, To(2, 1));
  }

  /** With a timeout the gate discipline fails: a wake that lands between a timed-out acquire and the
      re-lock leaves the gate open, and a later transfer releases it a second time. */
  lemma {:induction false} TimeoutBreaksGates() returns (states: seq<State>, steps: seq<Step>, i: nat, g: ThreadId)
    ensures IsRun(states, steps) && Initial(states[0]) && states[0].timed
    ensures i < |steps| && ReleasesGate(states[i], steps[i], g) && states[i].entries[g].open
  {
    states, steps := WakeBeforeRelock();
    states, steps := Extend(states, steps, Finish(1));
    states, steps := Extend(states, steps, To(1, 3));
    states, steps := Extend(states, steps, To(3, 1));
    i, g := 5, 1;
  }

  /** Permits are not durable. A transfer to a thread that is not parked leaves it a permit that its
      own next transfer throws away: it parks without one, whatever the permit said before. */
  lemma {:induction false} PermitOfRunningThreadIsDiscarded(s: State, t: ThreadId, target: ThreadId, other: ThreadId)
    requires GateInv(s) && !s.closed && t != target && other != target
    requires Enabled(s, To(t, target)) && target in s.pcs && s.pcs[target] == Running
    ensures var s' := Next(s, To(t, target));
            && s'.entries[target].permit && Enabled(s', To(target, other))
            && var s'' := Next(s', To(target, other));
            s''.pcs[target] == AtGate && !Runnable(s'', target) && !Enabled(s'', Acquire(target))
  {
    GateStep(s, To(t, target));
    var s' := Next(s, To(t, target));
    GateStep(s', To(target, other));
    assert GateOk(Next(s', To(target, other)), target);
  }

  /** A transfer to a parked thread does reach it: it can pass its gate and return. */
  lemma {:induction false} PermitOfParkedThreadIsUsed(s: State, t: ThreadId, target: ThreadId)
    requires WaitInv(s) && !s.closed && t != target
    requires Enabled(s, To(t, target)) && target in s.pcs && s.pcs[target] == AtGate
    ensures var s' := Next(s, To(t, target));
            && Enabled(s', Acquire(target))
            && var s'' := Next(s', Acquire(target));
            Enabled(s'', Finish(target)) && Next(s'', Finish(target)).pcs[target] == Running
  {
    assert WaitOk(s, target);
    WaitKept(s, To(t, target), target);
  }
}
