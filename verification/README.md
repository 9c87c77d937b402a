# Retrace: a verified model

Retrace is a CPython overlay that gives every point of a Python execution a coordinate: a vector of
(instruction, ordinal) pairs, one per active frame, kept separately for each coordinate space of each
thread. This project models its three stateful components in Dafny and proves what they are for.

**Identity hashes** (`robin_hood.dfy`, `identity_hash.dfy`, `pointer_hash.dfy`, on `bits.dfy` and `sets.dfy`). The
Robin Hood table with saturated probe-length tags is a class over two arrays. Its invariant (the
ordering of probe lengths, tags that agree with exact distances, distinct keys, the 5/8 bound) makes
every early exit of lookup and deletion safe, and a run of any operations is answered as a finite map
would answer it. On top of it, pointer hashes are stable. The mixer is a parameter.

**Coordinates.** `coordinate_machine.dfy` is the per-thread engine as a state machine over named
counters; `slot_discipline.dfy`, `coordinate_order.dfy`, `pending_jumps.dfy`, `nested_runs.dfy`,
`delta_stream.dfy`, `coordinate_hash.dfy` and `space_isolation.dfy` prove its invariants and its properties
over whole runs.
`space_ring.dfy`, `coordinate_thread.dfy`, `coordinate_walks.dfy`, `coordinate_queries.dfy` and
`coordinate_replay.dfy` are the same engine as objects written in place: the circular list of spaces,
frames and spaces with their fields, the hooks statement by statement, the loops from the current frame
to the oldest. Each method is proved to make the machine's transition, and `Replay` follows any run.
`space_callbacks.dfy` is the interpreter's callback list, updated in place, and `interpreter_runs.dfy` its
runs: checks, turns, arming, clearing and registration in any order. On them `thread_switch.dfy` proves
which thread switches are reported, and `call_at.dfy` and `call_at_runs.dfy` when call_at targets fire.

**ThreadHandoff.** `handoff.dfy` is the park/wake protocol as interleaved atomic sections;
`handoff_object.dfy` is the object whose methods are those sections.

Where the code and the prose of the repository differ, the code is followed. Frame pairs are
(instruction, ordinal), not the order `README.md:88` gives. A permit given to a running thread is
discarded at its next transfer, so tokens are not durable. There is no `start()`.

Six properties one might expect are false of the code. Each has a concrete run showing it and a theorem
saying exactly when it holds.

- Coordinates go forward. A bare nested `run_in_space`, entered inside a scope of its own space with no
  frame of that space between, can rewind the stored root count (`NestedRuns.NestedRootRewinds`) and the
  boundaries themselves (`NestedRuns.NestedBoundaryRewinds`). Positions never go back exactly when no
  scope opened or closed rewinds (`CoordinateOrder.RunForwardExact`); which brackets do is
  `NestedRuns.BracketForwardExact` and `NestedRuns.StoredRootExact`.
- Coordinates are right wherever they are read. A jump moves the bias before it moves the frame, and code can
  run in between, such as a monitoring callback for a handled exception. It may read a frame short of its
  position or past it, so that a boundary reads less than an earlier one (`PendingJumps.JumpWindowRewinds`)
  and a delta counts on words the consumer no longer holds (`PendingJumps.StaleDelta`). Reading is right
  exactly when every frame that has a jump pending reads its own position (`CoordinateOrder.ReadingExact`,
  `PendingJumps.PendingReading`). Deltas are right as long as they are asked for under the condition of
  `DeltaStream.DeltaFaithful`, and the first one asked for otherwise is right exactly when what it counts beyond
  the frames active since the last one is in the list (`DeltaStream.DeltaExact`). The order of positions, the slots, the ordinals and the isolation of spaces hold
  all the same.
- Different coordinates feed the coordinate hash different words. They do under one root count
  (`CoordinateHash.WordsTellApart`), but a root count is fed like a frame at instruction zero, and can be
  mistaken for one (`CoordinateHash.RootTwin`); `CoordinateHash.SameWords` says exactly when.
- A call_at target fires at the first boundary that reaches it. Another target that fires there takes its
  turn (`CallAt.SecondTargetDelayed`). It fires there exactly when no target ahead of it does
  (`CallAt.FiresInTurn`).
- Every thread switch is reported. One is missed when a thread enters a space in the middle of its slice
  (`ThreadSwitch.MidSliceSwitchMissed`). Reporting is exact exactly when every change of thread begins a
  slice with the cursor set (`ThreadSwitch.ReportExact`).
- A gate is open only for a parked thread that may pass. A wake that lands between a timeout and the
  re-lock breaks this, and lets a gate be released while open (`HandoffProtocol.TimeoutBreaksGates`). The
  gates are in order exactly while there is no such wake (`HandoffProtocol.GateExact`), and until then no
  gate is released twice. The baton, the delivery of wakes and the draining after close hold in every run.

Assumptions of the coordinate machine, which its `Enabled` predicate states: a frame begins instructions
at increasing offsets except after a jump, and at a jump's target right after it; a frame that has jumped
neither jumps again nor returns before it begins at the target, which only an exception raised in between
would make it do (`PendingJumps.SecondJumpExact` says what a second jump does); a frame that has never begun
an instruction enters nothing; a frame taken for a new call is freshly initialised. Everything else is free:
an exception thrown into a suspended frame is a resumption and then a jump from the instruction it was
suspended at, and calls, resumptions, scopes and queries may come before a resumed frame's first boundary and
between a jump and its target.

## Model

| member | source | states |
|---|---|---|
| Bits.MaskedDifference | cpython-overlay/Include/internal/pycore_retrace_identity_hash.h:85-93 | Subtracting two indices with 64-bit wrap-around and masking by a power of two minus one is the forward cyclic distance between them |
| TaggedSlot.Entry | cpython-overlay/Include/internal/pycore_retrace_identity_hash.h:68-75 | Packing an 8-aligned key with a probe length loses nothing: the key comes back whole and the tag is the length saturated at 7 |
| TaggedSlot.EntryMatches | cpython-overlay/Include/internal/pycore_retrace_identity_hash.h:95-99 | The xor test accepts exactly the entries that carry the key, whatever their tag |
| TaggedSlot.HomeIsModulo | cpython-overlay/Include/internal/pycore_retrace_identity_hash.h:77-83 | With a power-of-two capacity the masked mixer value is the mixer value modulo the capacity |
| TaggedSlot.ExactPsl | cpython-overlay/Include/internal/pycore_retrace_identity_hash.h:85-93 | The recomputed probe length is the true cyclic distance from the key's home, for any mixer |
| RobinHood.ProbeChain | cpython-overlay/Include/internal/pycore_retrace_identity_hash.h:248-272 | Every slot between a stored key's home and its slot is occupied by an entry at least as far from its own home as the key is at that point |
| RobinHood.AbsentWhenRicher | cpython-overlay/Include/internal/pycore_retrace_identity_hash.h:248-272 | If a probe has met an entry closer to home than the key would be, the key is nowhere in the table: the early exit misses nothing |
| RobinHood.ProbeMiss | cpython-overlay/Include/internal/pycore_retrace_identity_hash.h:307-334 | An empty slot or a closer entry on the probe path means the finite map has no such key |
| RobinHood.WriteStep | cpython-overlay/Include/internal/pycore_retrace_identity_hash.h:160-192 | Writing the carried key over an empty slot or a closer entry keeps the ordering, the tags and the distinctness of keys |
| RobinHood.DisplaceStep | cpython-overlay/Include/internal/pycore_retrace_identity_hash.h:174-190 | After a displacement the displaced key is carried on from the next slot under the same invariant, in the table as it now is |
| RobinHood.WriteHolds | cpython-overlay/Include/internal/pycore_retrace_identity_hash.h:160-192 | Storing the carried pair in an empty slot adds exactly that pair to the map the table stands for |
| RobinHood.SwapPairs | cpython-overlay/Include/internal/pycore_retrace_identity_hash.h:174-190 | Swapping the carried pair with a stored one conserves the pairs of the table together with the carried pair |
| RobinHood.InsertDisplace | cpython-overlay/Include/internal/pycore_retrace_identity_hash.h:160-192 | One displacement: the table's pairs plus the carried pair are the same before and after, and the probe goes on from the next slot |
| RobinHood.InsertAtEmpty | cpython-overlay/Include/internal/pycore_retrace_identity_hash.h:160-192 | The last step of an insertion leaves a well-formed table holding the target map |
| RobinHood.FindEmpty | cpython-overlay/Include/internal/pycore_retrace_identity_hash.h:160-192 | A well-formed table with fewer pairs than slots has an empty slot, the measure of every probing loop |
| RobinHood.VacateHolds | cpython-overlay/Include/internal/pycore_retrace_identity_hash.h:336-362 | Emptying the slot of the chosen key removes exactly its pair from the map |
| RobinHood.ShiftStep | cpython-overlay/Include/internal/pycore_retrace_identity_hash.h:336-362 | Moving the next entry back into the hole, with its tag reduced or recomputed when saturated, restores the invariant up to the new hole |
| RobinHood.ShiftHolds | cpython-overlay/Include/internal/pycore_retrace_identity_hash.h:336-362 | A back-shift keeps every pair |
| RobinHood.ShiftDone | cpython-overlay/Include/internal/pycore_retrace_identity_hash.h:336-362 | When the next slot is empty or its entry is at home, the table with the hole emptied is well formed again |
| IdentityHash.ResizeAt | cpython-overlay/Include/internal/pycore_retrace_identity_hash.h:41-45 | The 5/8 limit does not overflow for any capacity that passes the allocation checks, and always leaves an empty slot |
| IdentityHash.IdentityHashTable.InsertKnownRoom | cpython-overlay/Include/internal/pycore_retrace_identity_hash.h:151-193 | Insertion makes the map contain the new pair and changes no other; the count follows; the loop ends at the first empty slot |
| IdentityHash.IdentityHashTable.Probe | cpython-overlay/Include/internal/pycore_retrace_identity_hash.h:248-272 | The probe finds the key exactly when the map has it, and the slot it stops at holds the value |
| IdentityHash.IdentityHashTable.Delete | cpython-overlay/Include/internal/pycore_retrace_identity_hash.h:298-363 | Deletion removes exactly the key, and reports whether it was there |
| IdentityHash.IdentityHashTable.BackShift | cpython-overlay/Include/internal/pycore_retrace_identity_hash.h:336-362 | After the back-shift the table is well formed and stands for the map without the deleted key |
| IdentityHash.NewIdentityHashTable | cpython-overlay/Include/internal/pycore_retrace_identity_hash.h:101-138 | The capacity is the least power of two that is at least the request and 16; refusal happens only without memory or for a request beyond 2^60 |
| IdentityHash.CopyEntries | cpython-overlay/Include/internal/pycore_retrace_identity_hash.h:215-228 | Re-inserting slot by slot into a table of at least twice the capacity reproduces the whole map, with room for one more |
| IdentityHash.Interpreter.Grow | cpython-overlay/Include/internal/pycore_retrace_identity_hash.h:195-230 | Growth keeps the map; a failed growth leaves the old table in place, untouched |
| IdentityHash.LookupIdentityHash | cpython-overlay/Include/internal/pycore_retrace_identity_hash.h:232-273 | Lookup answers what the finite map answers |
| IdentityHash.SetIdentityHash | cpython-overlay/Include/internal/pycore_retrace_identity_hash.h:275-296 | A successful set updates the map at one key; a refused one changes nothing; below the largest capacity only missing memory refuses |
| IdentityHash.DeleteIdentityHash | cpython-overlay/Include/internal/pycore_retrace_identity_hash.h:298-363 | Deletion at the interpreter's level removes the key from the map and says whether it was there |
| IdentityHash.RunTable | cpython-overlay/Include/internal/pycore_retrace_identity_hash.h:151-363 | Any sequence of sets, lookups and deletes on a fresh table, with any number of growths and refusals, is answered as a finite map would answer it |
| PointerHash.HashPointer | cpython-overlay/Include/internal/pycore_retrace.h:805-833 | A cached pointer gets its cached hash; otherwise the normalised coordinate hash under a visible frame or the normalised address hash; unaligned pointers are never cached; -1 is never returned |
| PointerHash.DeleteObjectIdentityHash | cpython-overlay/Include/internal/pycore_retrace.h:835-845 | The death of an object removes its entry and no other |
| PointerHash.CachedHashStays | cpython-overlay/Include/internal/pycore_retrace.h:805-845 | Once cached, a pointer's hash stays in the cache with the same value until that object dies, whatever else is hashed, grown or deleted |
| PointerHash.SameObjectSameHash | cpython-overlay/Include/internal/pycore_retrace.h:805-845 | Two hashes of the same pointer with no death of it between them are equal, if memory sufficed for the first |
| PointerHash.RunHashes | cpython-overlay/Include/internal/pycore_retrace.h:805-845 | A run of hash and death events on an interpreter is such a cache run |
| SlotDiscipline.StepInv | cpython-overlay/Include/internal/pycore_retrace.h:855-970 | Every hook keeps the invariant: each saved pointer and saved space is the one implied by the control stack below it |
| SlotDiscipline.ThreadSlot | cpython-overlay/Include/internal/pycore_retrace.h:855-970 | In every reachable state the thread's ordinal pointer is the slot of the nearest active frame of the current space, else the local root of the open scope of that space, else the root of the base space with nothing active |
| SlotDiscipline.SlotMeaning | cpython-overlay/Modules/retracemodule.c:794-859 | The pointer a control stack implies is live and belongs to its current space |
| SlotDiscipline.SavedSlotLive | cpython-overlay/Include/internal/pycore_retrace.h:936-970 | Every pointer saved on an active frame refers to a lower active frame of the same space, to a lower open scope of it, or to the base root |
| SlotDiscipline.LeaveCounts | cpython-overlay/Include/internal/pycore_retrace.h:936-970 | A leaving frame counts once, on the nearest active frame of its own space, else on the scope it runs under or the base root; no other counter moves |
| SlotDiscipline.OrdinalCounts | cpython-overlay/Include/internal/pycore_retrace.h:889-970 | A frame's ordinal is the number of direct activations of its own space finished since its instruction began, in any run |
| SlotDiscipline.RepeatedHooks | cpython-overlay/Include/internal/pycore_retrace.h:855-970 | A repeated leave and a repeated activation change nothing |
| SlotDiscipline.TakenOver | cpython-overlay/Include/internal/pycore_retrace.h:855-887 | A frame left active by another thread keeps nothing of its coordinates when it is activated here or seen to leave |
| CoordinateOrder.StepPosition | cpython-overlay/Include/internal/pycore_retrace.h:145-160 | An event moves the rooted position of a space backwards exactly when it opens or closes a scope that rewinds it; an instruction boundary of the space moves it strictly forwards |
| CoordinateOrder.RunPosition | cpython-overlay/Include/internal/pycore_retrace.h:855-970 | Over any part of a run in which no scope rewinds the space its rooted position never goes back |
| CoordinateOrder.RunForwardExact | cpython-overlay/Modules/retracemodule.c:794-859 | Over any part of any run, bare nested runs included, the rooted position of a space never goes back if and only if no scope opened there starts below the root count in force and none closed there has counted past that of the scope around it |
| CoordinateOrder.PlainRunsGoForward | cpython-overlay/Modules/retracemodule.c:794-859 | A run in which the space is never entered bare inside a local scope of its own has no rewinding scope at all |
| CoordinateOrder.ReadingExact | cpython-overlay/Modules/retracemodule.c:431-533 | In any state what coordinates() returns, with the root count in front, is the rooted position of the space if and only if every active frame of it reads its own position |
| CoordinateOrder.BoundaryIsLegible | cpython-overlay/Modules/retracemodule.c:431-533 | When frames and scopes are entered only from the middle of an instruction, every boundary reads the positions of all its frames |
| CoordinateOrder.BoundariesIncrease | cpython-overlay/Include/internal/pycore_retrace.h:145-160 | Across calls, returns, jumps either way, repeated callbacks, generators suspended, resumed and thrown into, and scopes: the rooted vector at a boundary of a space is strictly above the one read at any earlier point in the order call_at uses, unless a bare nested run rewinds the space in between or one of the two is read with a frame in the middle of a jump; within one root count the plain vectors increase |
| CoordinateOrder.PlainBoundariesIncrease | cpython-overlay/Include/internal/pycore_retrace.h:145-160 | Entered only from the middle of instructions and without bare nesting, a space has strictly increasing boundaries with no condition on what is read |
| CoordinateOrder.LeavePosition | cpython-overlay/Include/internal/pycore_retrace.h:936-970 | A returning frame's count outweighs everything it contributed itself: the position of its space goes strictly forward, and no other space's moves |
| CoordinateOrder.JumpPosition | cpython-overlay/Include/internal/pycore_retrace.h:145-160 | A jump, forward or backward, leaves the position of the frame unchanged until the target begins |
| PendingJumps.PendingReading | cpython-overlay/Include/internal/pycore_retrace.h:145-160 | A frame that has jumped still reads the position it jumped from if and only if the target is the next instruction or both read as zero |
| PendingJumps.SecondJumpExact | cpython-overlay/Include/internal/pycore_retrace.h:145-160 | A second jump from the same instruction does not take the frame back if and only if the target given up was not past the next instruction |
| PendingJumps.JumpWindowRewinds | patches/3.13/0001-Add-Retrace-coordinate-bias-to-interpreter-frames.patch:75-78 | A concrete run in which a frame called between a jump and its target begins at [0, 0, 0, 0] after a boundary at [10, 0] |
| PendingJumps.StaleDelta | patches/3.13/0001-Add-Retrace-coordinate-bias-to-interpreter-frames.patch:75-78 | A concrete run in which a delta asked for between a jump and its target counts four common words for a consumer that holds two |
| NestedRuns.ScopeCounts | cpython-overlay/Modules/retracemodule.c:794-859 | The local root of an open scope is its start plus the activations finished directly under it, whatever else its body does |
| NestedRuns.BracketForwardExact | cpython-overlay/Modules/retracemodule.c:794-859 | Neither the opening nor the closing of a bracketed run rewinds its space if and only if a frame of the space is active, or no local scope of it is open, or the stored count equals the count in force and the body finishes no direct activation |
| NestedRuns.StoredRootExact | cpython-overlay/Modules/retracemodule.c:842-859 | Closing a bracket writes its start plus the activations finished directly under it, at least one; the stored root count drops exactly when runs nested in it had stored more |
| NestedRuns.BareRunCounts | cpython-overlay/Modules/retracemodule.c:794-859 | A run_in_space call whose body enters no frame adds one to the stored root count, on a first use of the space too, and restores the rest of the thread |
| NestedRuns.NestedRootRewinds | cpython-overlay/Modules/retracemodule.c:842-859 | A concrete nested run after which the stored root count of the space has gone from 2 back to 1 |
| NestedRuns.NestedBoundaryRewinds | cpython-overlay/Modules/retracemodule.c:794-859 | A concrete run with a bare nested scope in which a frame begins at [0, 5, 0] and later at the smaller [0, 1, 0] |
| DeltaStream.QueryRepairs | cpython-overlay/Modules/retracemodule.c:200-272 | Truncating to the count and appending the suffix turns the consumer's list into the vector, when no frame of the space reads ahead of itself in the middle of a jump and the first one activated since the last query is settled |
| DeltaStream.QueryExact | cpython-overlay/Modules/retracemodule.c:200-272 | In every state the invariant allows the answer repairs the list if and only if the words counted past the frames active since the last query are in the list |
| DeltaStream.CommonWordsMatch | cpython-overlay/Modules/retracemodule.c:213-238 | Every word counted as common is the word remembered for it, and counting stops no later than a frame with nothing remembered |
| DeltaStream.CommonExact | cpython-overlay/Modules/retracemodule.c:213-238 | The common count is the number of words before the first that is not the word last emitted for it in the space: no less and no more |
| DeltaStream.AnswerExact | cpython-overlay/Modules/retracemodule.c:200-272 | A space never run in gets no delta; otherwise the answer is everything past the first word not held, and everything when the root count is not that of the last query |
| DeltaStream.RepeatedQuery | cpython-overlay/Modules/retracemodule.c:200-272 | A query right after another counts every word, sends none and remembers nothing new |
| SpaceIsolation.NothingNew | cpython-overlay/Modules/retracemodule.c:200-272 | In any run a query of a space that nothing has stepped since the last one counts every word and sends none |
| DeltaStream.EventDelta | cpython-overlay/Modules/retracemodule.c:200-272 | Every event, a query at a bad moment excepted, keeps the relation between the remembered words, the consumer's list and the frames active since the last query |
| DeltaStream.DeltaFaithful | cpython-overlay/Modules/retracemodule.c:200-272 | After every query of any run whose queries are asked at such moments the consumer's list is the space's coordinate vector, though generator frames come and go, are thrown into and are run by other threads, and other spaces are queried |
| DeltaStream.DeltaExact | cpython-overlay/Modules/retracemodule.c:200-272 | For the first query of a run asked at any other moment the list is right if and only if what is counted past the frames active since the last query agrees with it |
| DeltaStream.PlainDelta | cpython-overlay/Modules/retracemodule.c:200-272 | When frames, scopes and queries come only from the middle of instructions every answer is exact |
| CoordinateHash.PairFold | cpython-overlay/Include/internal/pycore_retrace.h:320-336 | Mixing in a pair folds the mixer over the masked instruction and then, if the ordinal is not zero, over the ordinal with the top bit set, for any mixer |
| CoordinateHash.HashIsFold | cpython-overlay/Include/internal/pycore_retrace.h:422-456 | For any mixer the recursive hash is the left fold of the pair mixer over the very vector coordinates() returns, seeded by the root hash and root ordinal, and never the sentinel |
| CoordinateHash.HashIsWords | cpython-overlay/Include/internal/pycore_retrace.h:422-456 | For any mixer the recursive hash is the plain left fold of the mixer over the words of the root ordinal and of the vector coordinates() returns |
| CoordinateHash.WordsTellApart | cpython-overlay/Include/internal/pycore_retrace.h:320-336 | Vectors of words below 2^63 that feed the mixer the same words are equal |
| CoordinateHash.SameWords | cpython-overlay/Include/internal/pycore_retrace.h:422-456 | Two states of a space feed the mixer the same words if and only if they read the same, or one has no root count and its oldest frame, at instruction zero, has the ordinal that is the root count of the other |
| CoordinateHash.RootTwin | cpython-overlay/Include/internal/pycore_retrace.h:422-456 | A root count of three with nothing active and a frame at (0, 3) feed the mixer the same words |
| SpaceIsolation.StepKeepsSpace | cpython-overlay/Include/internal/pycore_retrace.h:855-970 | An event that steps no frame and no scope of a space leaves that space's record, active frames and their words unchanged |
| SpaceIsolation.SameReadings | cpython-overlay/Modules/retracemodule.c:200-272 | A space left alone reads the same: coordinates, delta and hash |
| SpaceIsolation.BracketIsolates | cpython-overlay/Modules/retracemodule.c:794-859 | A bracketed run restores the stack, the space and the ordinal pointer, leaves every space its body does not step exactly as it was, and raises the root count of its own space when no frame of it was active |
| SpaceIsolation.DepthCounts | cpython-overlay/Include/internal/pycore_retrace.h:855-970 | Unless its counter saturates, the depth of a space is the number of its active frames, in any run |
| SpaceCallbacks.CompareTarget | cpython-overlay/Modules/retracemodule.c:338-385 | The comparison's sign is the lexicographic order in which a proper prefix is smaller |
| SpaceCallbacks.Interpreter.SetSwitchCallback | cpython-overlay/Modules/retracemodule.c:679-725 | A turn in the space finds a callback afterwards exactly when one was installed, with the registering thread as its cursor if it is visible there; clearing prunes a node with no other use; the armed flag follows |
| SpaceCallbacks.Interpreter.DeliverSwitch | cpython-overlay/Modules/retracemodule.c:1783-1844 | The first registered node of the frame's space is the only one treated; it reports a switch only from a different known thread, and its cursor moves |
| SpaceCallbacks.Interpreter.ClearCallAt | cpython-overlay/Modules/retracemodule.c:300-336 | Clearing disarms the target of one space and prunes its node when nothing else uses it |
| SpaceCallbacks.Interpreter.CheckSlot | cpython-overlay/Modules/retracemodule.c:1846-1905 | One target at a boundary: another thread's or one still ahead is kept, one passed without an overshoot callback is dropped, and otherwise the target is cleared before its callback runs |
| SpaceCallbacks.Interpreter.CheckCallAt | cpython-overlay/Modules/retracemodule.c:1907-1966 | The pass over all targets is the sweep: root first, list order after, ending at the first delivery; every callback that runs finds its own target disarmed |
| SpaceCallbacks.Interpreter.CallAt | cpython-overlay/Modules/retracemodule.c:1200-1349 | The target replaces the one of its space exactly when the request is well formed, its thread known and a check at the present reading would not drop it; otherwise the errors come in their order and nothing changes |
| SpaceCallbacks.AdmissionExact | cpython-overlay/Modules/retracemodule.c:1231-1311 | When a request is admitted and when each refusal is given; one is refused as past exactly when a check at that reading would drop it unheard |
| CallAt.AdmittedIsHeard | cpython-overlay/Modules/retracemodule.c:1305-1346 | A target just admitted, checked at the reading it was admitted at, stays armed or is delivered |
| SpaceCallbacks.Interpreter.BeginInstruction | cpython-overlay/Include/internal/pycore_retrace.h:889-934 | The interpreter part of a boundary: targets first, at a visible frame only, then, unless a callback raised, the thread switch and the last-thread pointer |
| SpaceCallbacks.ClearedWatch | cpython-overlay/Modules/retracemodule.c:311-325 | Clearing one space's target changes no other space's target, whatever node it prunes |
| InterpreterRuns.EventKeepsOrder | cpython-overlay/Modules/retracemodule.c:640-725 | Checks, turns, arming, clearing and registration keep the shared list in order: one node a space, none for the root's target, none that nothing uses |
| InterpreterRuns.Perform | cpython-overlay/Modules/retracemodule.c:1783-1966 | Every event of an interpreter's run is what the interpreter does, callbacks delivered included |
| InterpreterRuns.Boundary | cpython-overlay/Include/internal/pycore_retrace.h:889-934 | A whole boundary is a check and then a turn, the turn dropped when the callback raised and the check dropped at a hidden frame |
| CallAt.ArmingIsolated | cpython-overlay/Modules/retracemodule.c:1313-1346 | Arming and clearing touch the target of their own space only, even when the node is pruned and put back at the head |
| CallAt.CheckedMeaning | cpython-overlay/Modules/retracemodule.c:1907-1966 | A check settles a target exactly when no target ahead of it fires and it is not still ahead; it delivers for a space exactly when that space's target fires |
| CallAt.CallAtExact | cpython-overlay/Modules/retracemodule.c:1846-1966 | In any run of the interpreter, with other targets armed and cleared and callbacks coming and going at any point: the hit callback runs exactly at the first consultation not below the target if it reads the target, the overshoot callback exactly there if it reads past it and one was given |
| CallAt.FiresOnce | cpython-overlay/Modules/retracemodule.c:1846-1966 | An armed target fires at most once, whatever is armed, cleared or registered elsewhere |
| CallAt.HitIffReached | cpython-overlay/Modules/retracemodule.c:1846-1966 | While coordinates go forward: a hit runs if and only if some consultation reads the target, an overshoot if and only if one was given, some consultation reads past the target and none reads it |
| CallAt.NeverPassedOver | cpython-overlay/Modules/retracemodule.c:1907-1966 | The root's target, and any target whose thread has no other, is consulted at every check of its thread |
| CallAt.HitIffRead | cpython-overlay/Modules/retracemodule.c:1846-1966 | For such a target, while coordinates go forward, the hit runs if and only if some check of the thread reads the target, the overshoot if and only if one was given and the thread goes past the target without reading it |
| CallAt.FiresInTurn | cpython-overlay/Modules/retracemodule.c:1846-1966 | At the first check of its thread not below it a target is settled, by hit, overshoot or in silence as it was armed, if and only if no target ahead of it fires there |
| CallAt.SecondTargetDelayed | cpython-overlay/Modules/retracemodule.c:1907-1966 | A concrete run in which two targets are reached at one boundary and the second, read exactly, is later reported as overshot |
| CallAtRuns.ReadingsForward | cpython-overlay/Include/internal/pycore_retrace.h:145-160 | Under one root count, readings of a space at any points of a thread's run with no frame read in the middle of a jump never go back; a space once seen stays seen |
| CallAtRuns.HitIffReachedOnRun | cpython-overlay/Modules/retracemodule.c:1846-1966 | On any run of the coordinate machine within one root activation in which no scope rewinds the space, the hit and overshoot conditions of HitIffReached hold |
| CallAtRuns.HitIffReadOnRun | cpython-overlay/Modules/retracemodule.c:1846-1966 | On such a run the root's target, or a thread's only one, is hit if and only if some check of the thread reads it |
| CallAtRuns.HitIffBoundary | cpython-overlay/Modules/retracemodule.c:1846-1966 | With every later boundary of the thread checked, such a target is hit if and only if some later boundary reads it, and overshot if and only if an overshoot callback was given and the thread goes past it without reading it |
| ThreadSwitch.CallbacksChain | cpython-overlay/Modules/retracemodule.c:1783-1844 | In any run of the interpreter successive callbacks of a space chain: next of one is previous of the following, and none reports a switch to itself |
| ThreadSwitch.ReportExact | cpython-overlay/Modules/retracemodule.c:1783-1844 | Every thread switch of a space is reported and nothing else is, in any run and from any start, if and only if each change of thread in the space begins a slice, with the space's cursor set by then |
| ThreadSwitch.ReportExactOnceSet | cpython-overlay/Include/internal/pycore_retrace.h:924-931 | From a cursor that is set, reporting is exact if and only if no thread arrives in the space in the middle of its own slice |
| ThreadSwitch.CursorExact | cpython-overlay/Include/internal/pycore_retrace.h:924-931 | The cursor of a space is at every point the last thread that ran in it if and only if no thread has arrived in the space in the middle of its own slice |
| ThreadSwitch.CallbacksAreAdjacentChanges | cpython-overlay/Modules/retracemodule.c:1783-1844 | When every thread keeps to one space the callbacks of a space are exactly the adjacent thread changes in that space's own subsequence of turns |
| ThreadSwitch.MidSliceSwitchMissed | cpython-overlay/Include/internal/pycore_retrace.h:924-931 | A concrete run in which a thread enters a space mid-slice and the switch is never reported |
| ThreadSwitch.SweepKeepsCursors | cpython-overlay/Modules/retracemodule.c:640-657 | A call_at pass over the shared list leaves every thread-switch callback and cursor in place, whatever it prunes |
| ThreadSwitch.InstallSets | cpython-overlay/Modules/retracemodule.c:709-716 | Installing a callback sets its cursor to the thread visible in the space, if any, whatever the node held |
| ThreadSwitch.SilentOnceCleared | cpython-overlay/Modules/retracemodule.c:679-725 | Once its callback is cleared no switch of a space is reported until one is installed, in any run |
| ThreadSwitch.FirstReport | cpython-overlay/Modules/retracemodule.c:679-725 | After an installation the first slice begun in the space is reported as a switch from the thread that was visible there, if there was one and it is another, and nothing is reported before |
| SpaceRing.Spaces.Find | cpython-overlay/Include/internal/pycore_retrace.h:230-249 | The walk round the circular list ends and returns the node the map has under the id, or null |
| SpaceRing.Spaces.Owns | cpython-overlay/Include/internal/pycore_retrace.h:251-275 | The ownership walk accepts null and exactly the nodes of the list |
| SpaceRing.Spaces.Get | cpython-overlay/Include/internal/pycore_retrace.h:277-299 | A present node is returned as is; otherwise a fresh one goes in after the last; no node moves and the root stays first |
| SpaceRing.Spaces.Clear | cpython-overlay/Include/internal/pycore_retrace.h:615-625 | Cleanup frees every node but the root, each once and in order, and leaves the root alone in the list |
| CoordinateThread.Thread.ActivateFrame | cpython-overlay/Include/internal/pycore_retrace.h:855-887 | The hook takes the objects from one state of the machine to the next, a frame left active by another thread included |
| CoordinateThread.Thread.DeactivateFrame | cpython-overlay/Include/internal/pycore_retrace.h:936-970 | Restore the pointer, count through it, drop the depth, clear the frame, fall back to the root: together the machine's leave |
| CoordinateThread.Thread.BeginInstruction | cpython-overlay/Include/internal/pycore_retrace.h:889-901 | A visible frame's counter is cleared at its boundary; an invisible frame's is not |
| CoordinateThread.Thread.CoordinateJump | cpython-overlay/Include/internal/pycore_retrace.h:145-160 | The bias moves so that, before reading negative sums as zero, the target reads one more than the source did |
| CoordinateThread.Thread.Increment | cpython-overlay/Include/internal/pycore_retrace.h:951-953 | Counting through a pointer changes the one counter it refers to |
| CoordinateThread.LeaveSteps | cpython-overlay/Include/internal/pycore_retrace.h:936-970 | The writes of a leave, in the order they are made, compose to the machine's transition |
| CoordinateWalks.InvWalkable | cpython-overlay/Include/internal/pycore_retrace.h:369-383 | In every reachable state each frame of the chain is visible in the space the stack says |
| CoordinateWalks.NearestVisibleFrameInSpace | cpython-overlay/Include/internal/pycore_retrace.h:369-383 | The walk returns the nearest frame of the space, or null when there is none |
| CoordinateWalks.EnterSpace | cpython-overlay/Modules/retracemodule.c:794-840 | Entering finds or makes the space, points at its nearest frame or at a fresh local root, and saves what it replaces |
| CoordinateWalks.LeaveSpace | cpython-overlay/Modules/retracemodule.c:842-859 | Leaving writes the local root back, at least one above its start, and restores space and pointer |
| CoordinateQueries.CoordinateCount | cpython-overlay/Modules/retracemodule.c:171-182 | The count is two words for every active frame of the space |
| CoordinateQueries.FillCoordinates | cpython-overlay/Modules/retracemodule.c:184-198 | The buffer filled backwards holds the coordinate vector, oldest frame first |
| CoordinateQueries.CommonCount | cpython-overlay/Modules/retracemodule.c:208-238 | The single pass from the current frame to the oldest ends with the number of words before the first that is not held, or zero when the root count moved |
| CoordinateQueries.EmitSuffix | cpython-overlay/Modules/retracemodule.c:248-265 | The second pass yields exactly the words past the common count and makes every frame of the space remember its words |
| CoordinateQueries.ThreadDelta | cpython-overlay/Modules/retracemodule.c:200-272 | The whole call returns the machine's delta and leaves the machine's caches |
| CoordinateQueries.CoordinateHashInSpace | cpython-overlay/Include/internal/pycore_retrace.h:440-456 | The recursion over the frame objects computes the machine's chain hash |
| CoordinateReplay.Perform | cpython-overlay/Include/internal/pycore_retrace.h:855-970 | Every event, performed on the objects, takes them to the machine's next state |
| CoordinateReplay.Replay | cpython-overlay/Include/internal/pycore_retrace.h:855-970 | Any run of the machine, other threads' effects on suspended frames included, is followed by the objects step for step, so every property of runs holds of them |
| HandoffProtocol.GateExact | cpython-overlay/Modules/retracemodule.c:1487-1553 | In every run, with timeouts or without, the gates are in order at each of the states 0 to n if and only if none of the first n steps releases the gate of a thread between its timeout and its re-lock |
| HandoffProtocol.NoTimeOutNoLateWake | cpython-overlay/Modules/retracemodule.c:1514-1553 | A run in which no wait times out has no such late wake |
| HandoffProtocol.GateRun | cpython-overlay/Modules/retracemodule.c:1487-1553 | While no wake is late a parked thread's gate is open exactly when it has a permit or the handoff is closed, and every other gate is shut |
| HandoffProtocol.NoDoubleRelease | cpython-overlay/Modules/retracemodule.c:1487-1512 | While no wake is late, timeouts or not, a step only releases a gate that is held, and leaves it open |
| HandoffProtocol.WakeIsExact | cpython-overlay/Modules/retracemodule.c:1514-1553 | While no wake is late a parked thread can pass its gate exactly when it has been given a permit or the handoff is closed, and past the gate it always leaves the wait, returning if it passed and raising if it timed out |
| HandoffProtocol.NoLostWake | cpython-overlay/Modules/retracemodule.c:1504-1553 | In every run, timed or not, late wakes included, no wake is lost: a parked thread with a permit, or under a closed handoff, can pass its gate |
| HandoffProtocol.RunnableStep | cpython-overlay/Modules/retracemodule.c:1567-1619 | No step before close makes more participants runnable, except the end of a wait that expired unwoken, which makes one; a transfer to a participant makes it runnable |
| HandoffProtocol.Baton | cpython-overlay/Modules/retracemodule.c:1567-1619 | Over any interleaving before close, timed or not, the number of runnable participants rises by no more than the waits that expired unwoken, and with every target a participant it never falls to zero |
| HandoffProtocol.NoneExpires | cpython-overlay/Modules/retracemodule.c:1514-1553 | Without a timeout no wait expires, so one baton stays one baton |
| HandoffProtocol.HolderMoves | cpython-overlay/Modules/retracemodule.c:1514-1553 | In every run a runnable participant has a step it can take: nobody holding the baton is stranded |
| HandoffProtocol.DrainStep | cpython-overlay/Modules/retracemodule.c:1487-1502 | After close every move of a blocked thread lowers a measure, and nobody becomes blocked |
| HandoffProtocol.CloseDrains | cpython-overlay/Modules/retracemodule.c:1487-1502 | After close, whatever came before, the number of moves is bounded by the measure, no thread parks again, and every thread still in the protocol can move |
| HandoffProtocol.TransferAnswers | cpython-overlay/Modules/retracemodule.c:1592-1619 | In every run a transfer raises exactly when the handoff has been closed before, returns at once exactly when it is open and the target is the caller, and parks otherwise |
| HandoffProtocol.WaitAnswers | cpython-overlay/Modules/retracemodule.c:1514-1553 | In every run a wait raises exactly when it timed out at its gate, returns exactly when it passed the gate and was woken since it parked or the handoff was closed, and goes back to the gate otherwise |
| HandoffProtocol.PermitExact | cpython-overlay/Modules/retracemodule.c:1504-1612 | In every run a thread has an entry exactly when it took part in a transfer, and a permit exactly when it was transferred to and has since neither parked nor ended a wait whose gate it passed |
| HandoffProtocol.NormalReturnWasWoken | cpython-overlay/Modules/retracemodule.c:1514-1553 | With timeouts allowed, a wait that returns was woken during that park or saw a close, and one that returns or raises runs again |
| HandoffProtocol.TimeoutBreaksGates | cpython-overlay/Modules/retracemodule.c:1530-1553 | A concrete run with a timeout in which a gate is released while open |
| HandoffProtocol.PermitOfRunningThreadIsDiscarded | cpython-overlay/Modules/retracemodule.c:1604-1612 | A permit given to a thread that is not parked is discarded at its next transfer |
| HandoffProtocol.PermitOfParkedThreadIsUsed | cpython-overlay/Modules/retracemodule.c:1504-1512 | A permit given to a parked thread opens its gate |
| HandoffObject.ThreadHandoff.FindEntry | cpython-overlay/Modules/retracemodule.c:1381-1394 | The list walk finds the thread's entry exactly when there is one |
| HandoffObject.ThreadHandoff.GetEntry | cpython-overlay/Modules/retracemodule.c:1396-1428 | A missing entry is made at the head of the list with everything off and its gate shut; a present one is returned and the list stays as it is |
| HandoffObject.ThreadHandoff.To | cpython-overlay/Modules/retracemodule.c:1567-1619 | The critical section of a transfer is the protocol's step; it raises exactly without thread ids or when closed and returns at once exactly for the caller itself |
| HandoffObject.ThreadHandoff.AcquireGate | cpython-overlay/Modules/retracemodule.c:1524-1536 | Passing a gate is the protocol's step |
| HandoffObject.ThreadHandoff.FinishWait | cpython-overlay/Modules/retracemodule.c:1537-1553 | The re-lock and finish of a wait is the protocol's step; it raises exactly when the gate was not acquired and returns exactly when closed or permitted |
| HandoffObject.ThreadHandoff.CloseLocked | cpython-overlay/Modules/retracemodule.c:1487-1502 | Closing opens the gate of every waiting thread once, and is the protocol's step |

## Left out

- CPython plumbing: reference counts, argument parsing, exception save and restore, type slots, frame ownership kinds and incomplete frames; hooks and queries are modelled as the steps these call.
- The values of the 64-bit mixers: every result holds for any mixer.
- Wrap-around of 64-bit ordinals and coordinates: they are unbounded here, except where the coordinate hash stores them in words.
- Thread ids: composing, making unique and seeding them; uniqueness depends on the mixer for its loop to end, and the rest is bit packing.
- The coordinate-hash field of a frame: it is written and never read.
- The depth counter of a space beyond what the hooks do to it: nothing reads it while a thread runs.
- Frames pinned while a callback runs, spaces entered inside a callback, and other threads running during one: callbacks are atomic.
- Repair of the current space when the inherited space id differs, and calls without a thread state.
- SpaceIsolation.BracketIsolates: a body that itself enters another space counts as stepping it, since entering moves that space's root count.
- CallAtRuns.HitIffReachedOnRun: stated within one root count and while no scope rewinds the space, because a new root activation starts its vectors afresh and a bare nested run may rewind them; CallAt.CallAtExact has no such condition.
- A target armed again on a space whose target is armed or has fired: each statement is about one target, from the point it is armed until its own space is armed or cleared again.
- Thread exit, which forgets the cursors of the thread, and threads without an id: the switch stream is that of seeded, living threads.
- CoordinateReplay.Replay: what other threads did to a suspended frame is written to its fields in one step; their own spaces and the rest of their state are not objects here.
- CoordinateThread: a pointer to a counter inside a frame, a space or a scope is the name of that counter, and scopes are records of the control stack, since Dafny has no pointers to fields; the list walks that decide ownership and find a space are in SpaceRing and agree with the map used here.
- Exceptions raised between a jump and its target, which leave the bias moved for a jump that is not made.
- DeltaStream.DeltaFaithful: after a query asked at a bad moment the remembered words may be wrong for good, and nothing is promised of later answers.
- Out-of-memory paths other than those of the identity-hash table.
- What a lock does when it is released while free: in a run that double-releases a gate, the gate here is simply open.
- Freeing a handoff's entries, and errors of locks themselves.
- Packaging, patches, the Python wrappers and the smoke programs.
