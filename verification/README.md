# Lock-free signalling, tickers, heap map, modules and event rings of the VM, in Dafny

This project models the state-keeping code of the OpenSmalltalk VM's platform layer and proves what
each part is relied on for. `dafny verify dfyconfig.toml` checks all of it.

## The parts

**External semaphores** (`Signal*.dfy`, `TideContention.dfy`, `ExternalSemaphores.dfy`). Plugin threads
ask for semaphores to be signalled; the VM thread answers, without locks. `SignalTable` holds the shared data as a
value: 16-bit request and response counters, two pairs of tide marks, the side in use, the request
flag. `SignalProtocol` is the step machine: any number of requestors and one responder, one step per access
to shared data, every interleaving. `ExternalSemaphores.SemaphoreTable` is the same table with
arrays, retry loops and a nested scan, updated in place; `SignalProgress` ties the two: run without
interference, the steps of the machine have the effect the methods are proved to have.

**Tickers** (`Tickers.dfy`, `SynchronousTicker.dfy`, `AsynchronousTicker.dfy`). One tickee over a run of
clock readings (rates, drift, rounding); the compact synchronous table over runs of changes and checks; the asynchronous
table, changed store by store while the heartbeat may strike between any two stores.

**Heap map** (`HeapMap.dfy`). A two-level table of lazily allocated pages, proved to be a set of word addresses.

**Module list** (`Modules.dfy`, `ModuleFacts.dfy`, `NamedPrims.dfy`). The registry of loaded modules on values, facts
over whole sessions, and the linked list spliced in place that is proved to implement it. An
initialiser's own loads are part of the call (`Attempt.nested`), to any depth.

**Event and key rings** (`EventRings.dfy`) and **URL requests** (`UrlRequests.dfy`). Rings that drop the oldest item; request slots
that are reused, guarded by ids in the notices.

## What came out

- *Signals can be lost.* A requestor that has read `useTideA` can be overtaken by a toggle. If the VM then reads
  the retired marks before the requestor has moved them out to its slot, its mark lands in a pair that a later response
  resets. `SignalLoss.SignalsCanBeLost` is such a run. The toggle itself is harmless; the reads of the
  retired marks decide. `SignalCoverage.AlwaysKeptExactlyWhen` says, slot by slot, which runs keep a pending request
  covered. `SignalLoss.CaughtInTheWindow` says, for a response about to toggle or to read the retired marks, whether some
  way of going on without further calls leaves a request unanswered. A covered request whose call has returned is
  answered even if all other requestors stall (`SignalProgress.AnsweredAlone`). In the interrupt model that the header comment describes none is lost. Over-signalling is impossible in
  every interleaving.
- A response called with a table size below the real one forgets marks above it
  (`SignalTable.ResponseForgetsBeyondLimit`).
- `allRequestsAreAnswered` starts at index 1 and so never looks at external semaphore 1, which is slot 0.
- A backlog of 65536 or more for one semaphore is not made good: a response signals fewer than 65536 of them
  (`SignalProgress.AnsweredExactlyWhen`), and none at all of exactly 65536, which looks like no backlog
  (`SignalOverflow.BacklogIsForgotten`).
- A synchronous tickee asked to align may start unaligned: with a unit longer than its period, or if the clock moves
  on between the two readings made of it. `Tickers.AlignedExactlyWhen` is the exact condition.
- `ignoreLastEvent` on an empty buffer would make 1023 stale slots readable. Its only caller runs under the lock right
  after a put (`sqMacUIEventsUniversal.c:1032-1072`), so that does not arise there; but on a full buffer that put has cost
  the oldest event, which the taking back does not restore.
- A URL request that failed signals once per notice, only a success signals once. (`URLRequestFailed` has no
  live caller at present: the call at `sqMacNSPlugin.c:448-449` is commented out.) Ids from 2^23 on no longer fit
  the token. Tokens of an earlier session are harmless until their id is given to their slot again.
- `URLPostCreate` answers -1 when its download fails, but leaves the slot in progress; nobody knows its handle
  any more.
- The comments of the heap map size a page for its span (512 KB for 32-bit images) and then allocate more: addresses
  reach 1 MB of the 8 MB of a 64-bit page and half of the 1 MB of a 32-bit one. The model
  follows the code; only the bound `HeapMap.USED_BYTES` reflects this.

Assumptions about the environment: accesses are sequentially consistent, as the fences of the source intend; atomic
add and compare-and-swap are single steps; one responder, one heartbeat. Whether a signal
switches context, what the platform finds when it loads a module, which modules listen and how they
shut down, and the clock readings are parameters. Registered functions are not null, and a rounding unit
whose 32-bit product with 1000 is zero (a division by zero in the source) is excluded.

## Model

| member | source | states |
|---|---|---|
| `SignalCoverage.NoSignalIsLost` | opensmalltalk-vm/platforms/Cross/vm/sqExternalSemaphores.c:154-249 | Any number of requestors and the responder interleaved access by access from the start, no read of a retired mark catching a requestor untimely (its pending slot beyond that mark, and neither marked for the next response nor about to be): every pending slot below the limit is marked on the side in use with the flag up, or cleared by a response yet to toggle, or still to be raised by a requestor for that very slot; or lies in the unscanned part of the range being drained; or belongs to a requestor that will mark it on the side in use, or is in time to mark it on the retired side |
| `SignalCoverage.StepKeepsNoneLost` | opensmalltalk-vm/platforms/Cross/vm/sqExternalSemaphores.c:154-249 | Every single access of every thread but an untimely read of a retired mark keeps every pending request covered |
| `SignalCoverage.StepKeeps` | opensmalltalk-vm/platforms/Cross/vm/sqExternalSemaphores.c:154-249 | The same for one slot, whatever happens to the others |
| `SignalCoverage.ToggleLosesNothing` | opensmalltalk-vm/platforms/Cross/vm/sqExternalSemaphores.c:217-221 | The toggle by itself loses nothing: whoever it overtakes may still mark in time |
| `SignalCoverage.FetchKeepsExactlyWhen` | opensmalltalk-vm/platforms/Cross/vm/sqExternalSemaphores.c:223-224 | Reading a retired mark keeps the request for a slot covered if and only if, should that catch a requestor for it, the slot is marked for the next response or about to be |
| `SignalCoverage.FetchIsSafeExactlyWhen` | opensmalltalk-vm/platforms/Cross/vm/sqExternalSemaphores.c:223-224 | The same over all slots |
| `SignalCoverage.AlwaysKeptExactlyWhen` | opensmalltalk-vm/platforms/Cross/vm/sqExternalSemaphores.c:154-249 | Slot by slot, whatever happens to the others: a run from the start keeps the request for a slot covered in all its states if and only if no fetch catches a requestor for that slot untimely |
| `SignalCoverage.NeverLostExactlyWhen` | opensmalltalk-vm/platforms/Cross/vm/sqExternalSemaphores.c:154-249 | A run from the start keeps every pending request covered in all its states if and only if all its fetches are timely |
| `SignalCoverage.CompletedIsSeen` | opensmalltalk-vm/platforms/Cross/vm/sqExternalSemaphores.c:154-215 | In every run that is timely for a slot, whenever the responder polls with the flag down and nobody is past its increment and before its flag store for that slot, nothing is pending there, whatever the traffic on other slots |
| `SignalCoverage.InterruptsLoseNothing` | opensmalltalk-vm/platforms/Cross/vm/sqExternalSemaphores.c:41-55 | The interrupt model of the header comment: if signals run as interrupts between any two accesses of the VM thread, nothing is ever lost, with no further assumption |
| `SignalCoverage.InterruptsAreTimely` | opensmalltalk-vm/platforms/Cross/vm/sqExternalSemaphores.c:41-48 | Every run of the interrupt model meets the timing assumption |
| `SignalCoverage.MarkedTogglesLoseNothing` | opensmalltalk-vm/platforms/Cross/vm/sqExternalSemaphores.c:163-233 | So nothing is lost if no toggle overtakes a requestor whose pending slot is still unmarked |
| `SignalCoverage.ClosedWindowRuns` | opensmalltalk-vm/platforms/Cross/vm/sqExternalSemaphores.c:163-233 | In particular nothing is lost if nobody is between reading `useTideA` and the end of the tide loops when the VM toggles; then everybody in a window works on the side in use, and the side about to come into use is empty |
| `SignalLoss.SignalsCanBeLost` | opensmalltalk-vm/platforms/Cross/vm/sqExternalSemaphores.c:163-233 | "No signal is lost" is false without the timing assumption: a run from the start that ends with everybody at rest, the flag down and an accepted request unanswered |
| `SignalLoss.CaughtInTheWindow` | opensmalltalk-vm/platforms/Cross/vm/sqExternalSemaphores.c:163-249 | A response is about to toggle or to read the retired marks, and nobody is about to increment slot i. Over all ways of going on from there to rest, without further calls: some leave slot i pending with the flag down if and only if it is pending, the response in progress does not drain it, and the next response can come about without it: it is not marked there yet although somebody may raise the flag without marking that side, or else some requestor can finish there leaving it out, or nobody is left at all |
| `SignalLoss.CaughtCanBeLost` | opensmalltalk-vm/platforms/Cross/vm/sqExternalSemaphores.c:163-233 | A requestor caught at a fetch, its slot not marked for the next response, can lose its request; so can an unmarked one overtaken by a toggle that finds everybody on the side in use |
| `SignalLoss.UnmarkedIsLosable` | opensmalltalk-vm/platforms/Cross/vm/sqExternalSemaphores.c:163-233 | A losing schedule when somebody can raise the flag without marking the fresh side: everybody moves up to the window, the response passes by, those on the idle side finish, a second response clears their marks, the rest finish |
| `SignalLoss.LeftOutIsLosable` | opensmalltalk-vm/platforms/Cross/vm/sqExternalSemaphores.c:163-233 | A losing schedule when all active requestors work on the fresh side and one of them leaves the slot out: it finishes first and brings the response that overtakes the rest |
| `SignalLoss.SecuredIsNotLosable` | opensmalltalk-vm/platforms/Cross/vm/sqExternalSemaphores.c:204-261 | No call-free schedule loses a slot that is drained, or marked with the flag up or coming, or not pending |
| `SignalLoss.GuardedIsNotLosable` | opensmalltalk-vm/platforms/Cross/vm/sqExternalSemaphores.c:163-261 | Nor one that every active requestor marks before it raises the flag |
| `SignalCounting.NeverOverSignalled` | opensmalltalk-vm/platforms/Cross/vm/sqExternalSemaphores.c:155-249 | In every run, badly timed toggles and wrap-around included, the semaphore of a slot has been signalled at most as often as requests for the slot were accepted |
| `SignalCounting.StepKeepsCounted` | opensmalltalk-vm/platforms/Cross/vm/sqExternalSemaphores.c:155-156 | Every access keeps the 16-bit counters equal to the unbounded totals modulo 65536 and no semaphore signalled unasked |
| `SignalCounting.DrainedMeansAnswered` | opensmalltalk-vm/platforms/Cross/vm/sqExternalSemaphores.c:63-72 | Equal counters mean totals equal modulo 65536, and equal totals if and only if equal counters while the backlog is below 65536 |
| `SignalCounting.BacklogOf65536LooksDrained` | opensmalltalk-vm/platforms/Cross/vm/sqExternalSemaphores.c:63-72 | The bound is needed: a backlog of exactly 65536 looks drained |
| `SignalOverflow.BacklogOf` | opensmalltalk-vm/platforms/Cross/vm/sqExternalSemaphores.c:155-156 | From the start every backlog can be reached by calls made while the responder stands still |
| `SignalOverflow.BacklogIsForgotten` | opensmalltalk-vm/platforms/Cross/vm/sqExternalSemaphores.c:242-249 | A run from the start with 65536 accepted requests for one slot, after which nothing is pending and the next response signals nothing |
| `SignalProgress.AnsweredAlone` | opensmalltalk-vm/platforms/Cross/vm/sqExternalSemaphores.c:41-55 | Lock freedom: if a request for a slot is covered and nobody is between its increment and its flag store for it, the rest of the current response and at most one more leave it answered, all other requestors stalled anywhere |
| `SignalProgress.AnsweredExactlyWhen` | opensmalltalk-vm/platforms/Cross/vm/sqExternalSemaphores.c:242-249 | Then, between responses, the next one brings the signals sent for the slot up to the requests accepted if and only if the backlog is below 65536 |
| `SignalProgress.BurstIsAnswered` | opensmalltalk-vm/platforms/Cross/vm/sqExternalSemaphores.c:204-261 | With all requestors at rest and nothing lost, the same for all slots below the limit at once; the flag ends down |
| `SignalProgress.TimelyIsAnswered` | opensmalltalk-vm/platforms/Cross/vm/sqExternalSemaphores.c:204-261 | Every timely continuation, further calls included, that comes to rest with the flag down has answered everything below the limit |
| `SignalProgress.InterruptBurstIsAnswered` | opensmalltalk-vm/platforms/Cross/vm/sqExternalSemaphores.c:41-55 | A finite burst of interrupting signals is fully answered |
| `SignalProgress.ConcurrentBurstIsAnswered` | opensmalltalk-vm/platforms/Cross/vm/sqExternalSemaphores.c:140-261 | So is a finite burst of requestors interleaved access by access, with timely fetches |
| `SignalProgress.UndisturbedRequest` | opensmalltalk-vm/platforms/Cross/vm/sqExternalSemaphores.c:140-194 | The steps of one signal, run without interference, increment the counter of the slot, take minimum and maximum on the side in use and raise the flag; an index outside the table has no effect |
| `SignalProgress.UndisturbedResponse` | opensmalltalk-vm/platforms/Cross/vm/sqExternalSemaphores.c:204-261 | The steps of one response, run without interference, have the effect stated for the whole call, on table and signal totals |
| `SignalProgress.FinishScan` | opensmalltalk-vm/platforms/Cross/vm/sqExternalSemaphores.c:242-249 | The scan, from any point in it, ends with every slot of the rest of the range caught up, each signalled as often as its counter lagged |
| `SignalProgress.FinishRequest` | opensmalltalk-vm/platforms/Cross/vm/sqExternalSemaphores.c:163-190 | A requestor running alone reaches the end of its call from wherever it stands, even if its last read is stale |
| `SignalProgress.FinishResponseIsARun` | opensmalltalk-vm/platforms/Cross/vm/sqExternalSemaphores.c:204-261 | What running the responder alone reaches is reached by steps of the machine |
| `TideContention.RaceTakesMinAndMax` | opensmalltalk-vm/platforms/Cross/vm/sqExternalSemaphores.c:163-188 | After any interleaving of any number of requestors with no reset, the low mark is the least of its old value and the slots asked for, the high mark the greatest, and the other side is untouched |
| `TideContention.RetriesAreBounded` | opensmalltalk-vm/platforms/Cross/vm/sqExternalSemaphores.c:163-188 | In such a race successful swaps number at most two per call in all, and failed swaps at most the successes times the other requestors |
| `TideContention.OneSuccessPerLoop` | opensmalltalk-vm/platforms/Cross/vm/sqExternalSemaphores.c:163-188 | Within one call of a requestor, whatever the others do, its swap succeeds at most once in the low loop and at most once in the high loop |
| `TideContention.FailureIsPaidFor` | opensmalltalk-vm/platforms/Cross/vm/sqExternalSemaphores.c:165-173 | A step with a successful swap makes at most every other pending swap stale; a failed swap uses one such spoiling up |
| `TideContention.SuccessIsUsedUp` | opensmalltalk-vm/platforms/Cross/vm/sqExternalSemaphores.c:165-173 | A successful swap uses up one of the two a call can make, and no step of another gives one back |
| `TideContention.RunKeepsRacing` | opensmalltalk-vm/platforms/Cross/vm/sqExternalSemaphores.c:163-188 | Throughout a race each slot asked for is inside the marks or being pushed there, and marks move only to slots asked for |
| `SignalTable.ResponseSignalsExactlyPending` | opensmalltalk-vm/platforms/Cross/vm/sqExternalSemaphores.c:234-249 | From the coverage invariant, scanning the marked range signals what scanning the whole table below the limit would, leaves nothing pending there, and restores the invariant |
| `SignalTable.DrainCount` | opensmalltalk-vm/platforms/Cross/vm/sqExternalSemaphores.c:242-249 | A scan signals each semaphore exactly as often as its counter lags (modulo 65536) inside the range, and not at all outside |
| `SignalTable.DrainAscends` | opensmalltalk-vm/platforms/Cross/vm/sqExternalSemaphores.c:242 | The semaphores are signalled in ascending order |
| `SignalTable.ResponseForgetsBeyondLimit` | opensmalltalk-vm/platforms/Cross/vm/sqExternalSemaphores.c:239-241 | Marks at or above the limit are clamped away: the invariant of the whole table survives a response if and only if nothing is pending there |
| `SignalTable.RequestKeepsQuiet` | opensmalltalk-vm/platforms/Cross/vm/sqExternalSemaphores.c:154-190 | A request keeps the coverage invariant |
| `ExternalSemaphores.SemaphoreTable.DoSignalExternalSemaphores` | opensmalltalk-vm/platforms/Cross/vm/sqExternalSemaphores.c:204-261 | In place: nothing happens with the flag down; otherwise counters, both tide pairs, side and flag become what is stated for a response, the calls made are those of the scan in order, the answer is true if and only if one of them switched context; from the coverage invariant, exactly the pending signals are sent |
| `ExternalSemaphores.SemaphoreTable.SignalSemaphoreWithIndex` | opensmalltalk-vm/platforms/Cross/vm/sqExternalSemaphores.c:140-194 | In place: accepted if and only if the index is in the table; then counter, marks and flag are as stated for a request, else nothing changes |
| `ExternalSemaphores.SemaphoreTable.MarkTides` | opensmalltalk-vm/platforms/Cross/vm/sqExternalSemaphores.c:163-188 | The retry loops end with minimum and maximum on the side in use, the other side untouched |
| `ExternalSemaphores.SemaphoreTable.SwitchTides` | opensmalltalk-vm/platforms/Cross/vm/sqExternalSemaphores.c:217-233 | The idle pair is emptied, the side toggled, and the pair that was in use read and left as it was |
| `ExternalSemaphores.SemaphoreTable.Scan` | opensmalltalk-vm/platforms/Cross/vm/sqExternalSemaphores.c:242-249 | The nested loops: responses in the range catch up, others stay, calls in order, switched if and only if a call switched |
| `ExternalSemaphores.SemaphoreTable.AnswerSlot` | opensmalltalk-vm/platforms/Cross/vm/sqExternalSemaphores.c:243-249 | The inner loop terminates across wrap-around, with one call per increment |
| `ExternalSemaphores.SemaphoreTable.SetMaxTableSize` | opensmalltalk-vm/platforms/Cross/vm/sqExternalSemaphores.c:108-127 | Grows to the least power of two that is enough, the new slots at rest and nothing else changed; never shrinks |
| `ExternalSemaphores.SemaphoreTable.constructor` | opensmalltalk-vm/platforms/Cross/vm/sqExternalSemaphores.c:80-95 | The table starts empty, both tide pairs empty, side A in use, flag down |
| `ExternalSemaphores.SemaphoreTable.AllRequestsAreAnswered` | opensmalltalk-vm/platforms/Cross/vm/sqExternalSemaphores.c:265-276 | Answers true if and only if no slot from 1 up is pending: slot 0 is not looked at |
| `ExternalSemaphores.RoundedUp` | opensmalltalk-vm/platforms/Cross/vm/sqExternalSemaphores.c:117-120 | The size computed exceeds `n - 1` and is at most twice it |
| `ExternalSemaphores.GrowingDisturbsNothing` | opensmalltalk-vm/platforms/Cross/vm/sqExternalSemaphores.c:117-126 | Growing changes neither what is pending nor the coverage invariant |
| `Tickers.RateBound` | opensmalltalk-vm/platforms/Cross/vm/sqTicker.c:217-261 | Whatever the first deadline and the readings between `a` and `b`, an asynchronous tickee of period P fires at most floor((b - a + 10000000) / P) + 1 times |
| `Tickers.FrozenClockStopsFiring` | opensmalltalk-vm/platforms/Cross/vm/sqTicker.c:217-227 | At a frozen clock it fires at most floor(10000000 / P) + 1 times, and after that many checks it is not due any more |
| `Tickers.FiresExactlyWhen` | opensmalltalk-vm/platforms/Cross/vm/sqTicker.c:150-155 | A tickee fires in a run if and only if some clock reading is at or after its deadline |
| `Tickers.FiresAtFirst` | opensmalltalk-vm/platforms/Cross/vm/sqTicker.c:245-258 | It fires at the first such reading; from there on it is due one period after its old deadline, or, in the asynchronous ticker and more than 10000000 late, one period after that reading |
| `Tickers.SecondFiring` | opensmalltalk-vm/platforms/Cross/vm/sqTicker.c:245-258 | So its second firing comes at the first later reading at or after that time, and not at all if there is none |
| `Tickers.CatchesUp` | opensmalltalk-vm/platforms/Cross/vm/sqTicker.c:150-155 | Checked more than (c - D) / P times at a clock c at or after its deadline D, a synchronous tickee fires exactly floor((c - D) / P) + 1 times |
| `Tickers.NoDrift` | opensmalltalk-vm/platforms/Cross/vm/sqTicker.c:150-155 | While no check is more than the hiccup threshold late, the k-th firing is at or after D + k P and the deadline ends at D plus one period per firing |
| `Tickers.SynchronousIsPunctual` | opensmalltalk-vm/platforms/Cross/vm/sqTicker.c:150-155 | For the synchronous ticker that holds of every run |
| `Tickers.PunctualRate` | opensmalltalk-vm/platforms/Cross/vm/sqTicker.c:245-261 | By time b at most floor((b - D) / P) + 1 firings, none before D, late or not |
| `Tickers.RoundedStart` | opensmalltalk-vm/platforms/Cross/vm/sqTicker.c:122-131 | A rounding unit no longer than the period, no overflow, both clock readings: the first deadline is the last multiple of the unit in (now, now + period] if the second reading is no later than that multiple, else one period after it; the former whenever the readings are at most period minus unit apart |
| `Tickers.AlignedExactlyWhen` | opensmalltalk-vm/platforms/Cross/vm/sqTicker.c:122-131 | For all periods, units and clock readings: the first deadline is a multiple of the unit if and only if the second reading is no later than now + period rounded down to the unit, or the period is a multiple of the unit |
| `Tickers.MisalignedStarts` | opensmalltalk-vm/platforms/Cross/vm/sqTicker.c:122-131 | Inputs with an unaligned start: a unit longer than the period, and a shorter one with the clock moving on between the two readings |
| `Tickers.StaysAligned` | opensmalltalk-vm/platforms/Cross/vm/sqTicker.c:150-155 | An aligned deadline with a period that is a multiple of the unit stays aligned over any run of checks |
| `SynchronousTicker.Table.AddSynchronousTickee` | opensmalltalk-vm/platforms/Cross/vm/sqTicker.c:101-137 | In place: add, re-add or remove leaves exactly the table stated by the insertion-ordered map; error if and only if it is a new tickee and no slot is left |
| `SynchronousTicker.Table.MoveDown` | opensmalltalk-vm/platforms/Cross/vm/sqTicker.c:109-113 | The `memmove` closes the gap and keeps the order and data of the rest |
| `SynchronousTicker.Table.CheckForEvents` | opensmalltalk-vm/platforms/Cross/vm/sqTicker.c:139-156 | Each due entry fires once, in table order, and its deadline moves by one period; no other changes |
| `SynchronousTicker.ChangedKeepsOrder` | opensmalltalk-vm/platforms/Cross/vm/sqTicker.c:101-137 | Functions in registration order: a new one at the end, a known one in place, a removed one closed up, a fifth one rejected |
| `SynchronousTicker.ChangedAffectsOne` | opensmalltalk-vm/platforms/Cross/vm/sqTicker.c:101-137 | Nothing but the one function is affected; it is scheduled as asked, or not at all |
| `SynchronousTicker.ChangedStaysDistinct` | opensmalltalk-vm/platforms/Cross/vm/sqTicker.c:118-135 | No function is registered twice and there are at most four |
| `SynchronousTicker.RunKeepsOrder` | opensmalltalk-vm/platforms/Cross/vm/sqTicker.c:101-156 | Over any run of adds, re-adds, removals and checks the table refines an insertion-ordered set of at most four functions |
| `SynchronousTicker.LastChangeDecides` | opensmalltalk-vm/platforms/Cross/vm/sqTicker.c:101-137 | After any run a function is registered if and only if the last accepted change of it was an add, or there was none and it was registered before |
| `SynchronousTicker.RunFollowsTickee` | opensmalltalk-vm/platforms/Cross/vm/sqTicker.c:139-156 | In the table, whatever else is registered or removed meanwhile, an entry left alone behaves as that tickee by itself over its clock readings |
| `SynchronousTicker.AddedEntry` | opensmalltalk-vm/platforms/Cross/vm/sqTicker.c:118-131 | An accepted add enters 1000 microseconds per millisecond of the period (modulo 2^32), due that long after the clock reading; or rounded down to the unit, and moved on by a period if the second reading has passed that |
| `SynchronousTicker.UnroundedFiresOnTime` | opensmalltalk-vm/platforms/Cross/vm/sqTicker.c:118-155 | Over any run after an accepted unrounded add the function is called if and only if some reading is at or after that time: not before, and not missed |
| `SynchronousTicker.TableFiresExactlyWhen` | opensmalltalk-vm/platforms/Cross/vm/sqTicker.c:150-155 | Over any run that leaves it alone, a function is called if and only if the clock some time reads its deadline or later |
| `SynchronousTicker.TableFiresAgainExactlyWhen` | opensmalltalk-vm/platforms/Cross/vm/sqTicker.c:150-155 | After its first call it is called again if and only if the clock later reads its deadline plus a period or more |
| `SynchronousTicker.TableCatchesUp` | opensmalltalk-vm/platforms/Cross/vm/sqTicker.c:150-155 | In the table too, one far behind is called exactly floor((c - D) / P) + 1 times |
| `SynchronousTicker.FiredOnceIfDue` | opensmalltalk-vm/platforms/Cross/vm/sqTicker.c:150-155 | One check calls a function once if its entry is due, else not at all |
| `SynchronousTicker.FiredInTableOrder` | opensmalltalk-vm/platforms/Cross/vm/sqTicker.c:150 | Of two functions called by a check the one called earlier stands earlier in the table |
| `SynchronousTicker.TableHasNoDrift` | opensmalltalk-vm/platforms/Cross/vm/sqTicker.c:150-155 | So over any run its k-th call is at or after D + k P, and its deadline has moved by exactly one period per call |
| `SynchronousTicker.TableRate` | opensmalltalk-vm/platforms/Cross/vm/sqTicker.c:150-155 | So it is called at most floor((b - D) / P) + 1 times by time b, and not before D |
| `SynchronousTicker.TableStaysAligned` | opensmalltalk-vm/platforms/Cross/vm/sqTicker.c:122-155 | So an aligned entry whose period is a multiple of the unit stays aligned over any run |
| `AsynchronousTicker.HeartbeatFiresRegistrations` | opensmalltalk-vm/platforms/Cross/vm/sqTicker.c:173-261 | From the start, with the heartbeat striking between any two stores of a registration: a function is called if and only if a completed registration of it, moved on by the earlier heartbeats, has its deadline at or before the clock (and is counted); each once at most, in slot order |
| `AsynchronousTicker.BeatsSlot` | opensmalltalk-vm/platforms/Cross/vm/sqTicker.c:245-260 | A heartbeat changes a slot if and only if it is counted, on, not in progress and due, and then only its deadline: by one period, or to one period from now if more than 10000000 late |
| `AsynchronousTicker.RunKeepsConsistent` | opensmalltalk-vm/platforms/Cross/vm/sqTicker.c:164-215 | Over every such run no function occupies two slots, a slot switched on holds exactly what was registered, a half-written one is switched off |
| `AsynchronousTicker.RunFollowsTickee` | opensmalltalk-vm/platforms/Cross/vm/sqTicker.c:229-261 | In the table, under interrupts and other registrations, one tickee behaves as that tickee by itself over the heartbeats |
| `AsynchronousTicker.TableRateBound` | opensmalltalk-vm/platforms/Cross/vm/sqTicker.c:217-261 | So the rate bound holds for the table and every interleaving |
| `AsynchronousTicker.TableFiresExactlyWhen` | opensmalltalk-vm/platforms/Cross/vm/sqTicker.c:245-261 | In the table, under interrupts and other registrations: called if and only if some heartbeat comes at or after the deadline |
| `AsynchronousTicker.TableFiresAgainExactlyWhen` | opensmalltalk-vm/platforms/Cross/vm/sqTicker.c:217-258 | Called again if and only if some later heartbeat comes one period or more after the old deadline, or after the calling heartbeat if that was more than 10000000 late |
| `AsynchronousTicker.AddedFiresOnTime` | opensmalltalk-vm/platforms/Cross/vm/sqTicker.c:193-261 | From an accepted undisturbed registration on, the first call comes with the first heartbeat at or after the clock reading plus 1000 microseconds per millisecond (modulo 2^32), and not before |
| `AsynchronousTicker.RemovedIsSilent` | opensmalltalk-vm/platforms/Cross/vm/sqTicker.c:178-192 | A removal takes effect at once, on that function alone |
| `AsynchronousTicker.LandsInOne` | opensmalltalk-vm/platforms/Cross/vm/sqTicker.c:193-202 | A registration has at most one slot to land in, and none if it is refused |
| `AsynchronousTicker.RefusedExactlyWhen` | opensmalltalk-vm/platforms/Cross/vm/sqTicker.c:193-202 | Between registrations one is refused if and only if four other functions are registered |
| `AsynchronousTicker.UndisturbedAdd` | opensmalltalk-vm/platforms/Cross/vm/sqTicker.c:193-214 | Refused, changing nothing, if and only if all four slots are counted and hold other functions; else the stores add up to one complete entry in the slot of the function, or the lowest that is free or not counted |
| `AsynchronousTicker.Table.AddHighPriorityTickee` | opensmalltalk-vm/platforms/Cross/vm/sqTicker.c:173-215 | In place: the same refusal and the same slot, the whole entry written and nothing else; a removal only clears the function |
| `AsynchronousTicker.Table.CheckHighPriorityTickees` | opensmalltalk-vm/platforms/Cross/vm/sqTicker.c:229-261 | In place: exactly the due entries fire, in slot order, their deadlines moved on or, beyond the threshold, based on the clock |
| `HeapMap.Map.AtWord` | opensmalltalk-vm/platforms/Cross/vm/sqHeapMap.c:136-149 | Rejects exactly the misaligned addresses; otherwise non-zero if and only if the address is in the set of marked words |
| `HeapMap.Map.AtWordPut` | opensmalltalk-vm/platforms/Cross/vm/sqHeapMap.c:154-181 | Adds the word to or removes it from the set and frames every other word, also when it allocates a directory or a page |
| `HeapMap.Map.Clear` | opensmalltalk-vm/platforms/Cross/vm/sqHeapMap.c:186-197 | Empties the set and keeps every page allocated |
| `HeapMap.LastOperationDecides` | opensmalltalk-vm/platforms/Cross/vm/sqHeapMap.c:136-197 | Over any sequence of operations a word is marked if and only if the last one that touched it was a put of a non-zero bit |
| `HeapMap.MisalignedIsNeverMarked` | opensmalltalk-vm/platforms/Cross/vm/sqHeapMap.c:160 | No sequence of operations marks a misaligned address |
| `HeapMap.LeakCheck` | opensmalltalk-vm/platforms/Cross/vm/sqHeapMap.c:11-18 | Wiping, setting all headers and clearing the referenced ones leaves exactly headers minus referenced |
| `HeapMap.AddressHasPlace` | opensmalltalk-vm/platforms/Cross/vm/sqHeapMap.c:115-131 | Every aligned address below 2^61 has indices inside all three arrays, and they determine it |
| `HeapMap.PlaceHasAddress` | opensmalltalk-vm/platforms/Cross/vm/sqHeapMap.c:115-131 | Conversely each place in range is that of exactly one such address |
| `HeapMap.PlacesAreDistinct` | opensmalltalk-vm/platforms/Cross/vm/sqHeapMap.c:128-131 | Distinct addresses have distinct places |
| `HeapMap.BeyondTheLimit` | opensmalltalk-vm/platforms/Cross/vm/sqHeapMap.c:115-131 | The limit is exact: the root index is in bounds if and only if the address is below 2^61 |
| `HeapMap.PlacesAreDistinct32` | opensmalltalk-vm/platforms/Cross/vm/sqHeapMap.c:40-51 | The 32-bit layout is in bounds and injective on every aligned 32-bit address |
| `HeapMap.BitAdded` | opensmalltalk-vm/platforms/Cross/vm/sqHeapMap.c:177-178 | Or-ing the mask in sets its bit and no other |
| `HeapMap.BitRemoved` | opensmalltalk-vm/platforms/Cross/vm/sqHeapMap.c:179-180 | And-ing the complement clears its bit and no other |
| `ModuleFacts.SessionsAreConsistent` | opensmalltalk-vm/platforms/Cross/vm/sqNamedPrims.c:45-556 | Over any sequence of loads, nested loads, failed loads and unloads: names stay distinct and non-empty, and every handle the platform gave out is held by exactly one entry or has been given back |
| `ModuleFacts.FailedLoadRemovesItsEntry` | opensmalltalk-vm/platforms/Cross/vm/sqNamedPrims.c:303-313 | A load whose initialisers fail removes its own entry wherever nested loads have pushed it, gives its handle back, and leaves the modules before and behind it |
| `ModuleFacts.AnsweredMeansListed` | opensmalltalk-vm/platforms/Cross/vm/sqNamedPrims.c:317-339 | A load answers a module if and only if the list holds that name afterwards, and it is the entry listed |
| `ModuleFacts.LoadsExactlyWhen` | opensmalltalk-vm/platforms/Cross/vm/sqNamedPrims.c:277-339 | A name is listed after a load if and only if it was before, or loading is enabled, the module can be found and its initialisers succeed; then with the handle and flag asked for |
| `ModuleFacts.KnownIsAnswered` | opensmalltalk-vm/platforms/Cross/vm/sqNamedPrims.c:321-339 | The empty name is answered by the intrinsic module and a listed one by its entry, loading nothing |
| `ModuleFacts.NestedLoadsStay` | opensmalltalk-vm/platforms/Cross/vm/sqNamedPrims.c:303-314 | Every load an initialiser makes that can be made stays, whether or not the initialiser succeeds in the end |
| `ModuleFacts.LoadPutsInFront` | opensmalltalk-vm/platforms/Cross/vm/sqNamedPrims.c:58-70 | A load, nested loads included, changes nothing of the earlier list and only puts entries in front of it |
| `ModuleFacts.UnloadRemovesExactlyOne` | opensmalltalk-vm/platforms/Cross/vm/sqNamedPrims.c:518-556 | A successful unload leaves exactly the other modules in order; a refused one changes nothing; it is refused if and only if nothing has been started, the name is empty, or the shutdown function of a module the FFI did not load refuses |
| `ModuleFacts.UnloadTells` | opensmalltalk-vm/platforms/Cross/vm/sqNamedPrims.c:537-555 | What an unload adds to the log: a notice for every other module that listens and for nobody else, once each and in list order, then the handle given back, then the entry unlinked |
| `ModuleFacts.ToldMeansConcerned` | opensmalltalk-vm/platforms/Cross/vm/sqNamedPrims.c:537-549 | A module is told about an unloading if and only if it is another one and listens |
| `ModuleFacts.ToldOnceInListOrder` | opensmalltalk-vm/platforms/Cross/vm/sqNamedPrims.c:537-549 | Nobody is told twice, and in list order |
| `ModuleFacts.UnloadedIsNotTold` | opensmalltalk-vm/platforms/Cross/vm/sqNamedPrims.c:540 | The module unloaded is not told |
| `ModuleFacts.LoadThenUnload` | opensmalltalk-vm/platforms/Cross/vm/sqNamedPrims.c:277-315 | A load without nested loads and its unload leave the list as it was; the log says acquired, told, given back, unlinked |
| `ModuleFacts.DisabledSessionsNeverLoad` | opensmalltalk-vm/platforms/Cross/vm/sqNamedPrims.c:268-285 | Once loading is disabled no module is ever added again |
| `NamedPrims.ModuleList.FindLoadedModule` | opensmalltalk-vm/platforms/Cross/vm/sqNamedPrims.c:45-56 | Walks the links to the first entry of the name, or answers the intrinsic module, or nothing |
| `NamedPrims.ModuleList.AddToModuleList` | opensmalltalk-vm/platforms/Cross/vm/sqNamedPrims.c:58-70 | Puts a new entry at the head of the linked list |
| `NamedPrims.ModuleList.RemoveFromList` | opensmalltalk-vm/platforms/Cross/vm/sqNamedPrims.c:77-92 | Splices the entry out; all others keep their place |
| `NamedPrims.ModuleList.FindOrLoadModule` | opensmalltalk-vm/platforms/Cross/vm/sqNamedPrims.c:321-339 | The linked list, the log of handles and unlinkings and the answer are those of the registry model, nested loads included |
| `NamedPrims.ModuleList.FindAndLoadModule` | opensmalltalk-vm/platforms/Cross/vm/sqNamedPrims.c:277-315 | The same for the load proper |
| `NamedPrims.ModuleList.Initialise` | opensmalltalk-vm/platforms/Cross/vm/sqNamedPrims.c:303-314 | The entry is still where the nested loads left it when it has to be taken out |
| `NamedPrims.ModuleList.UnloadModule` | opensmalltalk-vm/platforms/Cross/vm/sqNamedPrims.c:521-556 | List, answer and log are those of the registry model: the other listeners are told in list order, then the handle is given back, then the entry unlinked; or nothing at all |
| `NamedPrims.ModuleList.NotifyAll` | opensmalltalk-vm/platforms/Cross/vm/sqNamedPrims.c:537-549 | The walk tells every other listening module, in list order |
| `EventRings.EventBuffer.Put` | opensmalltalk-vm/platforms/Mac OS/vm/sqMacUIEventsUniversal.c:220-229 | The ring is a queue of at most 1023 events that drops the oldest |
| `EventRings.EventBuffer.IgnoreLast` | opensmalltalk-vm/platforms/Mac OS/vm/sqMacUIEventsUniversal.c:231-237 | Takes the newest event back; on an empty buffer it leaves 1023 stale ones instead |
| `EventRings.EventBuffer.GetNext` | opensmalltalk-vm/platforms/Mac OS/vm/sqMacUIEventsUniversal.c:246-270 | Puts what arrives at each round, handles internal events until the oldest is visible, and answers that one; queue and handled events are exactly those of the queue model |
| `EventRings.ServesByKind` | opensmalltalk-vm/platforms/Mac OS/vm/sqMacUIEventsUniversal.c:258-269 | Whatever arrives and overflows meanwhile: only events of types 98 and 99 are handled, none of them is answered, and nothing is answered only with the queue empty |
| `EventRings.ServesInOrder` | opensmalltalk-vm/platforms/Mac OS/vm/sqMacUIEventsUniversal.c:246-270 | As long as the arrivals fit: what was handled, then the answer, then the rest of the queue are the old queue followed by the arrivals seen, one batch per event handled and one more |
| `EventRings.NewestSurvive` | opensmalltalk-vm/platforms/Mac OS/vm/sqMacUIEventsUniversal.c:220-229 | However many events are put in a row, the ring holds the newest 1023 in order |
| `EventRings.OldestVisibleEvent` | opensmalltalk-vm/platforms/Mac OS/vm/sqMacUIEventsUniversal.c:246-270 | With nothing arriving: the answer is the oldest event that is not internal, everything before it was internal and is handled in order, everything behind it stays |
| `EventRings.PutThenIgnore` | opensmalltalk-vm/platforms/Mac OS/vm/sqMacUIEventsUniversal.c:220-237 | Putting and ignoring an event restores the queue if and only if it was not full |
| `EventRings.PutRefines` | opensmalltalk-vm/platforms/Mac OS/vm/sqMacUIEventsUniversal.c:220-229 | The index arithmetic of a put, for rings of any size above 1 |
| `EventRings.GetRefines` | opensmalltalk-vm/platforms/Mac OS/vm/sqMacUIEventsUniversal.c:255-256 | The index arithmetic of a get |
| `EventRings.KeysAreConserved` | opensmalltalk-vm/platforms/Mac OS/vm/sqMacUIEventsUniversal.c:285-300 | Over any sequence of keystrokes and fetches: held before plus entered equals fetched plus held plus overflows counted |
| `EventRings.KeysLeaveInOrder` | opensmalltalk-vm/platforms/Mac OS/vm/sqMacUIEventsUniversal.c:1618-1624 | Over any sequence: keys departed followed by keys held are keys held before followed by keys entered; the departed are those fetched, in order, and those dropped, each the oldest at its time, as many as overflows were counted |
| `EventRings.RoomFor63` | opensmalltalk-vm/platforms/Mac OS/vm/sqMacUIEventsUniversal.c:1618-1624 | Up to 63 keys are held; one more drops the oldest and is counted |
| `EventRings.NoOverflowNoLoss` | opensmalltalk-vm/platforms/Mac OS/vm/sqMacUIEventsUniversal.c:1609-1626 | With no overflow the keys come out in the order they went in |
| `EventRings.KeyBuffer.Put` | opensmalltalk-vm/platforms/Mac OS/vm/sqMacUIEventsUniversal.c:1614-1625 | The interrupt key asks for an interrupt and is not entered; any other is, dropping and counting the oldest if the ring is full |
| `EventRings.KeyBuffer.Get` | opensmalltalk-vm/platforms/Mac OS/vm/sqMacUIEventsUniversal.c:285-300 | Enters the keystrokes that arrive, then answers and removes the oldest key and takes over its modifiers, or answers -1 |
| `EventRings.ModifierBits` | opensmalltalk-vm/platforms/Mac OS/vm/sqMacUIEventsUniversal.c:297 | The button bits 0 to 2 stay, bits 3 to 7 become bits 8 to 12 of the key, there are no others |
| `UrlRequests.VerdictInSession` | opensmalltalk-vm/platforms/Mac OS/vm/sqMacNSPlugin.c:483-681 | Within a session of fewer than 2^23 requests, whatever else is created, notified or destroyed meanwhile, notices of earlier sessions included: the first notice with its token decides a request for good, a success signals its semaphore exactly once, a failure once per notice |
| `UrlRequests.RequestGoesItsOwnWay` | opensmalltalk-vm/platforms/Mac OS/vm/sqMacNSPlugin.c:483-671 | Until it is destroyed, a request is affected by its own notices only |
| `UrlRequests.NoticeTouchesItsRequestOnly` | opensmalltalk-vm/platforms/Mac OS/vm/sqMacNSPlugin.c:615-671 | A token survives slot reuse, whatever session it is from: unless the slot holds its id, nothing changes; if it does, that slot alone |
| `UrlRequests.TokenActsExactlyWhen` | opensmalltalk-vm/platforms/Mac OS/vm/sqMacNSPlugin.c:615-671 | For every table and 24-bit id: a notice changes nothing if and only if its slot does not hold the id, or holds it for a request that has succeeded and learns nothing new |
| `UrlRequests.OldTokensAreHarmless` | opensmalltalk-vm/platforms/Mac OS/vm/sqMacNSPlugin.c:483-681 | An earlier token is harmless over a whole session in which its id is not given to its slot again: the session goes as if no notice carried it |
| `UrlRequests.HeldExactlyWhenReissued` | opensmalltalk-vm/platforms/Mac OS/vm/sqMacNSPlugin.c:495-506 | A slot comes to hold an id during a session if and only if a creation gives it that id |
| `UrlRequests.ReissuedTokenActs` | opensmalltalk-vm/platforms/Mac OS/vm/sqMacNSPlugin.c:483-506 | Once its id is given to its slot again an old token signals the new request |
| `UrlRequests.SessionsAreConsistent` | opensmalltalk-vm/platforms/Mac OS/vm/sqMacNSPlugin.c:483-681 | Ids of requests in slots stay distinct and idle slots have none |
| `UrlRequests.FirstNoticeDecides` | opensmalltalk-vm/platforms/Mac OS/vm/sqMacNSPlugin.c:632-669 | The first notice fixes the verdict; signals number one for a success, one per notice for a failure |
| `UrlRequests.NoticeLeaves` | opensmalltalk-vm/platforms/Mac OS/vm/sqMacNSPlugin.c:624-641 | A notice leaves id and semaphore, drops the buffer, and a completion that brings a file name leaves it, or its first 1000 characters |
| `UrlRequests.DestructionFrees` | opensmalltalk-vm/platforms/Mac OS/vm/sqMacNSPlugin.c:559-577 | Destroying blanks the slot whatever it held, deletes its file if it has one, and touches nothing else; out of range it does nothing |
| `UrlRequests.TokenRoundTrip` | opensmalltalk-vm/platforms/Mac OS/vm/sqMacNSPlugin.c:500 | The handle always comes back from a token; the id if and only if it lies within 24 signed bits |
| `UrlRequests.OwnTokenReachesExactlyWhen` | opensmalltalk-vm/platforms/Mac OS/vm/sqMacNSPlugin.c:619-624 | So a request is reached by its own token if and only if its id does |
| `UrlRequests.CreationIsFresh` | opensmalltalk-vm/platforms/Mac OS/vm/sqMacNSPlugin.c:483-506 | A creation fills an idle slot with the request and an unused id, touching no other and moving the next id on by one; it does nothing if and only if no slot is idle |
| `UrlRequests.CreationCompletesExactlyWhen` | opensmalltalk-vm/platforms/Mac OS/vm/sqMacNSPlugin.c:483-506 | A creation, whose download completes before it returns, has succeeded with exactly one signal if and only if its id fits the token; else the request stays in progress |
| `UrlRequests.TokensDoNotSurviveRestart` | opensmalltalk-vm/platforms/Mac OS/vm/sqMacNSPlugin.c:673-681 | Ids start again: the first token of any session reaches the first request of the next |
| `UrlRequests.RequestTable.FindIdle` | opensmalltalk-vm/platforms/Mac OS/vm/sqMacNSPlugin.c:603-613 | The first idle slot or -1 |
| `UrlRequests.RequestTable.Create` | opensmalltalk-vm/platforms/Mac OS/vm/sqMacNSPlugin.c:483-506 | In place: the first idle slot becomes the new request and the completion that its download delivers takes effect; -1 and no change without an instance or an idle slot |
| `UrlRequests.RequestTable.Issue` | opensmalltalk-vm/platforms/Mac OS/vm/sqMacNSPlugin.c:492-500 | In place: the record of a new request and the token that names it |
| `UrlRequests.RequestTable.Post` | opensmalltalk-vm/platforms/Mac OS/vm/sqMacNSPlugin.c:508-557 | In place: as a creation; if the download fails, -1 is answered and the slot stays in progress |
| `UrlRequests.RequestTable.Completed` | opensmalltalk-vm/platforms/Mac OS/vm/sqMacNSPlugin.c:615-643 | In place: the effect of a completion notice on the table and the signals |
| `UrlRequests.RequestTable.Fail` | opensmalltalk-vm/platforms/Mac OS/vm/sqMacNSPlugin.c:645-671 | In place: the effect of a failure notice |
| `UrlRequests.RequestTable.Destroy` | opensmalltalk-vm/platforms/Mac OS/vm/sqMacNSPlugin.c:559-577 | Clears the slot, whatever it held, and deletes its file |
| `UrlRequests.RequestTable.Init` | opensmalltalk-vm/platforms/Mac OS/vm/sqMacNSPlugin.c:673-681 | Every slot blank and ids from 1 again |

## Left out

- Weak memory: sequential consistency is assumed; the fences and the inline assembly behind atomic add and compare-and-swap are not modelled.
- The 32-bit counters used where a 16-bit atomic add is missing, debug assertions, event-chain logging, and `forceInterruptCheck`, which does not touch the table.
- Growing the semaphore table while requests arrive: the source itself says this may lose requests.
- ExternalSemaphores.SemaphoreTable.SetMaxTableSize: requests and responses are two arrays, replaced on growth, where the source has one array of pairs and `realloc`; sizes above 2^30, where the 32-bit shift overflows, are excluded.
- SignalLoss.CaughtInTheWindow: stated for the three positions of the responder from just before its toggle to its second read; continuations with further calls, and slots that a requestor is just about to increment, are not counted, since those requests are lost or answered on their own account; for these `SignalProgress.TimelyIsAnswered` gives the sufficient condition.
- Wrap-around of the 64-bit microsecond clock and deadlines.
- Tickee bodies: they do not edit the table they are called from; the asynchronous checker is one interrupt, so the race of two checkers for `inProgress` is not modelled. The heartbeat's hand-over to the VM thread is left out.
- SynchronousTicker.Table.AddSynchronousTickee: running out of slots, where the source calls `error`, is answered as false (so are misaligned heap-map addresses); null functions, and rounding units whose 32-bit product with 1000 is zero (a division by zero), are required out.
- AsynchronousTicker.Table.AddHighPriorityTickee: likewise for running out of slots and null functions.
- HeapMap.Map.AtWordPut: allocation never fails; addresses from 2^61 on, which the source would look up outside its root array, are required out.
- HeapMap.Map.AtWord: addresses from 2^61 on are required out for the same reason.
- HeapMap.PlacesAreDistinct32: the 32-bit map is modelled as an address layout only; its single-level table adds nothing to the two-level one.
- Of module loading: searching export tables for functions, the checks of `getModuleName` and `setInterpreter` (folded into whether the initialisers succeed), the function look-up entry points, module listing and `ioShutdownAllModules`.
- NamedPrims.ModuleList.FindOrLoadModule: initialisers load modules but do not unload any (one that unloaded its own entry would have it removed twice); see also the next two lines.
- NamedPrims.ModuleList.FindAndLoadModule: the same restriction on initialisers.
- NamedPrims.ModuleList.Initialise: the same restriction on initialisers.
- NamedPrims.ModuleList.UnloadModule: shutdown functions and unload notices do not edit the list.
- NamedPrims.ModuleList.NotifyAll: notices do not edit the list during the walk.
- EventRings.EventBuffer.GetNext: what arrives is a parameter; the bodies of the display update and message hook are not modelled, only recorded in order. Putting an event includes the caller's filling in of the slot.
- EventRings.KeyBuffer.Put: how the key code is built from the event, and the key map, which tracks held keys.
- UrlRequests.RequestTable.Post: the download loop itself; whether it succeeds, and the file name, are parameters. The stream callbacks and `URLRequestStatus`/`URLRequestFileName` are left out.
- UrlRequests.RequestTable.Destroy: of a request's buffer only its presence is kept, of file deletion only a log of names.
- Generated headers, the JIT, the interpreter and the garbage collector.
