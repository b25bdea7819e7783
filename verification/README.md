# RosX in Dafny

A model, with proofs, of the parts of the RosX real-time kernel whose correctness does not show from reading one function:

- **Red-black tree** (`lib/rbtree.c`, `include/rosx/rbtree.h`). `RbShape` holds trees and zippers as values, `RbMemory` relates them to linked nodes, `RbInsert` and `RbErase` give the fix-up loops on values, `RbTree` is the pointer code itself, and `RbRuns` plays sequences of calls. `RbAugment` and `RbAugmented` treat the augmented values.
- **64-bit arithmetic on 32-bit words** (`include/div64.h`, `lib/div64.c`, `include/rosx/math64.h`, `include/asm-generic/bitops/fls.h`). `Xprod`, `Reciprocal`, `DivConst`, `Div64`, `Div64Wide`, `Math64`, over `Arithmetic`, `Powers` and `Words`.
- **Scheduler, mutexes with priority inheritance, timers** (`kernel/rx_task.c`, `rx_sched.c`, `rx_mutex.c`, `rx_timer.c`). `ReadyQueue` and `QueueHistory` treat the ready queue as a value. `MutexProtocol` is a transition system whose steps are the kernel calls, `MutexSafety` shows what every step keeps, `MutexRuns` draws the conclusions for whole runs, `CallEffects` says of the states before and after what each call does, and that nothing else fits; `TimeSlices` and `RoundRobin` treat time slices. `Kernel` is the code with its linked queues, each call proved to be its step of the protocol. `TimerQueue`, `TimerEnding` and `Timers` do the same for timers, and `TimedMutex` puts the mutexes and the timers of their timed calls together; `Chains` holds the facts about linked lists.
- **Numbers as text and back** (`lib/vsprintf.c`, `lib/strto.c`): `Digits`, `Decimal`, `Numerals`, `Strto`.
- **UTF-16 and UTF-8** (`lib/charset.c`): `Unicode` holds section 2 of RFC 2781 and section 3 of RFC 3629, `Utf` the conversions on values, `Charset` the loops.

## How the code is represented

- C integers are mathematical integers with explicit bounds (`u32`, `u64`); where C may wrap, the model says `Wrap32` or `Wrap64`. Shifts of unsigned values by constants are divisions by powers of two. The operators `|`, `&` and the idiom `x & -x` are the functions `BitOr`, `BitAnd` and `LowBit` where their bits matter.
- Red-black nodes are objects with separate `parent` and `color` fields, which the code packs into one word. A ghost field of the root holds the tree that the links spell out. The augmented value of a node is an integer, and the callback that recomputes it is an arbitrary function of the node and its children's values.
- The task, mutex and timer structures are kept as tables, one per field, over arbitrary identities. There is a single `next` table for the ready queue and the queues of all mutexes, as the code has a single `next` field, and the proofs show that no task is in two queues.
- A critical section is one atomic step. The port's critical flag does not nest, so this is an assumption, in particular for the timed path of `rx_mutex_lock`, which leaves the critical section before it suspends the caller.
- Assumed of the system around the protocol: the idle task is always able to run and locks nothing; the timer thread runs the timeout handlers and locks nothing; each task holds or waits for at most one mutex and never locks its own again; a running task leaves the processor only by blocking or by a preemption that marks it READY; nobody resumes a task that waits at a mutex. These are the guards of `MutexProtocol.Enabled`.

## Where the code falls short of what it says

- `div64_u64` and `div64_u64_rem` shift by one bit more than the algorithm they follow. The quotient is exact if and only if `Div64Wide.Fits` holds, which `Div64Wide.FitsOperands` puts in terms of the operands and which is so for every divisor below 2^32 or from 2^34 on; `Div64Wide.InexactExample` is an input in between where it is not.
- `div_s64_rem` returns the quotient exactly unless -2^63 is divided by -1 (`Div64.TruncatedFits`).
- `__rx_remove_from_timer_list` goes through a null link if and only if the list is not empty and the timer is last but not first in it, or has left it (`Timers.ActiveTimers.Remove`). `rx_stop_timer` inherits this for timers whose flag is set; the flag of a sleeper's timer stays set when it goes off. So does `rx_mutex_unlock`, exactly if the first waiter has a timeout and its timer is last but not first in the list (`TimedMutex.TimedKernel.Unlock`).
- The expiry pass ends if and only if no chain of immediate restarts that begins with a due timer comes back to one of its timers (`TimerEnding.EndsIffNoLoop`). A handler that starts its own timer again with no delay makes such a loop (`TimerEnding.OwnRestartLoops`). `rx_mod_timer` admits this, since it checks the old delay and not the new one.
- In base 0 decimal text with zeros in front counts as octal: without blanks in front it is read back if and only if there are no such zeros or the number is below 8 (`Strto.RoundTripDecimal`). 10 written as "010" is read as 8 (`Strto.TenReadAsEight`).
- A timer goes off when its delay has passed if and only if the 32-bit clock does not run over meanwhile (`TimerQueue.OnTimeIffNoOverflow`); otherwise it is due at once.
- `utf16_to_utf8` writes a text whole, with question marks for stray surrogates, if and only if every high surrogate has its partner (`Utf.WholeIffPaired`): one without costs the text its last unit (`Utf.LastUnitLost`).
- `utf8_to_utf16` does not pass over an illegal leading byte and writes nothing but question marks from there on (`Utf.DecodeStuck`). It accepts forms that are not the shortest (`Utf.DecodeFull`).
- The macro `__div64_const32` is documented for divisors that are not powers of two; `DivConst.Div64Const32` is exact for those as well.

## Model

| member | source | states |
|---|---|---|
| `RbTree.RbRoot.InsertColor` | lib/rbtree.c:71-134 | ends, on a red-black tree into which one red leaf was linked, with a valid red-black tree, consistent links both ways and the same order |
| `RbInsert.StepOrder` | lib/rbtree.c:79-130 | every turn of the insertion loop, on either side, keeps the order of the nodes |
| `RbInsert.StepPending` | lib/rbtree.c:79-130 | every turn keeps "red-black everywhere except for one red edge at the node in focus", or removes that edge |
| `RbTree.RbRoot.RotateLeft` | lib/rbtree.c:25-46 | the pointer writes are the rotation of the tree at the node in focus, the surrounding tree and all parent links included |
| `RbTree.RbRoot.RotateRight` | lib/rbtree.c:48-69 | the mirror image |
| `RbTree.RbRoot.LinkNode` | include/rosx/rbtree.h:168-175 | the tree gains one red leaf exactly at the empty slot named, next to its parent in the order |
| `RbTree.RbRoot.Erase` | lib/rbtree.c:216-281 | ends with a valid red-black tree with consistent links whose order is the old one without the node, through the successor splice and all double-black cases |
| `RbTree.RbRoot.EraseColor` | lib/rbtree.c:136-214 | the loop turns a tree with one place that lacks a black node into the balanced tree `RbErase.Refilled` |
| `RbErase.RefilledEnd` | lib/rbtree.c:212-213 | blackening where the loop stops gives a red-black tree of the same order |
| `RbErase.StepRefilled` | lib/rbtree.c:141-211 | one turn of the loop keeps "one black node short at the place in focus" and its final result |
| `RbErase.StraightenedShort` | lib/rbtree.c:145-152 | rotating a red sibling away leaves the shortage at the same place, with a black sibling |
| `RbErase.DemotedShort` | lib/rbtree.c:153-159 | painting the sibling red moves the shortage to the parent |
| `RbErase.SettledBalanced` | lib/rbtree.c:160-175 | the last rotations make up for the missing black node and keep colours legal |
| `RbErase.DetachedShort` | lib/rbtree.c:221-276 | taking a black node out leaves a tree that is short of one black node at the child's place |
| `RbErase.DetachedOrder` | lib/rbtree.c:221-276 | taking the node out, with its successor in its place if it has two children, keeps the order of all others |
| `RbErase.ErasedKeys` | lib/rbtree.c:216-281 | the result is a red-black tree with exactly the other nodes, in their order |
| `RbTree.RbRoot.DetachInner` | lib/rbtree.c:225-260 | the pointer surgery of the successor splice amounts to that detaching |
| `RbTree.RbRoot.DetachOuter` | lib/rbtree.c:263-276 | the same for a node with at most one child |
| `RbShape.HeightLogarithmic` | lib/rbtree.c:71-281 | a red-black tree of n nodes has height at most 2*log2(n+1) |
| `RbRuns.Replay` | lib/rbtree.c:71-281 | any sequence of insertions and removals from the empty tree ends with a valid linked red-black tree of height at most 2*log2(n+1) |
| `RbRuns.Perform` | lib/rbtree.c:71-281 | an insertion or removal keeps the tree valid and puts one node into the order, or takes it out, at its place |
| `RbTree.RbRoot.First` | lib/rbtree.c:354-364 | the first node in order, or null |
| `RbTree.RbRoot.Last` | lib/rbtree.c:366-376 | the last node in order, or null |
| `RbTree.RbRoot.Next` | lib/rbtree.c:378-404 | the node after a node in order, null after the last and for a cleared node |
| `RbTree.RbRoot.Prev` | lib/rbtree.c:406-428 | the node before a node in order, null before the first and for a cleared node |
| `RbTree.RbRoot.Traverse` | lib/rbtree.c:354-404 | from the first node by `Next` until null visits exactly the order of the tree |
| `RbTree.RbRoot.TraverseBack` | lib/rbtree.c:366-428 | from the last node by `Prev` until null visits it in reverse |
| `RbShape.Neighbours` | lib/rbtree.c:378-428 | in the order of a tree, the node before the node after x is x |
| `RbTree.RbRoot.NextThenPrev` | lib/rbtree.c:378-428 | `rb_prev` of `rb_next` of a node is that node; `rb_next` is null exactly for the last |
| `RbAugmented.AugmentPath` | lib/rbtree.c:283-300 | if only the path to the root and the siblings along it may be out of date, recomputing these makes every value right |
| `RbAugmented.AugmentInsert` | lib/rbtree.c:306-314 | makes every value right after a rebalanced insertion |
| `RbAugmented.InsertAugmented` | lib/rbtree.c:71-134 | link, rebalance and recompute keep "every value is the given function of the children's" |
| `RbAugment.FixedInserted` | lib/rbtree.c:71-134 | insertion and rebalancing put values out of date only next to the path from the new node |
| `RbAugmented.AugmentEraseBegin` | lib/rbtree.c:320-339 | finds the deepest node on the rebalancing path that remains |
| `RbAugmented.AugmentEraseEnd` | lib/rbtree.c:345-349 | makes every value right after the removal |
| `RbAugmented.EraseAugmented` | lib/rbtree.c:320-349 | begin, erase and end keep every value right |
| `RbAugment.RemovedRepairable` | lib/rbtree.c:216-281 | removal and rebalancing put values out of date only next to the path from that deepest node |
| `DivConst.Div64Const32` | include/div64.h:54-147 | equals floor(n/b) for every 64-bit n and every nonzero 32-bit b |
| `DivConst.Precompute` | include/div64.h:65-131 | the multiplier, divisor and bias chosen for b give floor(n/b) through the 128-bit product for every 64-bit n, and the divisor is never zero |
| `Reciprocal.TestCertifies` | include/div64.h:75-94 | passing the test at the one point x certifies every 64-bit dividend |
| `Reciprocal.FailedTest` | include/div64.h:94-102 | failing it bounds the rounding error from below, so that rounding down errs by less |
| `Reciprocal.BiasExact` | include/div64.h:103-106 | with the reciprocal rounded down the biased product is then exact |
| `Reciprocal.OddPartExact` | include/div64.h:88-93 | for odd parts that divide 2^64-1 the biased product is exact |
| `DivConst.Shrink` | include/div64.h:113-128 | multiplier and divisor are reduced by a common factor: their ratio stays the same and the divisor does not become zero |
| `DivConst.TestProduct` | include/div64.h:79-85 | the carrying sum computes the upper half of the 128-bit product |
| `Xprod.Xprod64` | include/div64.h:160-194 | equals ((bias ? m : 0) + m*n) >> 64 for all m and n; no carry is lost in any branch |
| `Xprod.LowPart` | include/div64.h:168-177 | the low column with the bias, with or without the overflow branch |
| `Xprod.CrossPart` | include/div64.h:179-189 | the middle columns, with or without the overflow branch |
| `Div64.Div64By32` | lib/div64.c:30-61 | quotient and remainder for every nonzero base |
| `Div64.ScaleUp` | lib/div64.c:45-48 | doubling stops without overflow, at a multiple that more than half covers the rest, also when bit 63 stops it |
| `Div64.SubtractDown` | lib/div64.c:50-57 | subtracting on the way down leaves a remainder below the base |
| `Div64.DoDiv` | include/div64.h:204-226 | every branch overwrites n with the quotient and returns the remainder |
| `Div64.DivU64Rem` | include/rosx/math64.h:65-69 | quotient and remainder |
| `Div64.Fls` | include/asm-generic/bitops/fls.h:12-39 | zero for zero, else one more than the binary logarithm |
| `Div64.DivS64Rem` | lib/div64.c:66-81 | the 64-bit pattern of the quotient rounded towards zero, and the remainder with the sign of the dividend |
| `Div64.TruncatedLaw` | lib/div64.c:66-81 | these satisfy dividend = quotient * divisor + remainder with a small remainder |
| `Div64.TruncatedFits` | lib/div64.c:66-81 | the pattern is the quotient itself exactly unless -2^63 is divided by -1 |
| `Div64Wide.Div64U64` | lib/div64.c:137-155 | what the estimate, its decrement and one correction return, for every dividend and nonzero divisor |
| `Div64Wide.Div64U64Rem` | lib/div64.c:97-121 | the same quotient, and dividend - quotient*divisor modulo 2^64 as remainder, which is the remainder wherever the quotient is exact |
| `Div64Wide.ExactIffFits` | lib/div64.c:137-155 | the result is floor(dividend/divisor) if and only if the checking subtraction does not wrap |
| `Div64Wide.FitsFromHere` | lib/div64.c:137-155 | that is so for every divisor below 2^32 or at least 2^34 |
| `Div64Wide.FitsOperands` | lib/div64.c:137-155 | in general it is so if and only if the divisor is below 2^32 or the dividend is below (quotient + 2) times the divisor with its shifted-out bits cleared |
| `Div64Wide.EstimateNotBelow` | lib/div64.c:145-146 | the shifted estimate is never below the quotient |
| `Div64Wide.EstimateClose` | lib/div64.c:145-146 | it is at most 1 above for divisors of at least 2^34 |
| `Div64Wide.EstimateLoose` | lib/div64.c:145-146 | it is at most 3 above in between |
| `Div64Wide.FitsMeaning` | lib/div64.c:148-151 | the subtraction does not wrap exactly when the estimate is at most 1 above |
| `Div64Wide.InexactExample` | lib/div64.c:145 | (2^64-1) / (2^32+3) comes out as 2^32-1 instead of 2^32-3 |
| `Math64.Product` | include/rosx/math64.h:200-212 | the two words are the 128-bit product |
| `Math64.MulU64U64Shr` | include/rosx/math64.h:183-223 | equals (a*b >> shift) mod 2^64 for every shift below 128 |
| `Math64.MulU64U32Div` | include/rosx/math64.h:229-254 | equals floor(a*mul/divisor) mod 2^64 |
| `Math64.DivideDigits` | include/rosx/math64.h:246-253 | two-digit long division through `do_div` |
| `Math64.MulU64U32Shr` | include/rosx/math64.h:166-179 | equals (a*mul >> shift) mod 2^64 for shifts up to 32 |
| `QueueHistory.PlayInOrder` | kernel/rx_task.c:107-214 | after any history of queueing and dequeueing the ready queue is ordered by priority and, among equals, by arrival |
| `QueueHistory.PlayFaithful` | kernel/rx_task.c:107-214 | it holds exactly the tasks queued and not taken out since, each at its latest priority |
| `QueueHistory.QueueDetermined` | kernel/rx_task.c:107-214 | there is no other such queue |
| `MutexSafety.StepInv` | kernel/rx_mutex.c:67-253 | every step of the protocol keeps the whole invariant: queue order, inheritance, roles and slices |
| `MutexSafety.BlockInv` | kernel/rx_mutex.c:211-247 | waiting at a locked mutex and lending the priority keep it |
| `MutexSafety.UnlockInv` | kernel/rx_mutex.c:67-122 | unlocking, with or without hand-over, keeps it |
| `MutexSafety.ExpireInv` | kernel/rx_mutex.c:125-175 | the timeout handler keeps it, although it recomputes the owner's priority only if it equals the leaving task's |
| `MutexSafety.BestWithout` | kernel/rx_mutex.c:148-161 | if it does not, the owner's priority does not change |
| `MutexSafety.TickInv` | kernel/rx_timer.c:29-46 | the tick, with slices used up or not, keeps it |
| `MutexRuns.RunInv` | kernel/rx_mutex.c:67-253 | so it holds in every state of every run |
| `MutexRuns.PriorityInheritance` | kernel/rx_mutex.c:81-117 | in every reachable state an owner has the most urgent of its original priority and its waiters', everyone else its original one |
| `MutexRuns.NoInversion` | kernel/rx_mutex.c:230-240 | in every reachable state no task less urgent than a waiter is queued ahead of the owner it waits for |
| `MutexRuns.MostUrgentRuns` | kernel/rx_sched.c:20-43 | in every reachable state dispatching selects a most urgent task among those that can run |
| `MutexRuns.WaitersSleep` | kernel/rx_mutex.c:211-228 | in every reachable state tasks wait only at locked mutexes, once, suspended, outside the ready queue, and own nothing |
| `MutexRuns.OneMutexEach` | kernel/rx_mutex.c:200-205 | no task owns two mutexes |
| `MutexRuns.ReturnsOkIffOwner` | kernel/rx_mutex.c:187-190 | a call that had to wait returns OS_OK exactly if the caller owns the mutex, and a timeout only after it expired |
| `CallEffects.LockAnswersInRuns` | kernel/rx_mutex.c:194-253 | in every run `rx_mutex_lock` returns OS_OK exactly if the caller owns the mutex afterwards, E_OS_UNAVAIL exactly if it was locked and the caller would not wait, and then nothing has changed; it does not return yet exactly if the caller is among the waiters afterwards |
| `CallEffects.UnlockAnswersInRuns` | kernel/rx_mutex.c:67-122 | in every run `rx_mutex_unlock` returns OS_ERR exactly if another task owns the mutex, and then nothing has changed; an owner gives it up, to the first waiter if there is one |
| `CallEffects.SuspendedOut` | kernel/rx_task.c:286-301 | in every run a suspended task is SUSPEND and out of the ready queue; all others keep their order, priority and role, and if it ran, the first of them runs |
| `CallEffects.ResumedBehind` | kernel/rx_task.c:303-312 | in every run a resumed task is READY and queued behind all that are at least as urgent, and nothing else changes |
| `CallEffects.StepIffEffect` | kernel/rx_mutex.c:67-253 | in every state that meets the invariant, a call leads to a state exactly if that state shows the call's effect: who has moved where in the queues, who owns and waits, and that all else is as before |
| `CallEffects.RunEffect` | kernel/rx_mutex.c:67-253 | every step of every run has that effect |
| `CallEffects.EffectOnce` | kernel/rx_mutex.c:67-253 | the effect fits one next state only |
| `TimeSlices.RunSlice` | kernel/rx_sched.c:32-43 | in every step of a run a task's slice shrinks only by a tick while it runs, and is renewed only when it is used up and the task is dispatched |
| `TimeSlices.KeepsRest` | kernel/rx_sched.c:37-39 | whatever happens in between, a task with r ticks left has r less the ticks it has run since |
| `TimeSlices.TurnLasts` | kernel/rx_timer.c:29-46 | so it runs exactly r more ticks before its turn ends; at each but the last it keeps the processor and its place, with the last it goes behind its equals |
| `TimeSlices.SlicesConserved` | kernel/rx_timer.c:29-46 | ticks run and ticks left add up to those at first and a whole number of slices |
| `MutexRuns.ServedInTurn` | kernel/rx_mutex.c:90-117 | in every run ownership passes in the order of arrival, passing over tasks whose time ran out, and the queue holds those not yet served |
| `RoundRobin.FullRound` | kernel/rx_timer.c:29-46 | k slice expiries among k most urgent tasks let each run once, for what was left of its slice or for a new one, and restore the order; then each has a whole slice before it |
| `RoundRobin.TurnEnds` | kernel/rx_timer.c:31-42 | a turn ends with the task behind its equals and the next one running |
| `RoundRobin.TickView` | kernel/rx_timer.c:29-46 | the tick considered there is that of the whole system |
| `RoundRobin.LevelOf` | kernel/rx_sched.c:32-43 | which reachable states that applies to |
| `RoundRobin.RoundOfRun` | kernel/rx_timer.c:29-46 | in any part of a run in which only ticks occur, the equally urgent tasks run in queue order, tick by tick, each for what was left of its slice or for a new one, and then the queue is as before |
| `RoundRobin.PartOfRun` | kernel/rx_timer.c:29-46 | every part of a run is made of steps of the protocol |
| `Kernel.RtKernel.constructor` | kernel/rx_mutex.c:24-37 | the tables of a system in which only the idle task runs form an initial state of the protocol |
| `Kernel.RtKernel.Add` | kernel/rx_task.c:107-174 | walks and splices the task in behind the last one at least as urgent; refuses suspended tasks; touches no other link |
| `Kernel.RtKernel.Remove` | kernel/rx_task.c:177-214 | takes the task out, or leaves the queue alone if it is not there; touches no other link |
| `Kernel.RtKernel.Append` | kernel/rx_mutex.c:216-228 | appends to the queue of the mutex |
| `Kernel.RtKernel.Leave` | kernel/rx_mutex.c:136-146 | unlinks from anywhere in the queue of the mutex |
| `Kernel.RtKernel.Inherit` | kernel/rx_mutex.c:104-112 | the loop gives the owner the most urgent priority in the queue |
| `Kernel.RtKernel.MutexLock` | kernel/rx_mutex.c:194-247 | on linked queues, is the protocol's lock step, with the same result, and keeps all links and the invariant; what that step does and returns is in `CallEffects`, the timer in `TimedMutex.TimedKernel.Lock` |
| `Kernel.RtKernel.MutexUnlock` | kernel/rx_mutex.c:67-122 | is the protocol's unlock step, error returns included; the timer is the subject of `TimedMutex.TimedKernel.Unlock` |
| `Kernel.RtKernel.MutexHandler` | kernel/rx_mutex.c:125-175 | is the protocol's timeout step |
| `Kernel.RtKernel.Resumed` | kernel/rx_mutex.c:185-190 | is the protocol's return step, with its outcome |
| `Kernel.RtKernel.RemoveAgain` | kernel/rx_mutex.c:241-244 | the second removal on the timed path changes nothing |
| `Kernel.RtKernel.Sched` | kernel/rx_sched.c:20-43 | dispatches the head of the ready queue and reloads its slice |
| `Kernel.RtKernel.Preempt` | arch/x86/x86_sim.c:49-56 | is the protocol's preemption |
| `Kernel.RtKernel.Tick` | kernel/rx_timer.c:29-46 | is the protocol's tick of the time slices |
| `Kernel.RtKernel.SuspendTask` | kernel/rx_task.c:286-301 | is the protocol's suspension, of the caller if no task is named; a named task that is not READY, the running one included, is left alone |
| `Kernel.RtKernel.ResumeTask` | kernel/rx_task.c:303-312 | is the protocol's resumption, with an error for tasks that are not suspended |
| `TimedMutex.TimedKernel.Lock` | kernel/rx_mutex.c:178-253 | is the protocol's lock step, and arms the caller's timer exactly if it has to wait with a timeout; keeps "a task waits with a timeout if and only if its timer is active and enabled" |
| `TimedMutex.TimedKernel.Unlock` | kernel/rx_mutex.c:67-122 | goes through a null link if and only if the first waiter is timed and its timer is last but not first in the list; otherwise is the protocol's unlock step, takes the woken task's timer out and keeps that correspondence |
| `TimedMutex.TimedKernel.FireWait` | kernel/rx_mutex.c:125-175 | when the timer of a waiting task goes off, the guard of the protocol's timeout step holds, and removal of the timer and the handler are that step |
| `TimedMutex.HeadWaits` | kernel/rx_mutex.c:125-133 | a task whose timer is first in the list still waits, at the mutex it recorded, so the protocol's timeout step is enabled |
| `Timers.ActiveTimers.Add` | kernel/rx_timer.c:276-327 | inserts before the first timer that does not expire earlier; the list stays sorted, next and prev stay inverse |
| `Timers.ActiveTimers.Remove` | kernel/rx_timer.c:330-359 | goes through a null link exactly if the list is not empty and the timer is last but not first in it or has left it; otherwise takes the timer out with next and prev inverse |
| `Timers.ActiveTimers.StartTimer` | kernel/rx_timer.c:248-260 | arms a timer unless it is enabled |
| `Timers.ActiveTimers.StopTimer` | kernel/rx_timer.c:265-273 | disarms any timer, or faults exactly as removal does if its flag is set, a sleeper's expired timer included |
| `Timers.ActiveTimers.ExpiryPass` | kernel/rx_timer.c:72-103 | whenever the pass can end, it ends with no timer due, having fired the first due timer of the list in each round; if handlers start timers for later, these are exactly the timers due at its tick |
| `TimerQueue.PassFiresDue` | kernel/rx_timer.c:75-103 | the timers fired are, one by one, those due at the start, whatever the handlers start meanwhile |
| `TimerQueue.PassKeeps` | kernel/rx_timer.c:75-103 | timers not due stay active with their expiry |
| `TimerQueue.DueExactly` | kernel/rx_timer.c:77-99 | the due timers are the front of the sorted list, in nondecreasing order of expiry |
| `TimerQueue.Started` | kernel/rx_timer.c:248-260 | a timer that was not enabled becomes active and is due at a tick exactly if its delay has passed in 32-bit time; no other timer changes |
| `TimerQueue.OnTimeIffNoOverflow` | kernel/rx_timer.c:283-285 | it goes off at the first tick at which its delay has passed if and only if the 32-bit clock does not run over meanwhile |
| `TimerQueue.FireEffect` | kernel/rx_timer.c:77-96 | when the first timer goes off it leaves the list and loses its flag if it has a handler; the timers that the handler starts are set unless they are running, and all others are as they were |
| `TimerEnding.EndsIffNoLoop` | kernel/rx_timer.c:75-103 | the pass ends if and only if no chain of immediate restarts from a due timer comes back to one of its timers |
| `TimerEnding.BoundedIffNoLoop` | kernel/rx_timer.c:75-103 | the condition under which `ExpiryPass` may be called is that same one |
| `TimerEnding.NotBefore` | kernel/rx_timer.c:75-103 | the pass fires at least as many timers as a chain of immediate restarts from a due timer is long |
| `TimerEnding.FutureBounded` | kernel/rx_timer.c:75-103 | handlers that start timers for later only meet the condition |
| `TimerEnding.OwnRestartLoops` | kernel/rx_timer.c:75-103 | a handler that starts its own timer again with no delay makes a loop |
| `Decimal.PutDecTrunc` | lib/vsprintf.c:50-84 | writes the decimal digits of a number below 100000, least significant first, without leading zero |
| `Decimal.PutDecFull` | lib/vsprintf.c:86-126 | writes exactly five |
| `Decimal.PutDec` | lib/vsprintf.c:129-138 | writes the decimal digits of any 64-bit number, least significant first |
| `Digits.DigitsCanonical` | lib/vsprintf.c:129-138 | these have the number as value and no leading zero |
| `Digits.CanonicalUnique` | lib/vsprintf.c:129-138 | no other digits do |
| `Numerals.PutBits` | lib/vsprintf.c:202-213 | writes octal or hexadecimal digits by mask and shift |
| `Numerals.Number` | lib/vsprintf.c:158-255 | writes the layout, which is a text as the flags promise (`Numerals.LayoutFormats`), for every width, precision and combination of the unsigned flags |
| `Numerals.LayoutWidth` | lib/vsprintf.c:219-254 | the text fills the width asked for, or is as long as the number needs |
| `Numerals.LayoutFormats` | lib/vsprintf.c:158-255 | the text consists of blanks, the prefix for base and flag, zeros, the number in the digits of the case asked for, and blanks; it has at least the precision in digits and the width in all, and only the filling that the flags call for makes up the width |
| `Numerals.FormatsUnique` | lib/vsprintf.c:158-255 | no other text is like that |
| `Numerals.FormatLetters` | lib/vsprintf.c:171-173 | letters and the x of the prefix are lower case if and only if that was asked for; a number filled up with zeros has no blanks |
| `Numerals.FormatEnds` | lib/vsprintf.c:219-254 | a number set to the left does not begin with a blank, any other does not end with one |
| `Strto.Strtoull` | lib/strto.c:131-148 | the value of the longest run of digits modulo 2^64, and where it ends |
| `Strto.HexPrefix` | lib/strto.c:17-31 | "0x" or "0X" in front of a hexadecimal digit, in base 0 as in base 16, gives what follows (no second prefix) read in base 16 |
| `Strto.BarePrefix` | lib/strto.c:17-31 | without a hexadecimal digit behind it, only the zero is read in base 0, and the "0x" is skipped with value 0 in base 16 |
| `Strto.OctalPrefix` | lib/strto.c:17-31 | a zero in front of anything but x gives in base 0 what follows read in base 8 |
| `Strto.NoPrefix` | lib/strto.c:17-31 | any other text is read in base 10 in base 0 |
| `Strto.RoundTrip` | lib/strto.c:131-148 | what `number` writes for a 64-bit value, with or without prefix and zeros, is read back in the same base up to the blanks or terminator |
| `Strto.RoundTripPrefixed` | lib/strto.c:17-31 | with the prefix it is read back in base 0 as well |
| `Strto.RoundTripDecimal` | lib/strto.c:17-31 | decimal text without blanks in front is read back in base 0 if and only if it has no zeros in front or the number is below 8 |
| `Strto.TenReadAsEight` | lib/strto.c:19-26 | 10 written with precision 3 is "010" and read as 8 |
| `Utf.Encode` | lib/charset.c:52-102 | for every input, well formed or not, at most three bytes for each unit |
| `Utf.EncodeIsUtf8` | lib/charset.c:52-102 | from the UTF-16 form of a text its UTF-8 form is written: the shortest, with leading and continuing bytes in their ranges and the character's number in their payload bits |
| `Unicode.Utf8TextUnique` | lib/charset.c:52-102 | a text has one UTF-8 form only |
| `Utf.EncodeWrites` | lib/charset.c:52-102 | from any input the UTF-8 form of its characters is written, stray surrogates being question marks, as far as the steps of the loop go, of which a stray high surrogate takes two |
| `Utf.WholeIffPaired` | lib/charset.c:52-102 | that is the whole text if and only if every high surrogate has its partner |
| `Utf.LastUnitLost` | lib/charset.c:68-73 | D800 followed by the letter a comes out as a question mark alone |
| `Utf.DecodeIsUtf16` | lib/charset.c:104-158 | from the UTF-8 form of a text its UTF-16 form is written, up to its first zero |
| `Unicode.Utf16TextUnique` | lib/charset.c:104-158 | a text has one UTF-16 form only |
| `Utf.DecodeFull` | lib/charset.c:104-158 | a leading byte with as many continuing bytes as it asks for stands for its payload bits, even if the form is not the shortest |
| `Utf.DecodeCut` | lib/charset.c:133-144 | if the input ends before, the bits read so far are written |
| `Utf.DecodeBroken` | lib/charset.c:133-144 | if another byte comes before, a question mark stands for all of them, that byte included |
| `Utf.DecodeStuck` | lib/charset.c:116-131 | from an illegal leading byte on, only question marks are written |
| `Utf.RoundTrip` | lib/charset.c:52-158 | between the forms of a text without zeros the converters translate both ways |
| `Utf.ThereAndBack` | lib/charset.c:52-158 | decoding what the encoder writes gives well-formed text without zeros back |
| `Charset.Utf16ToUtf8` | lib/charset.c:52-102 | the loop with its bit operations computes that encoding: UTF-8 for well-formed text |
| `Charset.Utf8ToUtf16` | lib/charset.c:104-158 | the loop computes that decoding, on ill-formed input too: UTF-16 for UTF-8 |

## Left out

- Context switching, interrupt entry, critical flags, signal simulation and start-up: machine level; a switch is "the head of the ready queue runs". The flag `__rx_need_resched` is not modelled: a preemption may occur at any time.
- `rb_replace_node`, `rb_init_node`, `iter_div_u64_rem` and `lldiv`: would only add easy members.
- `div64_s64`: it takes `abs()` of 64-bit values, which that macro does not support.
- `mul_u64_u32_shr` with shifts above 32: undefined in C, which shifts by a negative number.
- ARM division assembly: the argument of `__div64_32` at register level.
- Queues, semaphores, event groups, wait queues, block pools and tasklets: their laws do not describe the code as it stands.
- Mutex deletion, nested mutexes, `rx_set_task_prio`, task creation, completion, abortion and deletion: priority inheritance does not follow them.
- `TimedMutex.TimedKernel.Unlock`: says nothing about the state after the null access. A pass in which timeouts of mutex waits alternate with other handlers is not modelled; `FireWait` is one of its rounds.
- `Kernel.RtKernel.Tick`: `jiffies` and the wake-up of the timer thread are not modelled, only the time slices.
- `Timers.ActiveTimers.Remove`: says nothing about the links after the null access.
- `Timers.ActiveTimers.ExpiryPass`: handlers start timers and do nothing else to the list; handlers that stop timers are not modelled.
- `Numerals.Number`: the SIGN, PLUS and SPACE flags and the end of the output buffer are not modelled.
- `Strto.Strtoull`: `isxdigit` and its kin are the ASCII ones; the character table is not part of this model.
- Format parsing, device and interrupt tables, logging, the terminal and simple string routines.
