# Zinc kernel primitives and K20 drivers in Dafny

This project models the core of the Zinc embedded runtime for ARM
Cortex-M and proves properties about it. The core has three layers:

- two intrusive data structures:
  - the FIFO / priority `Queue` of `src/lib/queue.rs`;
  - the singly linked list `ListCell` of `src/lib/linked_list.rs`.
- two kernel synchronisation primitives built on them:
  - the condition variable of `src/os/cond_var.rs` (`wait`, `wait_many`,
    `signal`, `broadcast`);
  - the blocking mutex of `src/os/mutex.rs` (`lock`, `unlock`, and the
    `MutexLock` guard).
- two Kinetis K20 peripheral drivers on top:
  - the low-power-timer timebase of `src/hal/k20/lptmr.rs`: a 16-bit
    hardware counter extended to 32-bit milliseconds, a deadline queue of
    sleeping tasks, the compare-match interrupt and the reference-counted
    `TimebaseRef`;
  - the interrupt-driven I2C master of `src/hal/k20/i2c.rs`: `write`, `read`,
    `finish` and the per-byte interrupt state machine.

There is one Dafny module per source file, plus a small `Common` module:

| file | module | models |
|---|---|---|
| `common.dfy` | `Common` | `Option`, task ids and statuses, 32-bit helpers, `NoDup`, `IndexOf` |
| `queue.dfy` | `Queues` | `src/lib/queue.rs` |
| `linked_list.dfy` | `LinkedLists` | `src/lib/linked_list.rs` |
| `cond_var.dfy` | `CondVars` | `src/os/cond_var.rs` |
| `mutex.dfy` | `Mutexes` | `src/os/mutex.rs` |
| `lptmr.dfy` | `Lptmr` | `src/hal/k20/lptmr.rs` |
| `i2c.dfy` | `I2c` | `src/hal/k20/i2c.rs` |

How the model abstracts the source:

- Pointer structures are abstracted to sequences.
  - A queue is the sequence of its nodes from `head`. The `tail` pointer
    is kept as a separate field, because the source lets it go stale.
  - A list is the sequence of nodes reachable from its head cell. Nodes
    are identities, so no node occurs twice (`NoDup`).
- Tasks and the scheduler are reduced to a map from task to status,
  `Runnable` or `Blocked`. "The task runs again" is a separate step.
- Critical sections (`NoInterrupts`, `disable_irqs`) make each operation
  atomic. So every operation is one function from state to state.
- Hardware registers become fields and inputs:
  - each read of the LPTMR counter is a parameter;
  - each write of the compare register is a result;
  - in the I2C controller, C1 is a `bv8` field, every byte written to D is
    appended to a log, reads of D are counted, and the status register S
    arrives as an input per interrupt.
- Integer widths are explicit:
  - `Time.raw`, `ref_count` and the I2C remaining-byte counter are 32-bit
    and wrap like the source's unchecked arithmetic;
  - the LPTMR counter is 16-bit.

Where the source's own comments and its code disagree, the model follows
the code:

- The ordered `insert` says "higher ends up closer to head", but the loop
  sorts ascending. The model inserts ascending and stable.
- Where a doc comment states the intent and the code does not meet it,
  both are modelled. These cases are listed under "Findings".

Each such defect is modelled twice:

- as written, with a lemma exhibiting the discrepancy;
- corrected, with the intended property proved.

The rest of the model builds on the corrected definitions:

- `CondVars` pops its wait queue with the corrected `Queues.Pop`.
- `Mutexes` parks waiters with the corrected `LinkedLists.Append`.
- `Lptmr` pops its timeout queue with the corrected `Queues.Pop`.

## Model

| member | source | states |
|---|---|---|
| `Queues.New` | src/lib/queue.rs:55-60 | a new queue is empty and well formed: `peek` and `pop` give nothing |
| `Queues.Push` | src/lib/queue.rs:63-73 | the node joins the queue last, the tail points at it, and it becomes the head only if the queue was empty |
| `Queues.Peek` | src/lib/queue.rs:76-83 | `peek` gives nothing exactly when the queue is empty, and otherwise gives the head node without removing it |
| `Queues.PopAsWritten` | src/lib/queue.rs:86-94 | `pop` as written removes the head from the chain but leaves `tail` untouched, and returns the node after the removed head (a null pointer when that head was the only node) |
| `Queues.PopAsWrittenReturnsSuccessor` | src/lib/queue.rs:91-92 | as written, popping from `a, b` returns `b`, which stays queued, and popping a single node returns a null pointer; the corrected pop returns `a` |
| `Queues.PopAsWrittenLeavesStaleTail` | src/lib/queue.rs:86-94 | as written, after the only node is popped the tail still points at it, so the next `push` relinks a node that is no longer queued |
| `Queues.Pop` | src/lib/queue.rs:85-94 | pop returns the removed head (nothing when the queue is empty), leaves the rest in order and keeps the tail invariant |
| `Queues.PushRelinksQueued` | src/lib/queue.rs:67-72 | with the corrected pop, the node whose link `push` overwrites is always the last queued node |
| `Queues.InsertPos` | src/lib/queue.rs:100-110 | the insert walk stops at the first node whose key is strictly greater than the new key; every node it passes has a key at most the new key |
| `Queues.Insert` | src/lib/queue.rs:99-116 | insert adds exactly the new node at the walk's stopping point, keeps every other node in order and keeps a sorted queue sorted and the tail correct |
| `Queues.InsertIsStable` | src/lib/queue.rs:98-112 | on a sorted queue, insert equals an independent definition: the nodes with keys at most the new key, then the new node, then the greater ones, each part in arrival order |
| `Queues.PushThenPopIsFifo` | src/lib/queue.rs:62-94 | pushing any sequence onto a new queue and popping until empty returns the same sequence |
| `Queues.InsertOrderExample` | src/lib/queue.rs:99-116 | inserting deadlines 5, 1, 3 pops them as 1, 3, 5 |
| `Queues.InsertTieExample` | src/lib/queue.rs:106-109 | two equal deadlines pop in arrival order |
| `LinkedLists.IterOf` | src/lib/linked_list.rs:84-89 | the iterator of a list starts on its first node, and its cursor is empty exactly when the list is empty |
| `LinkedLists.Next` | src/lib/linked_list.rs:134-148 | `next` as written moves the cursor forward whenever it yields a node, so iteration ends |
| `LinkedLists.Yields` | src/lib/linked_list.rs:134-148 | as written, the iterator yields the nodes from the cursor up to, but not including, the final node |
| `LinkedLists.IterSkipsFinalNode` | src/lib/linked_list.rs:138-146 | as written, iterating a list never yields its final node, and a one-node list yields nothing |
| `LinkedLists.NextFixed` | src/lib/linked_list.rs:135-147 | the corrected `next` yields a node exactly when the cursor is on one, and moves to its successor |
| `LinkedLists.IterFixedYieldsAll` | src/lib/linked_list.rs:83-89 | the corrected iterator yields every node of the list, in order |
| `LinkedLists.LastLoop` | src/lib/linked_list.rs:71-79 | the loop of `last`, driven by the iterator as written, ends on the second-to-last node |
| `LinkedLists.LastAsWrittenIsSecondToLast` | src/lib/linked_list.rs:69-80 | `last` as written returns the second-to-last node of a list of two or more, and nothing for a list of one |
| `LinkedLists.LastLoopFixed` | src/lib/linked_list.rs:71-79 | the loop of `last`, driven by the corrected iterator, ends on the final node |
| `LinkedLists.LastAsWritten` | src/lib/linked_list.rs:68-80 | `last` as written gives nothing exactly for a list of at most one node, and otherwise the second-to-last node, because the iterator never yields the final one |
| `LinkedLists.Last` | src/lib/linked_list.rs:68-80 | `last` gives nothing exactly for the empty list, and otherwise gives the final node |
| `LinkedLists.New` | src/lib/linked_list.rs:26-28 | a new list cell heads an empty list: `head` and `pop` give nothing |
| `LinkedLists.AppendAsWritten` | src/lib/linked_list.rs:30-38 | `append` as written puts the new node in place of the old final node |
| `LinkedLists.AppendAsWrittenDropsLast` | src/lib/linked_list.rs:31-37 | as written, appending `c` to `a, b` gives `a, c`, and appending `c` to `a` gives `c` |
| `LinkedLists.Append` | src/lib/linked_list.rs:30-38 | `append` adds the node at the end: the old nodes in order, then the new one, which is now `last` |
| `LinkedLists.Prepend` | src/lib/linked_list.rs:40-50 | `prepend` puts the node first and keeps the old nodes after it in order; the nodes stay distinct |
| `LinkedLists.Pop` | src/lib/linked_list.rs:52-62 | `pop` unlinks and returns the first node, or nothing for an empty list |
| `LinkedLists.Head` | src/lib/linked_list.rs:64-66 | `head` gives the first node without changing the list, or nothing exactly when it is empty |
| `LinkedLists.PopUndoesPrepend` | src/lib/linked_list.rs:40-62 | `pop` after `prepend` returns the prepended node and the original list |
| `LinkedLists.PopAfterAppend` | src/lib/linked_list.rs:30-62 | `pop` after `append` returns the old first node and leaves the rest with the node appended, so a list filled by `append` empties in FIFO order |
| `LinkedLists.RemoveLoop` | src/lib/linked_list.rs:112-124 | the loop of `remove` as written finds and unlinks the target only when it is before the final node |
| `LinkedLists.RemoveAsWritten` | src/lib/linked_list.rs:110-125 | `remove` as written unlinks the first occurrence of the target when it is not the final node, and otherwise reports it missing |
| `LinkedLists.RemoveAsWrittenMissesFinalNode` | src/lib/linked_list.rs:114-124 | as written, removing the final node reports it missing and leaves the list unchanged |
| `LinkedLists.RemoveLoopFixed` | src/lib/linked_list.rs:112-124 | the loop of `remove`, driven by the corrected iterator, finds the target wherever it is |
| `LinkedLists.Remove` | src/lib/linked_list.rs:110-125 | `remove` unlinks the first occurrence of the target and returns it, keeping the other nodes in order; it returns nothing exactly when the target is absent, and then the list is unchanged |
| `LinkedLists.RemoveUndoesAppend` | src/lib/linked_list.rs:110-125 | removing a node just appended gives back the list it was appended to |
| `LinkedLists.InsertAfterAsWritten` | src/lib/linked_list.rs:127-130 | as written, `insert_after` appends (as written) to the nodes following `after`: with at most one follower the new node replaces it, and with two or more it replaces the final node, the rest kept in order; either way the new node ends up last rather than directly after `after` |
| `LinkedLists.InsertAfterAsWrittenExample` | src/lib/linked_list.rs:127-130 | as written, inserting `v` after `a` in `a, b, c` gives `a, b, v` |
| `LinkedLists.InsertAfter` | src/lib/linked_list.rs:127-130 | `insert_after` places the node directly after `after` and keeps every other node in place |
| `LinkedLists.RemoveUndoesInsertAfter` | src/lib/linked_list.rs:127-130 | removing a node just inserted after another gives back the original list |
| `CondVars.New` | src/os/cond_var.rs:63-65 | a new condition variable has nobody waiting |
| `CondVars.Wait` | src/os/cond_var.rs:68-84 | `wait` queues the caller last with a fresh empty slot and blocks it; no other slot or task changes |
| `CondVars.FirstUnsignalled` | src/os/cond_var.rs:110-123 | reference definition for `signal`: the first queued entry whose slot is still empty, every entry before it already signalled elsewhere |
| `CondVars.Signal` | src/os/cond_var.rs:107-125 | `signal` wakes the task of the first entry with an empty slot and sets that slot to this condition variable; it discards the entries before it, leaves the rest queued and changes nothing else; with no such entry it empties the queue and wakes nobody |
| `CondVars.SignalWritesOnlyEmptySlots` | src/os/cond_var.rs:113-120 | `signal` never overwrites a slot that is already set, so a `wait_many` task is claimed by one condition variable only |
| `CondVars.SignalEmptyIsNoop` | src/os/cond_var.rs:111-112 | signalling a condition variable nobody waits on changes nothing |
| `CondVars.SignalKeepsFresh` | src/os/cond_var.rs:107-125 | when every queued entry is a plain unsignalled `wait`, `signal` wakes the head and the remaining queue has the same property |
| `CondVars.SignalAsWritten` | src/os/cond_var.rs:107-125 | `signal` over the `pop` as written: on an empty queue nothing changes; otherwise it skips the head entry, wakes the task of the first later entry with an empty slot and sets that slot, leaving it and the entries after it queued; with no such later entry it dereferences a null pointer |
| `CondVars.SignalAsWrittenSkipsHead` | src/os/cond_var.rs:107-125 | as written, with plain waiters `a, b, c` the first `signal` wakes `b`, the second `c`, the third dereferences a null pointer, and `a` is never woken |
| `CondVars.BroadcastAsWritten` | src/os/cond_var.rs:128-145 | `broadcast` over the `pop` as written finishes without change exactly when nobody waits, and otherwise ends by dereferencing a null pointer |
| `CondVars.WaitKeepsFresh` | src/os/cond_var.rs:67-84 | a plain `wait` with a slot no queued entry uses keeps every queued entry a plain unsignalled `wait` with a valid slot |
| `CondVars.SignalsWakeInArrivalOrder` | src/os/cond_var.rs:67-125 | plain waiters are woken one per `signal`, in the order they called `wait`: the tasks woken by the first `n` signals are exactly the tasks of the first `n` queued entries, in queue order |
| `CondVars.SignalsInOrder` | src/os/cond_var.rs:107-125 | signalling a queue of plain waiters once per entry wakes every queued task, each once, in queue order |
| `CondVars.SignalPrefix` | src/os/cond_var.rs:107-125 | successive signals never revise an earlier wake-up: the tasks woken by fewer signals are a prefix of those woken by more |
| `CondVars.SignalAllSignalled` | src/os/cond_var.rs:110-123 | when every queued entry's slot is already set, `signal` wakes nobody and writes no slot |
| `CondVars.SignalHead` | src/os/cond_var.rs:114-119 | when the head entry's slot is empty, `signal` wakes exactly that entry's task |
| `CondVars.WaitQueuesInArrivalOrder` | src/os/cond_var.rs:77-82 | three `wait` calls queue their callers in call order, each with its own empty slot |
| `CondVars.Broadcast` | src/os/cond_var.rs:128-145 | `broadcast` empties the queue. Every slot that was empty when its entry was queued is set to this condition variable. The woken tasks are exactly the tasks of entries with empty slots, each woken once. Exactly the woken tasks become runnable. |
| `CondVars.PushEachItems` | src/os/cond_var.rs:90-93 | after the registration loop of `wait_many`, each condition variable's queue has gained one entry per registration on it, all sharing the caller's slot |
| `CondVars.WaitManyEnter` | src/os/cond_var.rs:86-94 | `wait_many` registers the caller on every listed condition variable with one shared empty slot and blocks it |
| `CondVars.WaitManyWake` | src/os/cond_var.rs:96-102 | the woken `wait_many` returns the value of the first registration on the condition variable that signalled it, and aborts exactly when none matches |
| `CondVars.WaitManyReportsTheSignaller` | src/os/cond_var.rs:86-125 | a task registered on `A` then `B` and woken by `signal` on `B` gets `B`'s value, and `A`'s later signal skips its stale entry |
| `Mutexes.Unlocked` | src/hal/k20/i2c.rs:51 | a statically initialised mutex starts with no owner and no waiters |
| `Mutexes.LockEnter` | src/os/mutex.rs:26-37 | `lock` claims a free mutex at once; on a held mutex it blocks the caller and queues it last behind the other waiters |
| `Mutexes.LockEnterAsWritten` | src/os/mutex.rs:26-37 | with `append` as written, `lock` claims a free mutex at once; on a held mutex it blocks the caller and puts it in place of the last queued waiter (or first, when nobody waits) |
| `Mutexes.LockResume` | src/os/mutex.rs:40 | a resumed `lock` makes the caller the owner without checking whether someone else already owns the mutex |
| `Mutexes.Unlock` | src/os/mutex.rs:44-54 | `unlock` clears the owner and makes the first waiter runnable, removing it from the queue |
| `Mutexes.UnlockHandoff` | src/os/mutex.rs:44-54 | the corrected `unlock` hands ownership straight to the first waiter and makes it runnable, or frees the mutex when nobody waits |
| `Mutexes.GuardRoundTrip` | src/os/mutex.rs:59-71 | taking a `MutexLock` on a free mutex and dropping it gives back a free mutex |
| `Mutexes.GuardWaitsForHolder` | src/os/mutex.rs:26-54 | a contended `MutexLock` parks behind the holder, and the holder's drop hands the mutex to it |
| `Mutexes.Lock` | src/os/mutex.rs:26-42 | a task calling `lock` holds the mutex if it was free, becoming its owner with the waiters untouched; otherwise it parks, blocked, at the end of the waiting list; other tasks are unaffected |
| `Mutexes.Resume` | src/os/mutex.rs:36-41 | a parked task that runs again becomes owner and holder; the waiting list, the task statuses and every other task stay as they were |
| `Mutexes.ReleaseAsWritten` | src/os/mutex.rs:44-54 | the holder's `unlock` as written leaves the mutex without an owner, makes the first waiter runnable and removes it from the list, and leaves the other tasks where they were |
| `Mutexes.Release` | src/os/mutex.rs:44-54 | the holder's corrected `unlock` makes it idle and leaves every other task where it was |
| `Mutexes.TwoHoldersAsWritten` | src/os/mutex.rs:26-54 | as written, after `a` locks, `b` parks, `a` unlocks and relocks, and `b` resumes, both `a` and `b` hold the mutex |
| `Mutexes.LostWaiterAsWritten` | src/os/mutex.rs:30-36 | with `append` as written, a second task parking behind a holder evicts the first from the wait queue, and the first is never woken |
| `Mutexes.InvInitial` | src/os/mutex.rs:20-23 | a free mutex with idle tasks satisfies the ownership invariant |
| `Mutexes.MutualExclusion` | src/os/mutex.rs:26-54 | under the invariant, at most one task holds the mutex |
| `Mutexes.LockKeepsInv` | src/os/mutex.rs:26-37 | `lock` keeps the invariant |
| `Mutexes.ResumeKeepsInv` | src/os/mutex.rs:36-41 | with the handing-off `unlock`, a runnable parked task already owns the mutex, so resuming keeps the invariant |
| `Mutexes.ReleaseKeepsInv` | src/os/mutex.rs:44-54 | the handing-off `unlock` keeps the invariant and passes ownership to the first waiter, or frees the mutex |
| `Lptmr.Epoch` | src/hal/k20/lptmr.rs:89-91 | a time splits into a 16-bit epoch and a 16-bit counter part that recompose it |
| `Lptmr.Add` | src/hal/k20/lptmr.rs:39-43 | adding a delta adds milliseconds modulo 2^32 |
| `Lptmr.BeforeIsTotalOrder` | src/hal/k20/lptmr.rs:32-34 | the derived ordering of `Time` is a strict total order |
| `Lptmr.TimeoutOrderIsKeyOrder` | src/hal/k20/lptmr.rs:50-58 | timeouts compare by deadline only: the queue's less-or-equal test on timeouts is the order of their deadlines |
| `Lptmr.Initial` | src/hal/k20/lptmr.rs:68-85 | the timebase starts with no timeouts, time zero and no references |
| `Lptmr.UpdateCurTime` | src/hal/k20/lptmr.rs:87-99 | the new time's counter part is the reading; its epoch advances by one, modulo 2^16, exactly when the reading is below the stored counter part |
| `Lptmr.UpdateCurTimeIdempotent` | src/hal/k20/lptmr.rs:87-99 | reading the same counter value again leaves the time unchanged |
| `Lptmr.UpdateCurTimeMonotone` | src/hal/k20/lptmr.rs:94-97 | until the epoch is exhausted, the time never runs backwards, and it strictly advances when the counter has wrapped |
| `Lptmr.UpdateCurTimeTracksElapsed` | src/hal/k20/lptmr.rs:87-99 | if fewer than 2^16 ticks elapsed since the stored time, the new time is the stored time plus the elapsed ticks |
| `Lptmr.Reschedule` | src/hal/k20/lptmr.rs:118-138 | nothing is written to the compare register exactly when no timeout is queued and nobody holds the timebase; otherwise it gets the head's counter part, or the current one when the head is more than a period away or nothing is queued |
| `Lptmr.RescheduleFiresByDeadline` | src/hal/k20/lptmr.rs:128-136 | counting from the stored time, the first compare match comes no later than the head deadline, and exactly at it when the deadline is within one period |
| `Lptmr.Delay` | src/hal/k20/lptmr.rs:102-116 | `delay` stamps the timeout with the current time plus the delay and inserts it in deadline order; it reprograms the compare register exactly when the new timeout's deadline equals the head's |
| `Lptmr.DelayReschedulesIffEarliest` | src/hal/k20/lptmr.rs:109-113 | on a sorted queue, `delay` reprograms the compare register exactly when no queued deadline is earlier than the new one |
| `Lptmr.FireDue` | src/hal/k20/lptmr.rs:143-153 | the handler loop fires a prefix of the queue in order, each timeout only when the time read just before it is not earlier than its deadline, and stops at the first deadline after the time it read, reading the counter once per fired timeout plus once |
| `Lptmr.FireDueReadsClock` | src/hal/k20/lptmr.rs:143-153 | the times at which the handler loop fires its timeouts, followed by the time it stores, are the successive results of `update_cur_time` on the successive counter readings |
| `Lptmr.LptHandler` | src/hal/k20/lptmr.rs:140-155 | the handler signals the condition variables of a prefix of the queue in deadline order, each only once the time read before it has reached its deadline, keeps the later deadlines queued, stores the last time read and reschedules once; the times read are the successive results of `update_cur_time` |
| `Lptmr.FireDueWithStoppedClock` | src/hal/k20/lptmr.rs:143-153 | with the counter at the stored time, every fired timeout is due at the stored time and, on a sorted queue, every remaining one is later |
| `Lptmr.StoppedClock` | src/hal/k20/lptmr.rs:87-99 | when every counter reading equals the stored counter part, each successive `update_cur_time` returns the stored time |
| `Lptmr.RefAcquire` | src/hal/k20/lptmr.rs:162-169 | creating a `TimebaseRef` increments the reference count (modulo 2^32) and changes nothing else |
| `Lptmr.RefRelease` | src/hal/k20/lptmr.rs:171-177 | dropping a `TimebaseRef` decrements the reference count (modulo 2^32) and changes nothing else |
| `Lptmr.RefReleaseUndoesAcquire` | src/hal/k20/lptmr.rs:162-177 | creating and dropping a reference, in either order, restores the state |
| `Lptmr.RefCountIsLive` | src/hal/k20/lptmr.rs:162-177 | after any history of creations and drops that never goes negative or past 2^32 - 1, the count is the number of live references |
| `Lptmr.CurrentTime` | src/hal/k20/lptmr.rs:180-183 | `current_time` returns the time at the counter reading, stores it, and (while the epoch has room) never goes backwards |
| `I2c.AddressByte` | src/hal/k20/i2c.rs:87 | an address byte holds the 7-bit address above a direction bit, which is 1 exactly for a read |
| `I2c.WriteStart` | src/hal/k20/i2c.rs:81-95 | `write` enables the module in master transmit mode, sends the address byte for writing, and publishes a transmit state over the whole buffer |
| `I2c.ReadStartAsWritten` | src/hal/k20/i2c.rs:97-111 | `read` as written sends the address byte with the direction bit clear and publishes a receive-start state over the whole buffer |
| `I2c.ReadAsWrittenAddressesForWrite` | src/hal/k20/i2c.rs:103 | as written, a read puts on the bus the same address byte as a write, with the read bit clear |
| `I2c.ReadStart` | src/hal/k20/i2c.rs:97-111 | the corrected `read` sends the address byte with the direction bit set |
| `I2c.ReadAndWriteAddressDiffer` | src/hal/k20/i2c.rs:87-103 | a corrected read and a write to the same address send bytes that differ only in the direction bit |
| `I2c.FinishOf` | src/hal/k20/i2c.rs:68-79 | `finish` reports success exactly when idle, the error exactly when failed, and aborts while a transfer is in progress |
| `I2c.IrqAsWritten` | src/hal/k20/i2c.rs:124-179 | the handler as written aborts exactly when idle or failed, fails on a NACK and signals, and leaves C1 unchanged when a transfer ends; after a read's address byte it clears TX, reads D once and enters the receive state with the count unchanged, even for zero bytes; a transmit step sends `*d` and ends exactly when no bytes remained |
| `I2c.IrqRxAsWritten` | src/hal/k20/i2c.rs:141-161 | the receive branch as written stores D and ends after the last byte; otherwise it sets TXAK in C1 exactly when two bytes remain (C1 is otherwise unchanged), stores into the same byte a second time after reading D again, and counts down with 32-bit wrap-around; nothing is sent |
| `I2c.WriteAsWrittenSendsPastEnd` | src/hal/k20/i2c.rs:166-177 | as written, a fully acknowledged write succeeds but sends the byte after the end of the buffer |
| `I2c.ZeroLengthReadAsWrittenOverruns` | src/hal/k20/i2c.rs:136-160 | as written, a zero-length read does not finish: the count wraps to 2^32 - 1 and two stores land in the empty buffer |
| `I2c.RxAsWrittenReadsTwice` | src/hal/k20/i2c.rs:142-157 | as written, each received byte other than the last reads D twice |
| `I2c.OneByteReadAsWrittenAcks` | src/hal/k20/i2c.rs:136-140 | as written, a one-byte read receives its only byte without arming the NACK |
| `I2c.EndAsWrittenKeepsC1` | src/hal/k20/i2c.rs:144-173 | as written, a transfer ends with C1 unchanged, so master mode stays on and no STOP is sent |
| `I2c.ArmNack` | src/hal/k20/i2c.rs:153 | setting TXAK arms the NACK and leaves master mode as it was |
| `I2c.End` | src/hal/k20/i2c.rs:144-173 | ending a transfer sets the outcome, signals the waiter once and releases the bus by clearing MST and TXAK |
| `I2c.Irq` | src/hal/k20/i2c.rs:124-179 | the corrected handler aborts exactly when idle or failed. A NACK fails the transfer and releases the bus. The waiter is signalled exactly when a transfer ends. TXAK is armed before the last byte of a read. Every transmit step sends one byte. |
| `I2c.IrqRxStart` | src/hal/k20/i2c.rs:131-140 | after a read's address byte: a NACK fails; a zero-length read ends; otherwise the controller turns to receive, arms the NACK if only one byte is wanted, and reads D once to start |
| `I2c.IrqRx` | src/hal/k20/i2c.rs:141-161 | each received byte is stored once, at its index in the buffer (or logged as an overrun past its end); D is read once; the NACK is armed when one byte is left and C1 is otherwise unchanged; the transfer ends after the last byte |
| `I2c.IrqTx` | src/hal/k20/i2c.rs:162-177 | a transmit step fails on a NACK, ends once the buffer is sent, and otherwise sends the next byte of the buffer |
| `I2c.TxRun` | src/hal/k20/i2c.rs:166-177 | from any point of a transmit, acknowledged interrupts send exactly the rest of the buffer and end the transfer |
| `I2c.WriteSendsBuffer` | src/hal/k20/i2c.rs:81-95 | a fully acknowledged write succeeds, sends exactly the address byte and the buffer, signals once and sends STOP |
| `I2c.WriteAddressNack` | src/hal/k20/i2c.rs:162-165 | a write whose address is not acknowledged fails with `Nack` after sending only the address |
| `I2c.RxRun` | src/hal/k20/i2c.rs:141-161 | from any point of a receive, the remaining interrupts store their bytes in order, read D once each, and end the transfer with the bus released |
| `I2c.ReadFillsBuffer` | src/hal/k20/i2c.rs:97-111 | a read of at least one byte succeeds and fills the buffer with exactly the bytes received, in order. D is read once per byte plus once, nothing is stored outside the buffer, and STOP is sent. |
| `I2c.ZeroLengthReadEnds` | src/hal/k20/i2c.rs:136-140 | a corrected zero-length read ends successfully after the address byte without reading D or storing anything |
| `I2c.RxReadsOnce` | src/hal/k20/i2c.rs:155-157 | the corrected receive step reads D once per byte |

## Left out

- `src/lib/shared.rs`, the register macros of `src/macro/ioreg.rs`, the
  applications under `apps/`, and interrupt vector wiring are not part of
  this model.
- Task switching is not modelled. The scheduler, the task descriptor and
  `Tasks.current_task()` become a task id parameter and a status map. The
  moment a blocked task runs again is a separate step (`Mutexes.Resume`)
  or is left implicit.
- Interleavings inside critical sections are not modelled. Each
  operation is atomic, as `NoInterrupts` and `disable_irqs` make it.
- The lost-wakeup window is not modelled. `delay`, `write` and `read`
  publish their state, leave the critical section, and only then call
  `wait`. An interrupt in between would signal nobody.
- Nested I2C interrupts are not modelled (`src/hal/k20/i2c.rs:125`).
- Busy-waiting on `S.BUSY` before a transfer is not modelled
  (`src/hal/k20/i2c.rs:85`, `src/hal/k20/i2c.rs:101`). It has no effect
  on state.
- `I2C::start` and the `Context` guard are not modelled separately
  (`src/hal/k20/i2c.rs:62-64`). They only take the I2C mutex, which
  `Mutexes` models.
- `setup` of the LPTMR (clock gate and prescaler) is not modelled
  (`src/hal/k20/lptmr.rs:185-188`). It is register plumbing.
- `Node::new` is not modelled (`src/lib/queue.rs:120-122`). A queued node
  is identified with its payload.
- `WaitMany::new` is not modelled (`src/os/cond_var.rs:38-49`). It is the
  record constructor. The current task is a parameter of
  `CondVars.WaitManyEnter`.
- Stack-allocated entries that go out of scope are not modelled. Queue
  and list nodes are values.
- `LinkedLists.Prepend`: on an empty list the source does not clear the
  new node's link (`src/lib/linked_list.rs:44`). The model assumes a node
  outside any list already has a cleared link.
- `CondVars.WaitManyWake` compares condition variables by identity. The
  source compares `&wait.var`, the address of the reference field, with
  the stored pointer (`src/os/cond_var.rs:98`). Taken literally this never
  matches, and every `wait_many` would abort. The model uses the evident
  intent.
- `CondVars.Broadcast` promises that every unsignalled task is woken only
  under `SlotOwner`. `SlotOwner` means entries share a slot exactly when
  they belong to the same task, which is how `wait` and `wait_many` build
  them. Without it the property does not hold.
- `Lptmr.FireDue` pops with the corrected `Queues.Pop`, so it promises a
  well-formed queue afterwards. The handler's `pop` as written leaves
  `tail` on the last fired node when it empties the queue. No timebase
  operation can observe this: `insert`, `peek` and `pop` never read
  `tail`, and `insert` rewrites it whenever the new node ends up last.
  The items that remain queued are the same either way.
- `Lptmr.LptHandler` returns the condition variables to signal, in order.
  It does not apply `CondVars.Signal` to each. What one signal does is
  modelled by `CondVars.Signal`.
- In `Lptmr`, the bit operations of the source are written as their
  arithmetic meaning on unbounded integers: masking as `%`, shifting as
  `/` and `*`. The counter register is read as a 16-bit value.
- `Lptmr.UpdateCurTimeMonotone` and `Lptmr.CurrentTime` promise
  monotonicity only while the epoch is below its maximum. At epoch 0xffff,
  when the counter has wrapped, the epoch wraps to 0 and the new time is
  just the counter reading, so time runs backwards.
- `Lptmr.RefAcquire` and `Lptmr.RefRelease` state the increment and
  decrement only away from the 32-bit boundary. At the boundary the
  source's unchecked arithmetic wraps, and `RefReleaseUndoesAcquire`
  covers that case.
- In `I2c`, a read of D returns the same byte throughout one interrupt.
  The second read of the as-written receive branch therefore stores the
  same value again. On hardware it would start the next byte.
- `CondVars.Signal`, `CondVars.Broadcast` and
  `CondVars.SignalsWakeInArrivalOrder` describe `signal` and `broadcast`
  over the corrected `Queues.Pop`. The source's `pop` returns the node
  after the removed head, so as written `signal` skips the head entry and
  dereferences a null pointer when no later entry is free, and `broadcast`
  on a non-empty queue always ends in a null dereference. These as-written
  behaviours are `CondVars.SignalAsWritten`, `CondVars.BroadcastAsWritten`
  and `CondVars.SignalAsWrittenSkipsHead`.
- `Mutexes.Lock` and `Mutexes.Resume` require the calling task to be
  runnable: only a running task calls `lock`, and the scheduler runs only
  runnable tasks.
- `LinkedLists.AppendAsWritten` and `LinkedLists.InsertAfterAsWritten`
  require that the node is not already in the list, as every caller in
  the source ensures. Relinking a node that is already linked could make
  the chain cyclic, which a sequence cannot represent.
- In `I2c`, waking the task is counted in `signals` rather than modelled
  through `CondVars`.

## Findings

| source | as written | input that shows it | evidently intended | confidence | as-written member | corrected member |
|---|---|---|---|---|---|---|
| src/lib/queue.rs:91-92 | `pop` advances `head` and returns the new head | queue `a, b`: `pop` returns `b`, which stays queued; queue `a`: it returns a null pointer, which `signal` then dereferences | return the removed head ("Pop off of head") | not executed; high | `Queues.PopAsWrittenReturnsSuccessor` | `Queues.Pop` |
| src/lib/queue.rs:86-94 | `pop` never clears `tail` | push `a`, pop, push `x`: `push` writes `a`'s link although `a` left the queue | clear `tail` when the queue empties | not executed; medium | `Queues.PopAsWrittenLeavesStaleTail` | `Queues.PushRelinksQueued` |
| src/lib/linked_list.rs:138-146 | `next` yields the current node only if it has a successor | list `a`: nothing is yielded; list `a, b`: only `a` | yield every node, the final one included | not executed; high | `LinkedLists.IterSkipsFinalNode` | `LinkedLists.IterFixedYieldsAll` |
| src/lib/linked_list.rs:68-80 | `last` returns the last node the iterator yields | list `a, b`: `last` returns `a`; list `a`: nothing | return the final node ("Return the last value in the list") | not executed; high | `LinkedLists.LastAsWrittenIsSecondToLast` | `LinkedLists.Last` |
| src/lib/linked_list.rs:30-38 | `append` links after the node `last` returns | appending `c` to `a, b` gives `a, c`, and `b` is lost | add to the end ("Add an element to the end of the list") | not executed; high | `LinkedLists.AppendAsWrittenDropsLast` | `LinkedLists.Append` |
| src/lib/linked_list.rs:110-125 | `remove` walks with the iterator, which never yields the final node | removing `b` from `a, b` returns nothing and leaves `b` linked | unlink the node wherever it is | not executed; high | `LinkedLists.RemoveAsWrittenMissesFinalNode` | `LinkedLists.Remove` |
| src/lib/linked_list.rs:127-130 | `insert_after` runs `append` on the list headed by `after`'s own link cell | inserting `v` after `a` in `a, b, c` gives `a, b, v` | `a, v, b, c` ("Insert the given value after the current value") | not executed; high | `LinkedLists.InsertAfterAsWrittenExample` | `LinkedLists.InsertAfter` |
| src/os/cond_var.rs:107-125 | `signal` acts on the node `pop` returns, which is the one after the removed head | plain waiters `a, b, c`: `signal` wakes `b`, then `c`, then dereferences a null pointer; `a` is never woken | wake the first waiter | not executed; high | `CondVars.SignalAsWrittenSkipsHead` | `CondVars.SignalsWakeInArrivalOrder` |
| src/os/cond_var.rs:128-145 | `broadcast` pops until `pop` returns nothing, but `pop` returns a null pointer for the last node | any non-empty wait queue: the loop dereferences a null pointer | wake every waiter and stop at the empty queue | not executed; high | `CondVars.BroadcastAsWritten` | `CondVars.Broadcast` |
| src/os/mutex.rs:40-50 | `unlock` frees the mutex and only marks the first waiter runnable; the waiter takes ownership on resumption without checking | `a` locks, `b` parks, `a` unlocks and locks again before `b` runs, `b` resumes: both hold the mutex | hand ownership to the woken waiter (or re-check on resumption) so at most one task holds it | not executed; high | `Mutexes.TwoHoldersAsWritten` | `Mutexes.ReleaseKeepsInv` |
| src/os/mutex.rs:34 | a contended `lock` parks the caller with the list's `append` | holder `o`, then `a` parks, then `b` parks: the queue is `b` only, and `a` is never woken | queue every waiter, FIFO | not executed; high | `Mutexes.LostWaiterAsWritten` | `Mutexes.LockEnter` |
| src/hal/k20/i2c.rs:166-174 | a transmit step sends `*d` before testing whether bytes remain | writing `[x]`: the bus carries the address, `x`, then the byte after the buffer | stop once the buffer is sent | not executed; high | `I2c.WriteAsWrittenSendsPastEnd` | `I2c.WriteSendsBuffer` |
| src/hal/k20/i2c.rs:142-157 | the receive branch reads D a second time before counting down | any read of three or more bytes: each byte but the last reads D twice, which starts receiving an extra byte | read D once per byte | not executed; medium | `I2c.RxAsWrittenReadsTwice` | `I2c.RxReadsOnce` |
| src/hal/k20/i2c.rs:136-157 | a zero-length read enters the receive state and counts down from 0 | reading into an empty buffer: two stores outside it, then the state is `Rx(1, 2^32 - 1)` | finish at once | not executed; high | `I2c.ZeroLengthReadAsWrittenOverruns` | `I2c.ZeroLengthReadEnds` |
| src/hal/k20/i2c.rs:103 | `read` sends `addr << 1`, the write direction | any read: the slave is addressed for writing | `(addr << 1) \| 1`, the read direction of section 3.1.10 of the I2C-bus specification (UM10204) | not executed; high | `I2c.ReadAsWrittenAddressesForWrite` | `I2c.ReadAndWriteAddressDiffer` |
| src/hal/k20/i2c.rs:136-140 | TXAK is set only when two bytes remain, which never happens for a one-byte read | reading one byte: it is received with TXAK clear, so the master acknowledges its last byte | NACK the last byte of every read (section 3.1.6 of UM10204) | not executed; medium | `I2c.OneByteReadAsWrittenAcks` | `I2c.IrqRxStart` |
| src/hal/k20/i2c.rs:144-173 | no branch clears MST or TXAK when a transfer ends | any completed write: C1 still has MST set, so no STOP is sent and the bus stays busy for the next transfer | clear MST (STOP) and TXAK at the end of a transfer | not executed; medium | `I2c.EndAsWrittenKeepsC1` | `I2c.End` |
