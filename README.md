# iperf timer manager, modelled in Dafny

This project models the timer manager of iperf (`src/timer.c`). The event
loop uses it to schedule deadlines. Each timer is a record holding the
following:

- a callback and its argument;
- an interval in nanoseconds;
- a periodic flag;
- a deadline (`struct timespec`);
- `prev`/`next` links.

The live timers form the active list, headed by `timers`. It is doubly
linked and kept sorted by deadline. Cancelled records are kept for reuse on
the free list, headed by `free_timers`. The free list is a stack linked
through `next`, and its records have NULL `prev` links.

## How the model is built

- **Records and lists.** The C globals are the fields of the class
  `Timers.Scheduler`. The records that the C code reaches through pointers
  live in `mem`, a map from addresses to records, and NULL is `Null` (-1).
  Two ghost sequences, `active` and `free`, spell out the two lists, and
  `Valid` ties them to the links. `Valid` holds that:
  - the active list is linked both ways and sorted;
  - the free list is a stack;
  - every allocated record is on exactly one of the two lists;
  - every deadline has its nanosecond field below one second.
- **Operations.** `list_add`, `list_remove`, `list_resort` and the
  `tmr_*` operations that change the lists are methods that rewrite these
  fields in the order the C code does. tmr_timeout, which changes nothing,
  is the function `Timeout`. The loops of `list_add`, `tmr_run`,
  `tmr_cleanup` and `tmr_destroy` are `while` loops with invariants. What
  tmr_run's loop does after a callback, rescheduling or cancelling, is the
  method `RescheduleOrRetire`.
- **What the methods promise.**
  - `ListAdd` and `ListRemove` state the exact heap they leave:
    - `AddedAt` uses `LinkAt`, which is the C link writes in order;
    - `RemovedAt` uses `UnlinkAt`, likewise.
  - Lemmas (`SpliceIn`, `SpliceOut`) prove what those heaps mean:
    - the list with the timer inserted at `InsertPos`, or deleted;
    - the list still sorted;
    - only links changed.
- **Time arithmetic** is written as functions on values:
  - `AddNsecs` models add_nsecs, with C's truncating `/` and `%` written
    out (`DivSec`, `RemSec`).
  - `GetNow` models getnow.
  - `Remaining` is tmr_timeout's arithmetic.
- **The clock and malloc are parameters.** The clock read of getnow is the
  parameter `clock`. malloc's answer is the parameter `alloc`: either an
  address not yet in use, or nothing.
- **Callbacks.** tmr_run does not call callbacks. It returns the list of
  callbacks it would invoke, as `Firing` values: the timer, its callback,
  its argument and the deadline it fired for.
- **Where the code's behaviour is surprising.** Two points:
  - **Time addition.** add_nsecs carries only upward, so a negative
    interval can leave a negative nanosecond field. The model follows the
    code (`AddNsecs`, `AddNsecsBackwardNotNormal`).
  - **Zero interval.** Nothing in timer.c rejects an interval of 0, yet two
    due periodic timers with interval 0 and the same deadline make
    tmr_run loop forever (`ZeroIntervalSwaps`). So `Run` asks for a
    non-zero interval on every periodic timer that is due when it starts
    (see below). Negative intervals are allowed: the timer goes back at or
    before the cursor (`BackwardStaysBehind`), so the walk still ends.

The five files:

- `timespec.dfy` (module `TimeSpec`): timespec arithmetic, meaning
  add_nsecs, getnow and the wait of tmr_timeout.
- `deadline_list.dfy` (module `DeadlineList`): the record type; the shapes
  of the two lists; sorted insertion; the link writes of list_add and
  list_remove.
- `list_state.dfy` (module `ListState`): the manager's invariant, and the
  steps that move a record between the lists.
- `firings.dfy` (module `Firings`): what one pass of tmr_run does, its loop
  invariant, and the termination measure.
- `scheduler.dfy` (module `Timers`): the `Scheduler` class with every
  operation.

## Model

| member | source | states |
|---|---|---|
| TimeSpec.BeforeIsEarlier | src/timer.c:72-74 | on normalised timespecs the field-wise "seconds, then nanoseconds" test holds exactly when the first instant is earlier |
| TimeSpec.BeforeOnDenormalised | src/timer.c:84-86 | off normalised values the field-wise test is not the order of instants: (4, 999999999) comes strictly before (5, -1), the same instant |
| TimeSpec.DivSec | src/timer.c:129 | C's `/ 1000000000L` truncates toward zero: what the quotient leaves over is less than one second and has the dividend's sign |
| TimeSpec.RemSec | src/timer.c:130 | C's `% 1000000000L` completes the truncating quotient, lies strictly within one second and takes the dividend's sign |
| TimeSpec.AddNsecs | src/timer.c:126-135 | add_nsecs moves the instant by exactly `nsecs`, always leaves the nanosecond field below one second, and keeps a normalised value normalised when `nsecs >= 0` |
| TimeSpec.AddNsecsBackwardNotNormal | src/timer.c:129-134 | the carry only goes upward: (5, 0) moved back by 1 ns gives (5, -1), not normalised |
| TimeSpec.GetNow | src/timer.c:51-58 | now is the caller's value when one is passed, the clock's otherwise, and is normalised when the source it came from is |
| TimeSpec.Remaining | src/timer.c:181-186 | the wait is normalised, never negative, and equals the nanoseconds from now to the deadline, clamped at zero |
| TimeSpec.RemainingZeroIffDue | src/timer.c:181-186 | the wait is zero exactly when the deadline is due in tmr_run's sense (not after now), for normalised values |
| DeadlineList.InsertPos | src/timer.c:82-98 | list_add's insertion point: every entry before it is not later than the new deadline, and the entry at it, if any, is strictly later |
| DeadlineList.InsertSorted | src/timer.c:61-101 | inserting at that point keeps a sorted list sorted, with the new deadline after all equal ones (ties keep insertion order) and before all later ones |
| DeadlineList.RemoveSorted | src/timer.c:104-113 | deleting any entry keeps a sorted list sorted |
| DeadlineList.RemoveContents | src/timer.c:104-113 | the list after list_remove holds exactly the old entries minus `t`, still without duplicates |
| DeadlineList.InsertContents | src/timer.c:61-101 | the list after list_add holds exactly the old entries plus `t`, still without duplicates |
| DeadlineList.LinkAt | src/timer.c:67-99 | list_add's link writes allocate and free nothing |
| DeadlineList.SpliceIn | src/timer.c:67-99 | list_add's link writes at the sorted insertion point yield a well-formed doubly linked list spelling the old list with `t` inserted, still sorted, head moved to `t` exactly when it goes first, only links changed |
| DeadlineList.UnlinkAt | src/timer.c:107-112 | list_remove's link writes allocate and free nothing |
| DeadlineList.SpliceOut | src/timer.c:104-113 | list_remove's link writes yield a well-formed list spelling the old one without `t` (head moves to `t->next` when `t` was the head), same deadline order, `t`'s record and records off the list untouched, only links changed |
| DeadlineList.LinkAtFields | src/timer.c:67-99 | list_add writes only links |
| DeadlineList.UnlinkAtFields | src/timer.c:107-112 | list_remove writes only links |
| DeadlineList.RemoveInsert | src/timer.c:61-113 | list_remove after list_add: removing a timer just inserted gives back the list it was inserted into |
| DeadlineList.UnlinkUndoesLink | src/timer.c:61-113 | list_remove undoes list_add: unlinking a just-linked timer restores every other record exactly |
| DeadlineList.StackPush | src/timer.c:237-239 | pushing a record with NULL `prev` on the free stack gives the stack `[t] + old` |
| DeadlineList.StackPop | src/timer.c:148-150 | the head of a non-empty free stack is its first record, and that record's `next` heads the rest |
| ListState.RemoveDetaches | src/timer.c:104-113 | list_remove on an active timer leaves it on neither list with everything else consistent and only links changed |
| ListState.PushAttaches | src/timer.c:237-239 | pushing the detached record on the free list restores consistency, the record now top of the free list |
| ListState.RemovePushes | src/timer.c:231-240 | tmr_cancel's two steps restore consistency with `t` on top of the free list, no record changed other than in its links |
| ListState.AddAttaches | src/timer.c:61-101 | list_add of a detached record restores consistency, no record changed other than in its links |
| ListState.PopDetaches | src/timer.c:148-162 | taking the free list's top for a new timer and filling its fields leaves it detached and the active deadlines unchanged |
| ListState.AllocDetaches | src/timer.c:152-162 | a fresh record from malloc, fields filled in, is detached and the active deadlines unchanged |
| ListState.RetimeReady | src/timer.c:209-212 | giving an active record a new deadline keeps every link and the other active deadlines sorted |
| ListState.RetimeDetaches | src/timer.c:225-227 | a new deadline then list_remove leaves the timer detached, the rest consistent, other deadlines and all payloads unchanged |
| ListState.RetimeResorts | src/timer.c:116-123 | a new deadline then list_resort restores the invariant: sorted, linked, each record on exactly one list |
| ListState.ResortRetimes | src/timer.c:116-123 | a new deadline then list_resort keeps every record, payload and other deadline, and places the timer where list_add puts it among the others |
| ListState.FreeHead | src/timer.c:248-252 | freeing the free list's top keeps the state consistent with the rest of the free list |
| Firings.ExpiryKeepsPhase | src/timer.c:209-212 | rescheduling from the old deadline keeps the phase: after `k` firings a periodic timer is due exactly `k` intervals after its original deadline |
| Firings.ZeroIntervalSwaps | src/timer.c:199-214 | two due periodic timers with interval 0 and equal deadlines swap places on every re-sort, so tmr_run's walk alternates between them |
| Firings.DueHasSlack | src/timer.c:204-207 | a due timer contributes to the termination measure |
| Firings.RunStart | src/timer.c:198-199 | tmr_run's loop invariant holds with the cursor on the head and nothing fired |
| Firings.FireHistory | src/timer.c:204-208 | firing the due timer at the cursor extends the history of due, in-order firings |
| Firings.RetireStore | src/timer.c:213-214 | cancelling a fired one-shot timer keeps each deadline equal to its start deadline moved on once per firing, and the retired timers on the free list |
| Firings.RescheduleStore | src/timer.c:209-212 | moving a fired periodic timer on by its interval keeps each deadline equal to its start deadline moved on once per firing |
| Firings.RetireCursor | src/timer.c:200-214 | after cancelling a one-shot timer the saved successor is at the same position, and every timer before it has fired |
| Firings.RescheduleCursor | src/timer.c:200-212 | after re-sorting a periodic timer the saved successor is one position further when the timer went back in front of it, and every timer before it has fired |
| Firings.RescheduleWeight | src/timer.c:209-212 | moving a due timer on by a positive interval strictly lowers the total slack of the due deadlines |
| Firings.BackwardIsBefore | src/timer.c:126-135 | add_nsecs with a negative count gives a deadline strictly before the old one under the C comparison |
| Firings.BackwardStaysBehind | src/timer.c:82-98 | so list_resort puts a timer moved back by a negative interval at or before its old position |
| Firings.RetireIteration | src/timer.c:199-215 | one iteration on a due one-shot timer keeps tmr_run's invariant, the cursor on the same position of a list one shorter |
| Firings.RescheduleIteration | src/timer.c:199-215 | one iteration on a due periodic timer keeps tmr_run's invariant and the list's length; the cursor moves one position on when the timer went back in front of it, otherwise the total slack falls |
| Firings.RunEnd | src/timer.c:199-207 | when the walk stops, every active timer has fired in the pass or is not due, and nothing fired exactly when the list was empty or its head not due |
| Timers.Scheduler.constructor | src/timer.c:37-38 | both lists start empty and nothing is allocated |
| Timers.Scheduler.ListAdd | src/timer.c:61-101 | list_add leaves exactly the heap and head of the C link writes at the sorted insertion point (with SpliceIn: the old list with `t` inserted after equal deadlines, sorted) |
| Timers.Scheduler.ListRemove | src/timer.c:104-113 | list_remove leaves exactly the heap and head of the C link writes (with SpliceOut: the old list without `t`, order kept, head moves on when `t` was the head) |
| Timers.Scheduler.ListResort | src/timer.c:116-123 | list_resort is list_remove followed by list_add, through the intermediate state it names |
| Timers.Scheduler.Create | src/timer.c:138-167 | tmr_create reuses the free list's top, else malloc's record; fails with NULL and no change exactly when both are unavailable; on success every field is set, the deadline is now plus the interval, and the timer is in its sorted place |
| Timers.Scheduler.Timeout | src/timer.c:170-188 | nothing exactly when no timer is active; otherwise the non-negative, normalised wait until the head's deadline, the head being the earliest |
| Timers.Scheduler.Run | src/timer.c:191-216 | each callback fired was due and is its timer's; deadlines fired for never go backward; each deadline is its old one moved on once per firing (periodic) or kept (one-shot); fired one-shot timers are on the free list; every active timer fired or is not due; nothing fires exactly when the head is not due |
| Timers.Scheduler.RescheduleOrRetire | src/timer.c:209-214 | after a due timer fired, rescheduling it (periodic) or cancelling it (one-shot) keeps the manager's invariant and tmr_run's loop invariant with the firing added and the cursor on the saved successor, and lowers the termination measure |
| Timers.Scheduler.Reschedule | src/timer.c:209-212 | moving an active timer to one interval after a base time and re-sorting keeps the invariant, changes only its deadline and the links, and puts it where list_add would |
| Timers.Scheduler.Reset | src/timer.c:219-228 | tmr_reset sets the deadline to now plus the interval, keeps the same record active in its sorted place, and changes nothing else but links |
| Timers.Scheduler.Cancel | src/timer.c:231-240 | tmr_cancel deletes the timer from the active list and makes the free list `[t] + old`, changing no field other than links |
| Timers.Scheduler.Cleanup | src/timer.c:243-253 | tmr_cleanup frees every record on the free list and leaves the active list and its records untouched |
| Timers.Scheduler.Destroy | src/timer.c:256-262 | tmr_destroy leaves both lists empty and nothing allocated |

## Left out

- The clock read `clock_gettime(CLOCK_MONOTONIC)` (src/timer.c:57) is the parameter `clock` of every operation that reads the time.
- `malloc` (src/timer.c:152) is the parameter `alloc`, an unused address or nothing. `free` (src/timer.c:251) removes the address from `mem`. A fresh record starts as a zero record because every field is overwritten before it is read.
- The callback (src/timer.c:208) is not invoked; `Run` reports it as a `Firing`. Callbacks that re-enter the manager are not modelled: their effects are arbitrary foreign code.
- `JunkClientData` (src/timer.c:40) is an unused global.
- The static buffer that tmr_timeout returns a pointer to (src/timer.c:175, 187): `Timeout` returns the value, so aliasing between calls is not modelled.
- getnow and add_nsecs write through a pointer in C; here they are functions returning the new timespec, and the callers assign it.
- `periodic` is a C `int` used only as a truth value; here it is a `bool`.
- Timers.Scheduler.Timeout: integers are unbounded, so the signed 64-bit overflow of `(sec difference) * 1000000000LL` (src/timer.c:181) for far-apart times is not modelled.
- TimeSpec.AddNsecs: integers are unbounded, so overflow of `tv_sec` (`time_t`) is not modelled; the interval itself is an `Int64`.
- Timers.Scheduler.Run: requires a non-zero interval on every active periodic timer that is due when the pass starts; periodic timers that are not due may have interval 0. The excluded inputs include some on which the C loop ends, such as a single due periodic timer with interval 0: list_add puts it after the equal deadlines and the walk moves on to the saved successor. They are excluded only to keep the termination measure simple (fewer entries from the cursor on, or less slack of the due deadlines). The measure fails for interval 0, which moves no deadline. Two such timers due at the same deadline make the C loop run forever (`ZeroIntervalSwaps`): each re-sort puts the fired timer behind the other, which is the saved successor. Positive and negative intervals are both covered.
- Timers.Scheduler.Run: the order of the walk is stated through its consequences (in-order deadlines, the head fired first, every remaining active timer fired or not due) rather than as the list of positions visited, because a re-sorted periodic timer may land before or after the cursor.
- Timers.Scheduler.Reset, Timers.Scheduler.Cancel: require the timer to be active. The C code has no check, and calling it on a record on the free list corrupts both lists.
- Timers.Scheduler.ListAdd, Timers.Scheduler.ListRemove: require `t` off, respectively on, the active list, which every caller in the file guarantees.
- Timers.Scheduler.Create: requires `alloc` to be an address not in use, as a successful malloc is.
