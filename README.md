# Multi-threaded event reservation: the sequential core in Dafny

The program simulates worker threads that book, cancel and query seats for
EVENTCOUNT = 10 events of CAPACITY = 500 seats each. Two global arrays hold
the shared state. `reservationStatus` counts the reserved seats of each event.
`ActiveQueries` is a table of MAX = 5 slots `{eventNumber, queryType, ID}`.
It stops two bookings or cancellations from running on one event at once.
A slot is free when its event number is -1. Each worker also keeps its own
`bookingHistory` array and passes it to the ledger by pointer.

This model takes each locked region of the program as one atomic step. There
are no threads or locks in it.

- `config.dfy` (module `Config`): the constants and the query kinds
  READ = 1, BOOK = 2, CANCEL = 3.
- `ledger.dfy` (module `Ledger`): the ledger as pure functions over sequences.
  `Book` and `Cancel` each return a `Step`: the new counters, the new history
  and the printed report. `AvailableSeats` returns the report alone.
  `SeatsInRange` is the bound 0 ≤ reserved ≤ CAPACITY. A ghost log of successful bookings and cancellations
  gives the accounting: each counter equals the booked total minus the
  number of cancellations.
- `registry.dfy` (module `Registry`): the slot table as pure functions.
  `Conflicts` is the conflict predicate. `FirstFree` is the lowest-free-slot
  scan. `ClaimIndex` is the outcome of a claim. `OneWriterPerEvent` is the table
  invariant: at most one occupied booking or cancelling slot per event.
- `queries.dfy` (module `Queries`): `GetRandomQuery`, with the three `rand()`
  draws turned into parameters.
- `reservation.dfy` (module `Reservation`): the class `ReservationSystem`.
  It holds the two arrays, updates them in place, and is proved against the
  functions above. `Valid()` ties the arrays to the registry invariant and to
  the accounting log. `ExecuteQuery` claims a slot, dispatches on the kind and
  releases the slot. `WorkerIteration` is the body of a worker's loop: it
  generates a query and runs it.

In these places the code's behaviour is surprising; the model follows the code:
- A new read query is refused while a booking or cancellation of the same
  event holds a slot. The conflict check ignores the kind of the incoming
  query (`Registry.ActiveWriterRefusesEveryKind`).
- Release resets only the event number. The kind and the ID stay in the slot.
  The conflict check scans free slots too, so a claim for event -1 can see a
  stale booking kind.
- Cancelling increments the same history counter that booking does. So a
  worker's history never shrinks, as long as its booking counts are
  non-negative.
- A successful booking reports the number of tickets booked, not the seats
  that remain.
- A full table is not refused by the code. See "## Findings".

## Model

| member | source | states |
|---|---|---|
| Ledger.InitialStatus | event_reservation.c:226-228 | every event starts with zero reserved seats, which is within the bound |
| Ledger.AvailableSeats | event_reservation.c:68-77 | an event out of range gets InvalidEvent; a valid one gets CAPACITY minus its reserved count, which is within [0, CAPACITY] while the bound holds |
| Ledger.Book | event_reservation.c:79-98 | a booking succeeds iff the event is valid and the count fits the free seats; on success the counter and the history of that event both grow by exactly the count; otherwise neither changes; other events are never touched |
| Ledger.Cancel | event_reservation.c:100-117 | a cancel succeeds iff the event is valid and its counter is not zero; then the counter drops by one and the history rises by one; otherwise nothing changes; other events are never touched |
| Ledger.BookKeepsSeatsInRange | event_reservation.c:85-97 | a booking with a non-negative count keeps every counter within [0, CAPACITY] |
| Ledger.CancelKeepsSeatsInRange | event_reservation.c:106-115 | a cancel keeps every counter within [0, CAPACITY] |
| Ledger.BookBoundary | event_reservation.c:86-92 | booking exactly the available seats fills the event to CAPACITY; one ticket more is refused as Insufficient and changes nothing |
| Ledger.BookedTotalAppend | event_reservation.c:94-96 | a logged booking adds its count to the booked total of its own event only |
| Ledger.CancelCountAppend | event_reservation.c:113-114 | a logged cancellation adds one to the cancel count of its own event only |
| Ledger.StepKeepsAccounting | event_reservation.c:94-114 | if every counter equals booked total minus cancellations before a ledger step, it still does after the step's successful operation is logged |
| Registry.FirstFree | event_reservation.c:48-53 | the scan returns the lowest free slot, or -1 exactly when no slot is free |
| Registry.ClaimIndex | event_reservation.c:45-66 | a claim is refused (-1) exactly when a booking or cancellation of the event is in some slot or no slot is free; otherwise it takes the lowest free slot |
| Registry.InitialTableHasOneWriter | event_reservation.c:230-234 | the initial table, all slots free, satisfies the one-writer-per-event invariant |
| Registry.ClaimKeepsOneWriter | event_reservation.c:57-63 | a claim of any kind keeps at most one occupied booking or cancelling slot per event |
| Registry.ReleaseKeepsOneWriter | event_reservation.c:168-170 | releasing a slot, which only resets its event number, keeps the invariant |
| Registry.ActiveWriterRefusesEveryKind | event_reservation.c:36-60 | while an occupied slot holds a booking or cancellation of an event, every claim on that event is refused, reads included, and the table is unchanged |
| Registry.ClaimTargetAsWritten | event_reservation.c:48-63 | as the code is written: no write on a conflict; otherwise it writes at the scan's result, which is -1 exactly when the table is full |
| Registry.FullTableClaimWritesOutOfBounds | event_reservation.c:54-63 | with five occupied read slots, a claim for another event makes the code write ActiveQueries[-1] |
| Queries.GetRandomQuery | event_reservation.c:119-139 | the event is in [0, EVENTCOUNT); the kind is 1, 2 or 3; a booking asks for MINTICKETS to MAXTICKETS tickets; the result is a cancel iff the draw picked cancel and the worker's own history for the event is positive; a downgraded cancel is a read that keeps the incoming ticket count |
| Reservation.Dispatch | event_reservation.c:150-166 | reads and unknown kinds change nothing; only a successful booking or cancel moves the ledger; a worker's history never shrinks for non-negative counts; the seat bound is kept |
| Reservation.ReservationSystem.constructor | event_reservation.c:226-234 | after initialisation all counters are zero, every slot is {-1, -1, 0}, the bound and the registry invariant hold, and the log is empty |
| Reservation.ReservationSystem.IsQueryRunningForSameEvent | event_reservation.c:36-43 | the scan returns true iff some slot names the event with kind 2 or 3 |
| Reservation.ReservationSystem.GetSlotInTable | event_reservation.c:45-66 | returns ClaimIndex of the old table; on -1 the table is unchanged; otherwise exactly the claimed slot is set to {event, kind, ID}; the registry invariant is kept |
| Reservation.ReservationSystem.ReleaseSlot | event_reservation.c:168-170 | only the released slot's event number changes, to -1; the invariant is kept |
| Reservation.ReservationSystem.GetAvailableSeats | event_reservation.c:68-77 | reports what Ledger.AvailableSeats gives for the current counters |
| Reservation.ReservationSystem.BookTickets | event_reservation.c:79-98 | the counters, the history and the report become those of Ledger.Book; the log gains the booking iff it succeeded; the bound is kept for a non-negative count |
| Reservation.ReservationSystem.CancelBookedTicket | event_reservation.c:100-117 | the counters, the history and the report become those of Ledger.Cancel; the log gains the cancellation iff it succeeded; the bound is kept |
| Reservation.ReservationSystem.ExecuteQuery | event_reservation.c:141-171 | a refused claim changes nothing; otherwise the ledger and history change as Dispatch says, and afterwards the claimed slot is free again, with its kind and ID left stale |
| Reservation.WorkerIteration | event_reservation.c:196-199 | generating a query and executing it keeps the seat bound and the invariants, never shrinks the worker's history, and never reports an invalid event or an unknown kind |

## Left out

- Threads, the four mutexes and the condition variable: each locked region is one method call.
  The locking is not modelled. This includes the second lock of `active_queries_mutex` inside
  `getSlotInTable` while `executeQuery` already holds it, which a default mutex deadlocks on.
- The admission gate (`load_count` with its check-once `pthread_cond_wait`): it only bounds parallelism.
- The `kill_count` shutdown flag, thread creation and the join loop in `main`.
  `WORKERCOUNT` is therefore not used.
- `rand()`, `srand`, `sleep` and `system("reset")`. The random draws are parameters of
  `GetRandomQuery` and `WorkerIteration`. The program consumes the third draw only for a booking.
- All `printf` output and the final status table. The printed lines become `Report` values.
- 32-bit `int` overflow: counters stay within [0, 500]. Generated counts are 5 to 10, and a
  history grows by at most 10 per query, so no wrap-around is reachable in a run.

## Findings

| source | as written | input that shows it | evidently intended | confidence | as-written member | corrected member |
|---|---|---|---|---|---|---|
| event_reservation.c:54-63 | when no slot is free, getSlotInTable only prints a warning; if there is no conflict it then writes the three fields of ActiveQueries[-1] | five occupied slots, all reads of event 0, and a claim for event 1 | refuse the claim like a conflict: return -1 and leave the table unchanged | not executed; the missing guard is certain, but with WORKERCOUNT = MAX = 5 a claiming worker never finds all five slots taken | Registry.FullTableClaimWritesOutOfBounds | Reservation.ReservationSystem.GetSlotInTable |
