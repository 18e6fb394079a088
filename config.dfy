/** The compile-time constants of the reservation simulator (event_reservation.c:11-16),
    and the three query kinds used throughout. */
module Config {

  /** Number of events; valid event numbers are 0 .. EVENTCOUNT - 1. */
  const EVENTCOUNT: int := 10
  /** Seats per event, shared by all events. */
  const CAPACITY: int := 500
  /** Bounds on the ticket count of a generated booking query. */
  const MINTICKETS: int := 5
  const MAXTICKETS: int := 10
  /** Number of slots in the active-query table. */
  const MAX: int := 5

  /** Query kinds, as the integers the program uses. */
  const READ: int := 1
  const BOOK: int := 2
  const CANCEL: int := 3

  predicate ValidEvent(e: int) {
    0 <= e < EVENTCOUNT
  }
}
