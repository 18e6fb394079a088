/** The reservation ledger as a specification: one counter of reserved seats per
    event (the global reservationStatus array) and one worker's booking history,
    both as sequences, and what each ledger operation does to them. The class in
    module Reservation updates the real arrays in place and is proved against
    these functions. */
module Ledger {
  import opened Config

  /** What a ledger operation reports (the program prints it). */
  datatype Report =
    | InvalidEvent(eventNumber: int)
    | SeatsAvailable(seats: int)
    | Insufficient(requested: int, available: int)
    | Booked(count: int)
    | NothingToCancel
    | Cancelled
    | UnknownQuery(queryType: int)

  /** The ledger and the caller's history after an operation, with its report. */
  datatype Step = Step(status: seq<int>, history: seq<int>, report: Report)

  /** The central invariant: no event is over-booked or below zero. */
  predicate SeatsInRange(status: seq<int>) {
    |status| == EVENTCOUNT && forall e :: 0 <= e < |status| ==> 0 <= status[e] <= CAPACITY
  }

  /** The ledger as initialised by main: nothing reserved. */
  function InitialStatus(): (s: seq<int>)
    ensures SeatsInRange(s)
    ensures forall e :: 0 <= e < |s| ==> s[e] == 0
  {
    seq(EVENTCOUNT, _ => 0)
  }

  /** getAvailableSeats: the number of free seats of a valid event. */
  function AvailableSeats(status: seq<int>, e: int): (r: Report)
    requires |status| == EVENTCOUNT
    ensures r.SeatsAvailable? <==> ValidEvent(e)
    ensures !ValidEvent(e) ==> r == InvalidEvent(e)
    ensures r.SeatsAvailable? ==> r.seats + status[e] == CAPACITY
    ensures SeatsInRange(status) && r.SeatsAvailable? ==> 0 <= r.seats <= CAPACITY
  {
    if !ValidEvent(e) then InvalidEvent(e) else SeatsAvailable(CAPACITY - status[e])
  }

  /** bookTickets: all-or-nothing booking of n seats, credited to the caller's history. */
  function Book(status: seq<int>, history: seq<int>, e: int, n: int): (r: Step)
    requires |status| == EVENTCOUNT && |history| == EVENTCOUNT
    ensures |r.status| == EVENTCOUNT && |r.history| == EVENTCOUNT
    ensures r.report.Booked? <==> ValidEvent(e) && n <= CAPACITY - status[e]
    ensures !ValidEvent(e) ==> r.report == InvalidEvent(e)
    ensures ValidEvent(e) && !r.report.Booked? ==> r.report == Insufficient(n, CAPACITY - status[e])
    ensures r.report.Booked? ==>
              r.report.count == n && r.status[e] == status[e] + n && r.history[e] == history[e] + n
    ensures !r.report.Booked? ==> r.status == status && r.history == history
    ensures forall k :: 0 <= k < EVENTCOUNT && k != e ==> r.status[k] == status[k] && r.history[k] == history[k]
  {
    if !ValidEvent(e) then
      Step(status, history, InvalidEvent(e))
    else if n > CAPACITY - status[e] then
      Step(status, history, Insufficient(n, CAPACITY - status[e]))
    else
      Step(status[e := status[e] + n], history[e := history[e] + n], Booked(n))
  }

  /** cancelBookedTicket: give back exactly one seat, if any is reserved. The
      caller's history is incremented, not decremented, exactly as a booking does. */
  function Cancel(status: seq<int>, history: seq<int>, e: int): (r: Step)
    requires |status| == EVENTCOUNT && |history| == EVENTCOUNT
    ensures |r.status| == EVENTCOUNT && |r.history| == EVENTCOUNT
    ensures r.report.Cancelled? <==> ValidEvent(e) && status[e] != 0
    ensures !ValidEvent(e) ==> r.report == InvalidEvent(e)
    ensures ValidEvent(e) && status[e] == 0 ==> r.report == NothingToCancel
    ensures r.report.Cancelled? ==> r.status[e] == status[e] - 1 && r.history[e] == history[e] + 1
    ensures !r.report.Cancelled? ==> r.status == status && r.history == history
    ensures forall k :: 0 <= k < EVENTCOUNT && k != e ==> r.status[k] == status[k] && r.history[k] == history[k]
  {
    if !ValidEvent(e) then
      Step(status, history, InvalidEvent(e))
    else if status[e] == 0 then
      Step(status, history, NothingToCancel)
    else
      Step(status[e := status[e] - 1], history[e := history[e] + 1], Cancelled)
  }

  /** Booking a non-negative count never breaks the seat bound. */
  lemma BookKeepsSeatsInRange(status: seq<int>, history: seq<int>, e: int, n: int)
    requires SeatsInRange(status) && |history| == EVENTCOUNT && n >= 0
    ensures SeatsInRange(Book(status, history, e, n).status)
  {
  }

  /** Cancelling never breaks the seat bound. */
  lemma CancelKeepsSeatsInRange(status: seq<int>, history: seq<int>, e: int)
    requires SeatsInRange(status) && |history| == EVENTCOUNT
    ensures SeatsInRange(Cancel(status, history, e).status)
  {
  }

  /** Booking exactly the available seats fills the event; one more is refused
      and changes nothing. */
  lemma BookBoundary(status: seq<int>, history: seq<int>, e: int)
    requires SeatsInRange(status) && |history| == EVENTCOUNT && ValidEvent(e)
    ensures var seats := AvailableSeats(status, e).seats;
            Book(status, history, e, seats).status[e] == CAPACITY &&
            Book(status, history, e, seats + 1) == Step(status, history, Insufficient(seats + 1, seats))
  {
  }

  /** A successful operation as recorded in the ghost accounting log. */
  datatype LedgerOp = BookingOp(event: int, count: int) | CancelOp(event: int)

  /** The log entries an operation with this report on event e adds. */
  function Recorded(report: Report, e: int): (ops: seq<LedgerOp>)
    ensures report.Booked? ==> ops == [BookingOp(e, report.count)]
    ensures report.Cancelled? ==> ops == [CancelOp(e)]
    ensures !report.Booked? && !report.Cancelled? ==> ops == []
  {
    match report
    case Booked(n) => [BookingOp(e, n)]
    case Cancelled => [CancelOp(e)]
    case _ => []
  }

  /** Sum of the counts of all successful bookings of event e in the log. */
  function BookedTotal(log: seq<LedgerOp>, e: int): int {
    if log == [] then 0
    else (if log[0].BookingOp? && log[0].event == e then log[0].count else 0) + BookedTotal(log[1..], e)
  }

  /** Number of successful cancellations of event e in the log. */
  function CancelCount(log: seq<LedgerOp>, e: int): nat {
    if log == [] then 0
    else (if log[0].CancelOp? && log[0].event == e then 1 else 0) + CancelCount(log[1..], e)
  }

  /** The seats of e that the log accounts for. */
  function Net(log: seq<LedgerOp>, e: int): int {
    BookedTotal(log, e) - CancelCount(log, e)
  }

  lemma {:induction false} BookedTotalAppend(log: seq<LedgerOp>, op: LedgerOp, e: int)
    ensures BookedTotal(log + [op], e) ==
            BookedTotal(log, e) + (if op.BookingOp? && op.event == e then op.count else 0)
  {
    if log != [] {
      assert (log + [op])[1..] == log[1..] + [op];
      BookedTotalAppend(log[1..], op, e);
    }
  }

  lemma {:induction false} CancelCountAppend(log: seq<LedgerOp>, op: LedgerOp, e: int)
    ensures CancelCount(log + [op], e) == CancelCount(log, e) + (if op.CancelOp? && op.event == e then 1 else 0)
  {
    if log != [] {
      assert (log + [op])[1..] == log[1..] + [op];
      CancelCountAppend(log[1..], op, e);
    }
  }

  /** Accounting is kept by every step: if the ledger matched the log before an
      operation, it matches the log extended by what that operation records. */
  lemma StepKeepsAccounting(log: seq<LedgerOp>, before: seq<int>, after: Step, e: int)
    requires |before| == EVENTCOUNT && |after.status| == EVENTCOUNT
    requires forall k :: 0 <= k < EVENTCOUNT ==> before[k] == Net(log, k)
    requires after.report.Booked? ==> ValidEvent(e) && after.status == before[e := before[e] + after.report.count]
    requires after.report.Cancelled? ==> ValidEvent(e) && after.status == before[e := before[e] - 1]
    requires !after.report.Booked? && !after.report.Cancelled? ==> after.status == before
    ensures forall k :: 0 <= k < EVENTCOUNT ==> after.status[k] == Net(log + Recorded(after.report, e), k)
  {
    var ops := Recorded(after.report, e);
    forall k | 0 <= k < EVENTCOUNT
      ensures after.status[k] == Net(log + ops, k)
    {
      if ops == [] {
        assert log + ops == log;
      } else {
        BookedTotalAppend(log, ops[0], k);
        CancelCountAppend(log, ops[0], k);
      }
    }
  }
}
