/** The shared state of event_reservation.c as one object: the seat ledger
    (reservationStatus) and the active-query table (ActiveQueries), both updated
    in place, plus the booking history array that each worker owns and passes
    in by reference. Every locked region of the program is one method call. */
module Reservation {
  import opened Config
  import opened Ledger
  import opened Registry
  import opened Queries

  /** What executeQuery did: Refused when it could not claim a slot (the query is
      dropped silently), otherwise the report of the dispatched operation. */
  datatype QueryOutcome = Refused | Executed(report: Report)

  /** The switch of executeQuery on the query kind, as a step on the ledger and
      the caller's history. */
  function Dispatch(status: seq<int>, history: seq<int>, queryType: int, e: int, n: int): (r: Step)
    requires |status| == EVENTCOUNT && |history| == EVENTCOUNT
    ensures |r.status| == EVENTCOUNT && |r.history| == EVENTCOUNT
    ensures queryType != READ && queryType != BOOK && queryType != CANCEL ==> r.report == UnknownQuery(queryType)
    // reads and unknown kinds change nothing
    ensures queryType != BOOK && queryType != CANCEL ==> r.status == status && r.history == history
    // with a non-negative booking count a worker's history only grows, even on a cancel
    ensures queryType != BOOK || n >= 0 ==> forall k :: 0 <= k < EVENTCOUNT ==> history[k] <= r.history[k]
    ensures SeatsInRange(status) && (queryType != BOOK || n >= 0) ==> SeatsInRange(r.status)
    // only a successful booking or cancellation moves the ledger, by its own amount
    ensures r.report.Booked? ==> ValidEvent(e) && r.status == status[e := status[e] + r.report.count]
    ensures r.report.Cancelled? ==> ValidEvent(e) && r.status == status[e := status[e] - 1]
    ensures !r.report.Booked? && !r.report.Cancelled? ==> r.status == status
  {
    if queryType == READ then
      Step(status, history, AvailableSeats(status, e))
    else if queryType == BOOK then
      Book(status, history, e, n)
    else if queryType == CANCEL then
      Cancel(status, history, e)
    else
      Step(status, history, UnknownQuery(queryType))
  }

  class ReservationSystem {
    var reservationStatus: array<int>
    var activeQueries: array<Slot>
    /** Every successful booking and cancellation so far. */
    ghost var log: seq<LedgerOp>

    /** The array sizes, the registry invariant, and the accounting: each event's
        counter is its booked total minus its cancellations. */
    ghost predicate Valid()
      reads this, reservationStatus, activeQueries
    {
      && reservationStatus.Length == EVENTCOUNT
      && activeQueries.Length == MAX
      && OneWriterPerEvent(activeQueries[..])
      && forall e :: 0 <= e < EVENTCOUNT ==> reservationStatus[e] == Net(log, e)
    }

    /** 0 <= reservationStatus[e] <= CAPACITY for every event. Not part of Valid:
        a booking with a negative count, which no generated query has, breaks it. */
    ghost predicate SeatsBounded()
      reads this, reservationStatus
    {
      SeatsInRange(reservationStatus[..])
    }

    /** The initialisation in main: every counter zero, every slot free. */
    constructor ()
      ensures Valid() && SeatsBounded()
      ensures reservationStatus[..] == InitialStatus()
      ensures activeQueries[..] == seq(MAX, _ => EMPTY_SLOT)
      ensures log == []
      ensures fresh(reservationStatus) && fresh(activeQueries)
    {
      var status := new int[EVENTCOUNT];
      for i := 0 to EVENTCOUNT
        invariant forall k :: 0 <= k < i ==> status[k] == 0
      {
        status[i] := 0;
      }
      var table := new Slot[MAX];
      for i := 0 to MAX
        invariant forall k :: 0 <= k < i ==> table[k] == EMPTY_SLOT
        invariant forall k :: 0 <= k < EVENTCOUNT ==> status[k] == 0
      {
        table[i] := EMPTY_SLOT;
      }
      reservationStatus, activeQueries, log := status, table, [];
      new;
      assert activeQueries[..] == seq(MAX, _ => EMPTY_SLOT);
      InitialTableHasOneWriter(MAX);
    }

    /** isQueryRunningForSameEvent, as the scan the program runs. */
    method IsQueryRunningForSameEvent(e: int) returns (running: bool)
      requires Valid()
      ensures running <==> Conflicts(activeQueries[..], e)
    {
      for i := 0 to MAX
        invariant forall k :: 0 <= k < i ==> !(activeQueries[k].eventNumber == e && IsWriter(activeQueries[k]))
      {
        if activeQueries[i].eventNumber == e && IsWriter(activeQueries[i]) {
          return true;
        }
      }
      return false;
    }

    /** getSlotInTable: claim the lowest free slot for (queryType, e, id), unless
        a booking or cancellation of e is active. Unlike the program, which goes
        on to write ActiveQueries[-1] when no slot is free, it refuses the claim. */
    method GetSlotInTable(queryType: int, e: int, id: int) returns (slot: int)
      requires Valid()
      modifies activeQueries
      ensures Valid()
      ensures slot == ClaimIndex(old(activeQueries[..]), e)
      ensures activeQueries[..] == Claimed(old(activeQueries[..]), queryType, e, id)
    {
      var free := -1;
      var i := 0;
      while i < MAX
        invariant 0 <= i <= MAX && free == -1
        invariant forall k :: 0 <= k < i ==> !IsFree(activeQueries[k])
      {
        if IsFree(activeQueries[i]) {
          free := i;
          break;
        }
        i := i + 1;
      }
      assert free == FirstFree(activeQueries[..]);
      // the program only warns about a full table here
      var running := IsQueryRunningForSameEvent(e);
      if running || free == -1 {
        return -1;
      }
      ClaimKeepsOneWriter(activeQueries[..], queryType, e, id);
      activeQueries[free] := Slot(e, queryType, id);
      slot := free;
    }

    /** The release at the end of executeQuery: only the event number is reset,
        the kind and the ID stay behind. */
    method ReleaseSlot(slot: int)
      requires Valid() && 0 <= slot < MAX
      modifies activeQueries
      ensures Valid()
      ensures activeQueries[..] == Released(old(activeQueries[..]), slot)
    {
      ReleaseKeepsOneWriter(activeQueries[..], slot);
      activeQueries[slot] := activeQueries[slot].(eventNumber := FREE);
    }

    /** getAvailableSeats: the read of reservationStatus that the program does
        under reservation_mutex (event_reservation.c:73-75), one atomic step on
        the array. Ledger.AvailableSeats is its specification. */
    method GetAvailableSeats(e: int) returns (report: Report)
      requires Valid()
      ensures report == AvailableSeats(reservationStatus[..], e)
    {
      if e < 0 || e >= EVENTCOUNT {
        return InvalidEvent(e);
      }
      var remSeats := CAPACITY - reservationStatus[e];
      report := SeatsAvailable(remSeats);
    }

    /** bookTickets. */
    method BookTickets(e: int, ticketCount: int, history: array<int>) returns (report: Report)
      requires Valid() && history.Length == EVENTCOUNT && history != reservationStatus
      modifies reservationStatus, history, this`log
      ensures Valid()
      ensures var r := Book(old(reservationStatus[..]), old(history[..]), e, ticketCount);
              reservationStatus[..] == r.status && history[..] == r.history && report == r.report
      ensures log == old(log) + Recorded(report, e)
      ensures old(SeatsBounded()) && ticketCount >= 0 ==> SeatsBounded()
    {
      if e < 0 || e >= EVENTCOUNT {
        return InvalidEvent(e);
      }
      var remSeats := CAPACITY - reservationStatus[e];
      if ticketCount > remSeats {
        return Insufficient(ticketCount, remSeats);
      }
      ghost var before := reservationStatus[..];
      history[e] := history[e] + ticketCount;
      reservationStatus[e] := reservationStatus[e] + ticketCount;
      report := Booked(ticketCount);
      StepKeepsAccounting(log, before, Step(reservationStatus[..], history[..], report), e);
      log := log + Recorded(report, e);
    }

    /** cancelBookedTicket. */
    method CancelBookedTicket(e: int, history: array<int>) returns (report: Report)
      requires Valid() && history.Length == EVENTCOUNT && history != reservationStatus
      modifies reservationStatus, history, this`log
      ensures Valid()
      ensures var r := Cancel(old(reservationStatus[..]), old(history[..]), e);
              reservationStatus[..] == r.status && history[..] == r.history && report == r.report
      ensures log == old(log) + Recorded(report, e)
      ensures old(SeatsBounded()) ==> SeatsBounded()
    {
      if e < 0 || e >= EVENTCOUNT {
        return InvalidEvent(e);
      }
      if reservationStatus[e] == 0 {
        return NothingToCancel;
      }
      ghost var before := reservationStatus[..];
      reservationStatus[e] := reservationStatus[e] - 1;
      history[e] := history[e] + 1;
      report := Cancelled;
      StepKeepsAccounting(log, before, Step(reservationStatus[..], history[..], report), e);
      log := log + Recorded(report, e);
    }

    /** executeQuery: claim a slot, run the query, release the slot. The program
        locks active_queries_mutex here and again inside getSlotInTable, which
        deadlocks a default pthread mutex; the model has no locks, each call
        below being one atomic step. */
    method ExecuteQuery(queryType: int, e: int, ticketCount: int, history: array<int>, id: int)
      returns (outcome: QueryOutcome)
      requires Valid() && history.Length == EVENTCOUNT && history != reservationStatus
      modifies reservationStatus, history, activeQueries, this`log
      ensures Valid()
      ensures ClaimIndex(old(activeQueries[..]), e) == -1 ==>
                && outcome == Refused
                && reservationStatus[..] == old(reservationStatus[..])
                && history[..] == old(history[..])
                && activeQueries[..] == old(activeQueries[..])
                && log == old(log)
      ensures var slot := ClaimIndex(old(activeQueries[..]), e);
              var r := Dispatch(old(reservationStatus[..]), old(history[..]), queryType, e, ticketCount);
              slot != -1 ==>
                && outcome == Executed(r.report)
                && reservationStatus[..] == r.status
                && history[..] == r.history
                && activeQueries[..] == old(activeQueries[..])[slot := Slot(FREE, queryType, id)]
                && log == old(log) + Recorded(r.report, e)
      ensures old(SeatsBounded()) && (queryType != BOOK || ticketCount >= 0) ==> SeatsBounded()
    {
      var slot := GetSlotInTable(queryType, e, id);
      if slot == -1 {
        return Refused;
      }
      var report;
      if queryType == READ {
        report := GetAvailableSeats(e);
      } else if queryType == BOOK {
        report := BookTickets(e, ticketCount, history);
      } else if queryType == CANCEL {
        report := CancelBookedTicket(e, history);
      } else {
        report := UnknownQuery(queryType);
      }
      ReleaseSlot(slot);
      outcome := Executed(report);
    }
  }

  /** The body of a worker's loop in doWork, without the admission gate, the
      shutdown flag and the sleeps: generate a query from this worker's history
      and run it. k is the worker's ticket-count variable, carried across
      iterations. Every generated query keeps the seat bound, and the worker's
      history never shrinks. */
  method WorkerIteration(sys: ReservationSystem, history: array<int>, id: int,
                         eventDraw: nat, kindDraw: nat, countDraw: nat, k: int)
    returns (outcome: QueryOutcome, k': int)
    requires sys.Valid() && history.Length == EVENTCOUNT && history != sys.reservationStatus
    modifies sys.reservationStatus, history, sys.activeQueries, sys`log
    ensures sys.Valid()
    ensures old(sys.SeatsBounded()) ==> sys.SeatsBounded()
    ensures forall e :: 0 <= e < EVENTCOUNT ==> old(history[e]) <= history[e]
    ensures outcome.Executed? ==> !outcome.report.InvalidEvent? && !outcome.report.UnknownQuery?
  {
    var queryType, eventNumber;
    queryType, eventNumber, k' := GetRandomQuery(history, eventDraw, kindDraw, countDraw, k);
    outcome := sys.ExecuteQuery(queryType, eventNumber, k', history, id);
  }
}
