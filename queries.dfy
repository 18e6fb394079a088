/** Query generation (getRandomQuery). The three rand() draws become parameters:
    eventDraw picks the event, kindDraw the kind and countDraw the ticket count
    of a booking. rand() never returns a negative number, so the draws are
    naturals; the count draw is only consumed by a booking. */
module Queries {
  import opened Config

  /** Produces (queryType, eventNumber, ticketCount) for one worker. The incoming
      ticket count is the caller's variable, which the program leaves untouched
      when a cancel is downgraded to a read. */
  method GetRandomQuery(history: array<int>, eventDraw: nat, kindDraw: nat, countDraw: nat, incomingCount: int)
    returns (queryType: int, eventNumber: int, ticketCount: int)
    requires history.Length == EVENTCOUNT
    ensures ValidEvent(eventNumber) && eventNumber == eventDraw % EVENTCOUNT
    ensures queryType == READ || queryType == BOOK || queryType == CANCEL
    ensures queryType == BOOK <==> kindDraw % 3 == 1
    ensures queryType == BOOK ==> MINTICKETS <= ticketCount <= MAXTICKETS
    // a cancel only for an event this worker's own history has a positive count for
    ensures queryType == CANCEL <==> kindDraw % 3 == 2 && history[eventNumber] > 0
    ensures queryType == CANCEL ==> ticketCount == -1
    ensures kindDraw % 3 == 0 ==> queryType == READ && ticketCount == -1
    // the downgraded cancel keeps whatever ticket count the caller had
    ensures kindDraw % 3 == 2 && queryType == READ ==> ticketCount == incomingCount
  {
    ticketCount := incomingCount;
    eventNumber := eventDraw % EVENTCOUNT;
    var kind := kindDraw % 3 + 1;
    if kind == 1 {
      queryType := READ;
      ticketCount := -1;
    } else if kind == 2 {
      queryType := BOOK;
      ticketCount := countDraw % (MAXTICKETS - MINTICKETS + 1) + MINTICKETS;
    } else {
      queryType := CANCEL;
      if history[eventNumber] <= 0 {
        queryType := READ;
        return;
      }
      ticketCount := -1;
    }
  }
}
