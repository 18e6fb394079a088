/** The active-query table as a specification: MAX slots of {eventNumber,
    queryType, ID}, a slot being free when its eventNumber is -1. A claim is
    refused while a booking or cancellation (kind 2 or 3) is active on the same
    event, whatever the kind of the new query. */
module Registry {
  import opened Config

  datatype Option<T> = None | Some(value: T)

  datatype Slot = Slot(eventNumber: int, queryType: int, id: int)

  /** The event number that marks a slot as free. */
  const FREE: int := -1

  /** The slot every entry holds after main's initialisation. */
  const EMPTY_SLOT: Slot := Slot(FREE, -1, 0)

  predicate IsFree(s: Slot) {
    s.eventNumber == FREE
  }

  /** Booking and cancelling are the kinds that exclude each other per event. */
  predicate IsWriter(s: Slot) {
    s.queryType == BOOK || s.queryType == CANCEL
  }

  /** isQueryRunningForSameEvent: some slot, free or not, names e with a writer
      kind. Free slots keep their stale kind, so for e == FREE this can hold. */
  predicate Conflicts(slots: seq<Slot>, e: int) {
    exists i :: 0 <= i < |slots| && slots[i].eventNumber == e && IsWriter(slots[i])
  }

  /** The registry invariant: no two occupied slots hold a writer on one event. */
  predicate OneWriterPerEvent(slots: seq<Slot>) {
    forall i, j :: 0 <= i < j < |slots| && !IsFree(slots[i]) && !IsFree(slots[j]) &&
                   IsWriter(slots[i]) && IsWriter(slots[j]) ==>
                   slots[i].eventNumber != slots[j].eventNumber
  }

  /** The scan of getSlotInTable: the lowest free slot, or -1 if there is none. */
  function FirstFree(slots: seq<Slot>): (i: int)
    ensures -1 <= i < |slots|
    ensures i == -1 <==> forall k :: 0 <= k < |slots| ==> !IsFree(slots[k])
    ensures i != -1 ==> IsFree(slots[i]) && forall k :: 0 <= k < i ==> !IsFree(slots[k])
  {
    if |slots| == 0 then -1
    else if IsFree(slots[0]) then 0
    else
      var j := FirstFree(slots[1..]);
      if j == -1 then -1 else j + 1
  }

  /** The slot a claim for event e takes, or -1 when it is refused: on a conflict,
      or when the table is full (the program itself does not refuse a full table;
      see ClaimTargetAsWritten). */
  function ClaimIndex(slots: seq<Slot>, e: int): (i: int)
    ensures i == -1 <==> Conflicts(slots, e) || forall k :: 0 <= k < |slots| ==> !IsFree(slots[k])
    ensures i != -1 ==> 0 <= i < |slots| && IsFree(slots[i]) && forall k :: 0 <= k < i ==> !IsFree(slots[k])
  {
    if Conflicts(slots, e) then -1 else FirstFree(slots)
  }

  /** The table after a claim for (queryType, e, id). */
  function Claimed(slots: seq<Slot>, queryType: int, e: int, id: int): seq<Slot> {
    var i := ClaimIndex(slots, e);
    if i == -1 then slots else slots[i := Slot(e, queryType, id)]
  }

  /** The table after the release of slot i: only the event number is reset. */
  function Released(slots: seq<Slot>, i: int): seq<Slot>
    requires 0 <= i < |slots|
  {
    slots[i := slots[i].(eventNumber := FREE)]
  }

  /** A fresh table satisfies the invariant. */
  lemma InitialTableHasOneWriter(n: nat)
    ensures OneWriterPerEvent(seq(n, _ => EMPTY_SLOT))
  {
  }

  /** A claim keeps the invariant, whatever kind the new query has. */
  lemma ClaimKeepsOneWriter(slots: seq<Slot>, queryType: int, e: int, id: int)
    requires OneWriterPerEvent(slots)
    ensures OneWriterPerEvent(Claimed(slots, queryType, e, id))
  {
  }

  /** A release keeps the invariant. */
  lemma ReleaseKeepsOneWriter(slots: seq<Slot>, i: int)
    requires OneWriterPerEvent(slots) && 0 <= i < |slots|
    ensures OneWriterPerEvent(Released(slots, i))
  {
  }

  /** Reads are refused too: while a writer is active on e, every claim on e is
      refused and leaves the table as it was. */
  lemma ActiveWriterRefusesEveryKind(slots: seq<Slot>, queryType: int, e: int, id: int)
    requires exists k :: 0 <= k < |slots| && !IsFree(slots[k]) && slots[k].eventNumber == e && IsWriter(slots[k])
    ensures ClaimIndex(slots, e) == -1 && Claimed(slots, queryType, e, id) == slots
  {
  }

  /** The index getSlotInTable writes to as the program is written: None when it
      returns -1 on a conflict, otherwise the result of the scan, which is -1
      when no slot is free. */
  function ClaimTargetAsWritten(slots: seq<Slot>, e: int): (r: Option<int>)
    ensures r.None? <==> Conflicts(slots, e)
    ensures r.Some? ==> (r.value == -1 <==> forall k :: 0 <= k < |slots| ==> !IsFree(slots[k]))
  {
    if Conflicts(slots, e) then None else Some(FirstFree(slots))
  }

  /** A full table of five reads of event 0 and a claim for event 1: the program
      writes the three fields of ActiveQueries[-1], outside the array. */
  lemma FullTableClaimWritesOutOfBounds()
    ensures var full := seq(MAX, _ => Slot(0, READ, 1));
            ClaimTargetAsWritten(full, 1) == Some(-1) && ClaimIndex(full, 1) == -1
  {
  }
}
