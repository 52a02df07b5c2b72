/**
 * One lottery cycle through the services, on a fresh database: open a round,
 * validate a submitted form and issue a ticket, close the round, store the
 * drawn numbers, and look the ticket up before and after the draw.
 */
module Lifecycle {
  import opened Common
  import opened Store
  import opened Rounds
  import opened Results
  import opened Tickets
  import opened Validation

  /** Open the first round, then issue a ticket for an accepted form. */
  method OpenAndIssue(roundId: Id, ticketId: Id, openedAt: Time, form: Result<TicketInput, seq<Issue>>)
    returns (db: Db, before: Option<TicketWithRound>)
    ensures fresh(db) && db.Valid()
    ensures db.rounds == [Round(roundId, true, [], 0, None)]
    ensures form.Failure? ==> db.tickets == [] && before.None?
    ensures form.Success? ==>
              && db.tickets == [Ticket(ticketId, roundId, form.value.idNumber, form.value.numbers)]
              && before == Some(TicketWithRound(db.tickets[0], db.rounds[0]))
  {
    db := new Db();
    CreateNewRound(db, roundId, openedAt);
    assert db.rounds == [Round(roundId, true, [], 0, None)];
    before := None;
    if form.Success? {
      var issued := CreateTicket(db, ticketId, form.value.idNumber, form.value.numbers);
      GetTicketByIdExact(db.rounds, db.tickets, db.nextCreatedAt, 0, 0);
      before := GetTicketById(db.rounds, db.tickets, ticketId);
    }
  }

  /** Close the round, store the draw, look the ticket up again, then try to store once more. */
  method DrawAndLookUp(db: Db, roundId: Id, ticketId: Id, closedAt: Time, drawn: seq<int>)
    returns (stored: bool, after: Option<TicketWithRound>, again: bool)
    requires db.Valid()
    requires db.rounds == [Round(roundId, true, [], 0, None)]
    requires db.tickets == [] || (|db.tickets| == 1 && db.tickets[0].id == ticketId)
    modifies db
    ensures stored
    ensures again <==> drawn == []
    ensures db.tickets == old(db.tickets)
    ensures db.tickets == [] ==> after.None?
    ensures db.tickets != [] ==> after == Some(TicketWithRound(db.tickets[0], Round(roundId, false, drawn, 0, Some(closedAt))))
  {
    CloseCurrentRound(db, closedAt);
    assert db.rounds == [Round(roundId, false, [], 0, Some(closedAt))];
    stored := StoreDrawnNumbers(db, drawn);
    assert db.rounds == [Round(roundId, false, drawn, 0, Some(closedAt))];
    after := None;
    if db.tickets != [] {
      GetTicketByIdExact(db.rounds, db.tickets, db.nextCreatedAt, 0, 0);
      after := GetTicketById(db.rounds, db.tickets, ticketId);
    } else {
      after := GetTicketById(db.rounds, db.tickets, ticketId);
    }
    again := StoreDrawnNumbers(db, drawn);
  }

  /**
   * The whole cycle: a rejected form gets no ticket; an accepted one is issued in
   * the open round with the validated numbers, and after closing and the draw the
   * same ticket shows its round closed with the drawn numbers. The draw is
   * stored once; a second store declines unless the draw was empty.
   */
  method OneCycle(roundId: Id, ticketId: Id, openedAt: Time, closedAt: Time,
                  idNumber: string, numbers: string, drawn: seq<int>)
    returns (before: Option<TicketWithRound>, stored: bool, after: Option<TicketWithRound>, again: bool)
    ensures ValidateTicket(idNumber, numbers).Failure? ==> before.None? && after.None?
    ensures ValidateTicket(idNumber, numbers).Success? ==>
              && before.Some? && after.Some?
              && before.value.ticket == after.value.ticket
              && before.value.ticket.idNumber == idNumber
              && before.value.ticket.selectedNumbers == ValidateTicket(idNumber, numbers).value.numbers
              && before.value.round.id == roundId && after.value.round.id == roundId
              && before.value.round.isActive && before.value.round.drawnNumbers == []
              && !after.value.round.isActive && after.value.round.closedAt == Some(closedAt)
              && after.value.round.drawnNumbers == drawn
    ensures stored
    ensures again <==> drawn == []
  {
    var form := ValidateTicket(idNumber, numbers);
    var db;
    db, before := OpenAndIssue(roundId, ticketId, openedAt, form);
    stored, after, again := DrawAndLookUp(db, roundId, ticketId, closedAt, drawn);
  }
}
