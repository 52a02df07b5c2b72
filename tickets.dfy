/**
 * TicketsService: issuing a ticket in the active round and looking a ticket
 * up together with its round (src/services/tickets.ts).
 */
module Tickets {
  import opened Common
  import opened Store
  import opened Rounds

  /** The one way createTicket fails: it throws "No active round available". */
  datatype TicketError = NoActiveRound

  /** A ticket row with its round included. */
  datatype TicketWithRound = TicketWithRound(ticket: Ticket, round: Round)

  /** A new ticket in the active round keeps the tables consistent. */
  lemma IssuedConsistent(rounds: seq<Round>, tickets: seq<Ticket>, next: nat, t: Ticket)
    requires Consistent(rounds, tickets, next)
    requires t.id !in TicketIds(tickets)
    requires t.roundId in RoundIds(rounds)
    ensures Consistent(rounds, tickets + [t], next)
  {
    var after := tickets + [t];
    forall i | 0 <= i < |tickets| ensures after[i].id != t.id {
      assert tickets[i] in tickets;
    }
  }

  /** A new ticket in the active round raises that round's count by one. */
  lemma IssuedCountsOnce(rounds: seq<Round>, tickets: seq<Ticket>, t: Ticket)
    requires CurrentRound(rounds).Some? && t.roundId == CurrentRound(rounds).value.id
    ensures CountTicketsInCurrentRound(rounds, tickets + [t]) == CountTicketsInCurrentRound(rounds, tickets) + 1
  {
    CountForRoundAppend(tickets, t, t.roundId);
  }

  /**
   * createTicket: without an active round, fail with NoActiveRound and leave the
   * tickets as they are; otherwise append one ticket bound to the active round
   * and return its id.
   */
  method CreateTicket(db: Db, newId: Id, idNumber: string, selectedNumbers: seq<int>)
    returns (r: Result<Id, TicketError>)
    requires db.Valid()
    requires newId !in TicketIds(db.tickets)
    modifies db`tickets
    ensures db.Valid()
    ensures CurrentRound(db.rounds).None? ==> r == Failure(NoActiveRound) && db.tickets == old(db.tickets)
    ensures CurrentRound(db.rounds).Some? ==>
              && r == Success(newId) && r.value !in TicketIds(old(db.tickets))
              && db.tickets == old(db.tickets) + [Ticket(newId, CurrentRound(db.rounds).value.id, idNumber, selectedNumbers)]
              && CountTicketsInCurrentRound(db.rounds, db.tickets)
                 == CountTicketsInCurrentRound(db.rounds, old(db.tickets)) + 1
  {
    var current := CurrentRound(db.rounds);
    if current.None? {
      return Failure(NoActiveRound);
    }
    var t := Ticket(newId, current.value.id, idNumber, selectedNumbers);
    assert current.value in db.rounds;
    IssuedConsistent(db.rounds, db.tickets, db.nextCreatedAt, t);
    IssuedCountsOnce(db.rounds, db.tickets, t);
    db.tickets := db.tickets + [t];
    return Success(newId);
  }

  /** The round a ticket names; the foreign key guarantees there is one. */
  function RoundById(rounds: seq<Round>, id: Id): (r: Round)
    requires id in RoundIds(rounds)
    ensures r in rounds && r.id == id
  {
    if rounds[0].id == id then rounds[0]
    else
      assert id in RoundIds(rounds[1..]) by {
        var q :| q in rounds && q.id == id;
        var k :| 0 <= k < |rounds| && rounds[k] == q;
        assert k != 0;
        assert rounds[1..][k - 1] == q;
      }
      RoundById(rounds[1..], id)
  }

  /** getTicketById: the ticket with that id and its round, or nothing. */
  function GetTicketById(rounds: seq<Round>, tickets: seq<Ticket>, id: Id): (r: Option<TicketWithRound>)
    requires TicketsReferenceRounds(rounds, tickets)
    ensures r.None? <==> id !in TicketIds(tickets)
    ensures r.Some? ==> && r.value.ticket in tickets && r.value.ticket.id == id
                        && r.value.round in rounds && r.value.round.id == r.value.ticket.roundId
  {
    match FindFirst(tickets, (t: Ticket) => t.id == id)
    case None =>
      assert forall q :: q in tickets ==> q.id != id;
      None
    case Some(t) =>
      assert t.roundId in RoundIds(rounds) by {
        var k :| 0 <= k < |tickets| && tickets[k] == t;
      }
      Some(TicketWithRound(t, RoundById(rounds, t.roundId)))
  }

  /** With unique ticket and round ids, the lookup returns exactly the row and its round. */
  lemma GetTicketByIdExact(rounds: seq<Round>, tickets: seq<Ticket>, next: nat, i: nat, j: nat)
    requires Consistent(rounds, tickets, next)
    requires i < |tickets| && j < |rounds| && rounds[j].id == tickets[i].roundId
    ensures GetTicketById(rounds, tickets, tickets[i].id) == Some(TicketWithRound(tickets[i], rounds[j]))
  {
    assert tickets[i] in tickets;
    var r := GetTicketById(rounds, tickets, tickets[i].id);
    var a :| 0 <= a < |tickets| && tickets[a] == r.value.ticket;
    var b :| 0 <= b < |rounds| && rounds[b] == r.value.round;
  }
}
