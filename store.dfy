/**
 * The two database tables the services share, Round and Ticket, and the
 * facts about them that every service operation keeps.
 */
module Store {
  import opened Common

  /** Row identifiers, generated by the database and compared as text. */
  type Id = string

  /** A value of the server clock (new Date()), kept abstract. */
  type Time = nat

  /**
   * One lottery cycle. createdAt is a counter the store hands out in creation
   * order; closedAt is set when the round is deactivated.
   */
  datatype Round = Round(
    id: Id,
    isActive: bool,
    drawnNumbers: seq<int>,
    createdAt: nat,
    closedAt: Option<Time>)

  /** One user's selection, bound to the round that was active when it was issued. */
  datatype Ticket = Ticket(
    id: Id,
    roundId: Id,
    idNumber: string,
    selectedNumbers: seq<int>)

  /** findFirst / findUnique: the first row, in table order, that matches p. */
  function FindFirst<T>(rows: seq<T>, p: T -> bool): (r: Option<T>)
    ensures r.None? <==> forall i :: 0 <= i < |rows| ==> !p(rows[i])
    ensures r.Some? ==> exists i :: 0 <= i < |rows| && rows[i] == r.value && p(rows[i])
                                    && forall j :: 0 <= j < i ==> !p(rows[j])
  {
    if rows == [] then None
    else if p(rows[0]) then Some(rows[0])
    else
      var r := FindFirst(rows[1..], p);
      assert r.Some? ==> exists i :: 1 <= i < |rows| && rows[i] == r.value && p(rows[i])
                                     && forall j :: 0 <= j < i ==> !p(rows[j]) by {
        if r.Some? {
          var i :| 0 <= i < |rows| - 1 && rows[1..][i] == r.value && p(rows[1..][i])
                   && forall j :: 0 <= j < i ==> !p(rows[1..][j]);
          assert forall j :: 1 <= j < i + 1 ==> rows[j] == rows[1..][j - 1];
        }
      }
      r
  }

  function RoundIds(rounds: seq<Round>): set<Id> {
    set r | r in rounds :: r.id
  }

  function TicketIds(tickets: seq<Ticket>): set<Id> {
    set t | t in tickets :: t.id
  }

  /** The central invariant: at most one round is active. */
  predicate AtMostOneActive(rounds: seq<Round>) {
    forall i, j :: 0 <= i < j < |rounds| && rounds[i].isActive ==> !rounds[j].isActive
  }

  /** Tables whose rows agree position by position on their ids have the same id set. */
  lemma SameRoundIds(rounds: seq<Round>, after: seq<Round>)
    requires |after| == |rounds|
    requires forall i :: 0 <= i < |rounds| ==> after[i].id == rounds[i].id
    ensures RoundIds(after) == RoundIds(rounds)
  {
    forall x | x in RoundIds(rounds) ensures x in RoundIds(after) {
      var r :| r in rounds && r.id == x;
      var k :| 0 <= k < |rounds| && rounds[k] == r;
      assert after[k] in after;
    }
    forall x | x in RoundIds(after) ensures x in RoundIds(rounds) {
      var r :| r in after && r.id == x;
      var k :| 0 <= k < |after| && after[k] == r;
      assert rounds[k] in rounds;
    }
  }

  /** Only the most recently created round can be active. */
  predicate ActiveIsLast(rounds: seq<Round>) {
    forall i :: 0 <= i < |rounds| && rounds[i].isActive ==> i == |rounds| - 1
  }

  /** Rows are in creation order, and the counter is ahead of every row. */
  predicate CreatedInOrder(rounds: seq<Round>, nextCreatedAt: nat) {
    && (forall i, j :: 0 <= i < j < |rounds| ==> rounds[i].createdAt < rounds[j].createdAt)
    && (forall i :: 0 <= i < |rounds| ==> rounds[i].createdAt < nextCreatedAt)
  }

  /** An open round has no closing time and no drawn numbers; a closed one has a closing time. */
  predicate LifecycleFields(rounds: seq<Round>) {
    forall i :: 0 <= i < |rounds| ==>
      && (rounds[i].isActive <==> rounds[i].closedAt.None?)
      && (rounds[i].isActive ==> rounds[i].drawnNumbers == [])
  }

  predicate UniqueRoundIds(rounds: seq<Round>) {
    forall i, j :: 0 <= i < j < |rounds| ==> rounds[i].id != rounds[j].id
  }

  predicate UniqueTicketIds(tickets: seq<Ticket>) {
    forall i, j :: 0 <= i < j < |tickets| ==> tickets[i].id != tickets[j].id
  }

  /** The foreign key: every ticket names an existing round. */
  predicate TicketsReferenceRounds(rounds: seq<Round>, tickets: seq<Ticket>) {
    forall i :: 0 <= i < |tickets| ==> tickets[i].roundId in RoundIds(rounds)
  }

  /** Everything the operations of the services keep true of the two tables. */
  predicate Consistent(rounds: seq<Round>, tickets: seq<Ticket>, nextCreatedAt: nat) {
    && ActiveIsLast(rounds)
    && CreatedInOrder(rounds, nextCreatedAt)
    && LifecycleFields(rounds)
    && UniqueRoundIds(rounds)
    && UniqueTicketIds(tickets)
    && TicketsReferenceRounds(rounds, tickets)
  }

  /** The stronger invariant gives the central one. */
  lemma ActiveIsLastGivesAtMostOne(rounds: seq<Round>)
    requires ActiveIsLast(rounds)
    ensures AtMostOneActive(rounds)
  {
  }

  /** The database: both tables and the creation counter. */
  class Db {
    var rounds: seq<Round>
    var tickets: seq<Ticket>
    var nextCreatedAt: nat

    ghost predicate Valid()
      reads this
    {
      Consistent(rounds, tickets, nextCreatedAt)
    }

    /** An empty database. */
    constructor ()
      ensures Valid()
      ensures rounds == [] && tickets == [] && nextCreatedAt == 0
    {
      rounds, tickets, nextCreatedAt := [], [], 0;
    }
  }
}
