/**
 * RoundsService: opening and closing rounds, and the queries over the round
 * table (src/services/rounds.ts).
 */
module Rounds {
  import opened Common
  import opened Store

  /** getCurrentRound: the first round with isActive set, if any. */
  function CurrentRound(rounds: seq<Round>): (r: Option<Round>)
    ensures r.None? <==> forall i :: 0 <= i < |rounds| ==> !rounds[i].isActive
    ensures r.Some? ==> r.value in rounds && r.value.isActive
  {
    FindFirst(rounds, (x: Round) => x.isActive)
  }

  /** With at most one active round, getCurrentRound returns exactly that round. */
  lemma CurrentRoundIsTheActiveRound(rounds: seq<Round>, i: nat)
    requires AtMostOneActive(rounds)
    requires i < |rounds| && rounds[i].isActive
    ensures CurrentRound(rounds) == Some(rounds[i])
  {
    var r := CurrentRound(rounds);
    var k :| 0 <= k < |rounds| && rounds[k] == r.value && rounds[k].isActive;
    assert k == i;
  }

  /** getLatestRound: the round with the greatest createdAt (orderBy createdAt desc, first row). */
  function LatestRound(rounds: seq<Round>): (r: Option<Round>)
    ensures r.None? <==> rounds == []
    ensures r.Some? ==> r.value in rounds
    ensures r.Some? ==> forall i :: 0 <= i < |rounds| ==> rounds[i].createdAt <= r.value.createdAt
  {
    if rounds == [] then None
    else
      var last := rounds[|rounds| - 1];
      var earlier := rounds[..|rounds| - 1];
      match LatestRound(earlier)
      case None => Some(last)
      case Some(x) =>
        assert forall i :: 0 <= i < |earlier| ==> rounds[i] == earlier[i];
        if x.createdAt > last.createdAt then Some(x) else Some(last)
  }

  /** Rows are in creation order, so the latest round is the last row. */
  lemma LatestRoundIsLast(rounds: seq<Round>, nextCreatedAt: nat)
    requires CreatedInOrder(rounds, nextCreatedAt)
    requires rounds != []
    ensures LatestRound(rounds) == Some(rounds[|rounds| - 1])
  {
    var earlier := rounds[..|rounds| - 1];
    var r := LatestRound(earlier);
    if r.Some? {
      var k :| 0 <= k < |earlier| && earlier[k] == r.value;
      assert rounds[k] == r.value;
    }
  }

  /** count of tickets whose roundId is id. */
  function CountForRound(tickets: seq<Ticket>, id: Id): (n: nat)
    ensures n == multiset(RoundRefs(tickets))[id]
  {
    if tickets == [] then 0
    else
      assert RoundRefs(tickets) == [tickets[0].roundId] + RoundRefs(tickets[1..]);
      (if tickets[0].roundId == id then 1 else 0) + CountForRound(tickets[1..], id)
  }

  /** The roundId column. */
  function RoundRefs(tickets: seq<Ticket>): (refs: seq<Id>)
    ensures |refs| == |tickets| && forall i :: 0 <= i < |tickets| ==> refs[i] == tickets[i].roundId
  {
    seq(|tickets|, i requires 0 <= i < |tickets| => tickets[i].roundId)
  }

  /** countTicketsInCurrentRound: 0 without an active round, else that round's ticket count. */
  function CountTicketsInCurrentRound(rounds: seq<Round>, tickets: seq<Ticket>): (n: nat)
    ensures CurrentRound(rounds).None? ==> n == 0
    ensures CurrentRound(rounds).Some? ==> n == multiset(RoundRefs(tickets))[CurrentRound(rounds).value.id]
    ensures n <= |tickets|
  {
    match CurrentRound(rounds)
    case None => 0
    case Some(current) =>
      MultiplicityBound(RoundRefs(tickets), current.id);
      CountForRound(tickets, current.id)
  }

  lemma {:induction false} MultiplicityBound<T>(s: seq<T>, x: T)
    ensures multiset(s)[x] <= |s|
  {
    if s != [] {
      assert s == [s[0]] + s[1..];
      MultiplicityBound(s[1..], x);
    }
  }

  /** An added ticket counts for its own round and for no other. */
  lemma CountForRoundAppend(tickets: seq<Ticket>, t: Ticket, id: Id)
    ensures CountForRound(tickets + [t], id) == CountForRound(tickets, id) + (if t.roundId == id then 1 else 0)
  {
    assert RoundRefs(tickets + [t]) == RoundRefs(tickets) + [t.roundId];
  }

  /** The updateMany of both operations: every active round becomes inactive, closed at now. */
  function Deactivated(rounds: seq<Round>, now: Time): seq<Round> {
    seq(|rounds|, i requires 0 <= i < |rounds| =>
      if rounds[i].isActive then rounds[i].(isActive := false, closedAt := Some(now)) else rounds[i])
  }

  /**
   * After the deactivation no round is active; each previously active round is
   * closed at now with its other fields kept, and every inactive round is unchanged.
   */
  lemma DeactivatedEffect(rounds: seq<Round>, now: Time)
    ensures var after := Deactivated(rounds, now);
            && |after| == |rounds|
            && (forall i :: 0 <= i < |rounds| ==> !after[i].isActive)
            && (forall i :: 0 <= i < |rounds| && !rounds[i].isActive ==> after[i] == rounds[i])
            && (forall i :: 0 <= i < |rounds| && rounds[i].isActive ==>
                  && after[i].closedAt == Some(now)
                  && after[i].id == rounds[i].id
                  && after[i].drawnNumbers == rounds[i].drawnNumbers
                  && after[i].createdAt == rounds[i].createdAt)
  {
  }

  /** With no active round the deactivation changes nothing. */
  lemma DeactivatedNoActive(rounds: seq<Round>, now: Time)
    requires forall i :: 0 <= i < |rounds| ==> !rounds[i].isActive
    ensures Deactivated(rounds, now) == rounds
  {
  }

  /** Closing twice is closing once, whatever the second clock reading. */
  lemma DeactivatedIdempotent(rounds: seq<Round>, now: Time, later: Time)
    ensures Deactivated(Deactivated(rounds, now), later) == Deactivated(rounds, now)
  {
    DeactivatedEffect(rounds, now);
    DeactivatedNoActive(Deactivated(rounds, now), later);
  }

  /** The round table after createNewRound's transaction. */
  function Opened(rounds: seq<Round>, newId: Id, createdAt: nat, now: Time): seq<Round> {
    Deactivated(rounds, now) + [Round(newId, true, [], createdAt, None)]
  }

  /**
   * After opening, exactly one round is active: the appended one, which has no
   * drawn numbers and no closing time, and is what getCurrentRound returns.
   */
  lemma OpenedHasOneActive(rounds: seq<Round>, newId: Id, createdAt: nat, now: Time)
    ensures var after := Opened(rounds, newId, createdAt, now);
            && |after| == |rounds| + 1
            && (forall i :: 0 <= i < |after| ==> (after[i].isActive <==> i == |rounds|))
            && after[|rounds|].id == newId
            && after[|rounds|].drawnNumbers == [] && after[|rounds|].closedAt == None
            && AtMostOneActive(after)
            && CurrentRound(after) == Some(after[|rounds|])
  {
    var after := Opened(rounds, newId, createdAt, now);
    DeactivatedEffect(rounds, now);
    assert forall i :: 0 <= i < |rounds| ==> after[i] == Deactivated(rounds, now)[i];
    CurrentRoundIsTheActiveRound(after, |rounds|);
  }

  /** The deactivation keeps every row's id and creation stamp. */
  lemma DeactivatedKeepsKeys(rounds: seq<Round>, now: Time)
    ensures |Deactivated(rounds, now)| == |rounds|
    ensures forall i :: 0 <= i < |rounds| ==>
              Deactivated(rounds, now)[i].id == rounds[i].id
              && Deactivated(rounds, now)[i].createdAt == rounds[i].createdAt
    ensures RoundIds(Deactivated(rounds, now)) == RoundIds(rounds)
  {
    SameRoundIds(rounds, Deactivated(rounds, now));
  }

  /** Closing keeps the tables consistent and leaves no round active. */
  lemma ClosedConsistent(rounds: seq<Round>, tickets: seq<Ticket>, next: nat, now: Time)
    requires Consistent(rounds, tickets, next)
    ensures Consistent(Deactivated(rounds, now), tickets, next)
    ensures CurrentRound(Deactivated(rounds, now)).None?
  {
    DeactivatedEffect(rounds, now);
    DeactivatedKeepsKeys(rounds, now);
  }

  /**
   * Appending a new open round with a fresh id and the next creation stamp to a
   * table with no open round keeps the tables consistent.
   */
  lemma AppendedConsistent(rounds: seq<Round>, tickets: seq<Ticket>, next: nat, r: Round)
    requires Consistent(rounds, tickets, next)
    requires forall i :: 0 <= i < |rounds| ==> !rounds[i].isActive
    requires r.id !in RoundIds(rounds) && r.createdAt == next
    requires r.isActive && r.drawnNumbers == [] && r.closedAt == None
    ensures Consistent(rounds + [r], tickets, next + 1)
  {
    var after := rounds + [r];
    forall i | 0 <= i < |rounds| ensures after[i].id != r.id {
      assert rounds[i] in rounds;
    }
    assert RoundIds(after) == RoundIds(rounds) + {r.id} by {
      assert r in after;
      forall x | x in RoundIds(rounds) ensures x in RoundIds(after) {
        var q :| q in rounds && q.id == x;
        assert q in after;
      }
    }
  }

  /** Opening a round with a fresh id and the next creation stamp keeps the tables consistent. */
  lemma OpenedConsistent(rounds: seq<Round>, tickets: seq<Ticket>, next: nat, newId: Id, now: Time)
    requires Consistent(rounds, tickets, next)
    requires newId !in RoundIds(rounds)
    ensures Consistent(Opened(rounds, newId, next, now), tickets, next + 1)
  {
    ClosedConsistent(rounds, tickets, next, now);
    DeactivatedEffect(rounds, now);
    DeactivatedKeepsKeys(rounds, now);
    AppendedConsistent(Deactivated(rounds, now), tickets, next, Round(newId, true, [], next, None));
  }

  /**
   * createNewRound: in one transaction, deactivate every active round (closed at
   * now) and append a new active round with no drawn numbers.
   */
  method CreateNewRound(db: Db, newId: Id, now: Time)
    requires db.Valid()
    requires newId !in RoundIds(db.rounds)
    modifies db
    ensures db.Valid()
    ensures db.rounds == Opened(old(db.rounds), newId, old(db.nextCreatedAt), now)
    ensures db.tickets == old(db.tickets)
    ensures db.nextCreatedAt == old(db.nextCreatedAt) + 1
    ensures AtMostOneActive(db.rounds)
    ensures CurrentRound(db.rounds) == Some(Round(newId, true, [], old(db.nextCreatedAt), None))
  {
    OpenedConsistent(db.rounds, db.tickets, db.nextCreatedAt, newId, now);
    OpenedHasOneActive(db.rounds, newId, db.nextCreatedAt, now);
    db.rounds := Deactivated(db.rounds, now);
    db.rounds := db.rounds + [Round(newId, true, [], db.nextCreatedAt, None)];
    db.nextCreatedAt := db.nextCreatedAt + 1;
  }

  /** closeCurrentRound: deactivate every active round, closed at now. */
  method CloseCurrentRound(db: Db, now: Time)
    requires db.Valid()
    modifies db`rounds
    ensures db.Valid()
    ensures db.rounds == Deactivated(old(db.rounds), now)
    ensures CurrentRound(db.rounds).None?
    ensures CurrentRound(old(db.rounds)).None? ==> db.rounds == old(db.rounds)
  {
    ClosedConsistent(db.rounds, db.tickets, db.nextCreatedAt, now);
    if CurrentRound(db.rounds).None? {
      DeactivatedNoActive(db.rounds, now);
    }
    db.rounds := Deactivated(db.rounds, now);
  }
}
