/**
 * ResultsService: recording the drawn numbers of the round that was just
 * closed (src/services/results.ts).
 */
module Results {
  import opened Common
  import opened Store
  import opened Rounds

  /** The latest round exists, is closed, and has no drawn numbers yet. */
  predicate Storable(rounds: seq<Round>) {
    match LatestRound(rounds)
    case None => false
    case Some(latest) => !latest.isActive && |latest.drawnNumbers| == 0
  }

  /** round.update where id: the row with that id gets the numbers. */
  function WithDrawnNumbers(rounds: seq<Round>, id: Id, numbers: seq<int>): seq<Round> {
    seq(|rounds|, i requires 0 <= i < |rounds| =>
      if rounds[i].id == id then rounds[i].(drawnNumbers := numbers) else rounds[i])
  }

  /** The round table after storeDrawnNumbers, whichever way it returns. */
  function Recorded(rounds: seq<Round>, numbers: seq<int>): seq<Round> {
    if Storable(rounds) then WithDrawnNumbers(rounds, LatestRound(rounds).value.id, numbers)
    else rounds
  }

  /**
   * On consistent tables the three guards amount to: there is a row, the last
   * row is closed, and it has no drawn numbers.
   */
  lemma StorableIff(rounds: seq<Round>, tickets: seq<Ticket>, next: nat)
    requires Consistent(rounds, tickets, next)
    ensures Storable(rounds) <==>
              |rounds| > 0 && !rounds[|rounds| - 1].isActive && rounds[|rounds| - 1].drawnNumbers == []
  {
    if rounds != [] {
      LatestRoundIsLast(rounds, next);
    }
  }

  /** With unique ids, the update by id touches the last row only. */
  lemma RecordedTouchesOnlyLatest(rounds: seq<Round>, tickets: seq<Ticket>, next: nat, numbers: seq<int>)
    requires Consistent(rounds, tickets, next)
    requires Storable(rounds)
    ensures |rounds| > 0
    ensures Recorded(rounds, numbers)
            == rounds[|rounds| - 1 := rounds[|rounds| - 1].(drawnNumbers := numbers)]
  {
    LatestRoundIsLast(rounds, next);
    var last := |rounds| - 1;
    var after := Recorded(rounds, numbers);
    forall i | 0 <= i < last ensures after[i] == rounds[i] {
      assert rounds[i].id != rounds[last].id;
    }
  }

  /** Declining leaves the table as it was. */
  lemma RecordedDeclined(rounds: seq<Round>, numbers: seq<int>)
    requires !Storable(rounds)
    ensures Recorded(rounds, numbers) == rounds
  {
  }

  /** Filling in the numbers of a closed last row keeps the tables consistent. */
  lemma FilledLastConsistent(rounds: seq<Round>, tickets: seq<Ticket>, next: nat, numbers: seq<int>)
    requires Consistent(rounds, tickets, next)
    requires |rounds| > 0 && !rounds[|rounds| - 1].isActive
    ensures var after := rounds[|rounds| - 1 := rounds[|rounds| - 1].(drawnNumbers := numbers)];
            Consistent(after, tickets, next) && RoundIds(after) == RoundIds(rounds)
  {
    var last := |rounds| - 1;
    var after := rounds[last := rounds[last].(drawnNumbers := numbers)];
    SameRoundIds(rounds, after);
  }

  /** A closed last row means no round is active. */
  lemma ClosedLastNoCurrent(rounds: seq<Round>, tickets: seq<Ticket>, next: nat)
    requires Consistent(rounds, tickets, next)
    requires |rounds| > 0 && !rounds[|rounds| - 1].isActive
    ensures CurrentRound(rounds).None?
  {
  }

  /** Storing keeps the tables consistent and changes no round's activity. */
  lemma RecordedConsistent(rounds: seq<Round>, tickets: seq<Ticket>, next: nat, numbers: seq<int>)
    requires Consistent(rounds, tickets, next)
    ensures Consistent(Recorded(rounds, numbers), tickets, next)
    ensures CurrentRound(Recorded(rounds, numbers)) == CurrentRound(rounds)
    ensures RoundIds(Recorded(rounds, numbers)) == RoundIds(rounds)
  {
    if Storable(rounds) {
      RecordedTouchesOnlyLatest(rounds, tickets, next, numbers);
      StorableIff(rounds, tickets, next);
      FilledLastConsistent(rounds, tickets, next, numbers);
      ClosedLastNoCurrent(rounds, tickets, next);
      var after := Recorded(rounds, numbers);
      ClosedLastNoCurrent(after, tickets, next);
    }
  }

  /**
   * Results are stored at most once per round: after a store of non-empty
   * numbers the next store declines; after storing [] the round stays open to
   * a store.
   */
  lemma StoreOnce(rounds: seq<Round>, tickets: seq<Ticket>, next: nat, numbers: seq<int>)
    requires Consistent(rounds, tickets, next)
    ensures Storable(Recorded(rounds, numbers)) <==> Storable(rounds) && numbers == []
  {
    if Storable(rounds) {
      RecordedTouchesOnlyLatest(rounds, tickets, next, numbers);
      RecordedConsistent(rounds, tickets, next, numbers);
      StorableIff(rounds, tickets, next);
      StorableIff(Recorded(rounds, numbers), tickets, next);
    }
  }

  /**
   * storeDrawnNumbers: decline (false) when there is no round, when the latest
   * round is still active, or when it already has drawn numbers; otherwise
   * write the numbers into the latest round and accept (true).
   */
  method StoreDrawnNumbers(db: Db, numbers: seq<int>) returns (stored: bool)
    requires db.Valid()
    modifies db`rounds
    ensures db.Valid()
    ensures stored <==> Storable(old(db.rounds))
    ensures stored <==> |old(db.rounds)| > 0 && !old(db.rounds)[|old(db.rounds)| - 1].isActive
                        && old(db.rounds)[|old(db.rounds)| - 1].drawnNumbers == []
    ensures db.rounds == Recorded(old(db.rounds), numbers)
    ensures stored ==> db.rounds == old(db.rounds)[|old(db.rounds)| - 1 :=
                                       old(db.rounds)[|old(db.rounds)| - 1].(drawnNumbers := numbers)]
    ensures !stored ==> db.rounds == old(db.rounds)
  {
    StorableIff(db.rounds, db.tickets, db.nextCreatedAt);
    RecordedConsistent(db.rounds, db.tickets, db.nextCreatedAt, numbers);
    var latest := LatestRound(db.rounds);
    if latest.None? {
      return false;
    }
    if latest.value.isActive {
      return false;
    }
    if |latest.value.drawnNumbers| > 0 {
      return false;
    }
    RecordedTouchesOnlyLatest(db.rounds, db.tickets, db.nextCreatedAt, numbers);
    db.rounds := WithDrawnNumbers(db.rounds, latest.value.id, numbers);
    return true;
  }
}
