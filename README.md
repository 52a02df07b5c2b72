# Lottery rounds and tickets — a Dafny model

The application is a small lottery. An operator opens a round. Signed-in
users submit an id number and a comma-separated list of numbers. Each
accepted form becomes a ticket bound to the active round. The operator
then closes the round and stores the drawn numbers. Anyone holding a
ticket id can look the ticket up together with its round and, once the
draw is stored, its drawn numbers.

The model has two parts.

**The request schemas** (`src/utils/validation.ts`) are pure functions.
- The JavaScript built-ins the ticket schema relies on are modelled by
  JsText: `String.prototype.trim`, `split(',')` and `parseInt(s, 10)`.
- The ticket form check is `Validation.ValidateTicket`. Its zod
  semantics are written out:
  - every rule runs, and its issue is recorded, in schema order: id
    number too short, id number too long, numbers missing, count, range,
    uniqueness;
  - an empty numbers string skips the transform, and the model then
    reports only the missing numbers (see "## Left out" for what zod does
    after that);
  - the submission page shows the first issue's message
    (`src/routes/web.ts:62`).
- The operator's results payload is parsed over a small JSON datatype.

**The round/ticket lifecycle** (`src/services/rounds.ts`, `results.ts`,
`tickets.ts`) is a state machine over two tables.
- The tables are held in one database object, `Store.Db`, with fields
  `rounds : seq<Round>`, `tickets : seq<Ticket>` and a creation counter.
- The services that change rows are methods with `modifies` clauses:
  creating a round (one atomic step for the transaction), closing a
  round, storing drawn numbers and creating a ticket.
- The read-only queries are functions over the table values:
  - the current round (`findFirst` where `isActive`);
  - the latest round (`orderBy createdAt desc`);
  - the ticket count of the current round;
  - the ticket with its round (`findUnique … include round`).
- Each state change is also defined as a function on table values
  (`Deactivated`, `Opened`, `Recorded`). Its lemmas state what it keeps
  and what it changes, and the methods ensure their new state equals
  that function.
- The invariant `Store.Consistent` holds throughout. It states:
  - only the latest created round can be active, which gives at most one
    active round;
  - creation stamps increase along the table;
  - an active round has no `closedAt` and no drawn numbers, and a closed
    one has a `closedAt`;
  - round ids and ticket ids are unique;
  - every ticket names an existing round.

`Lifecycle.OneCycle` runs one full cycle on a fresh database. Its
contract states what a user sees before and after the draw.

Things the program takes from its environment are parameters:
- row ids, which the database generates as UUIDs, are passed in, with the
  requirement that they are fresh;
- `new Date()` is an abstract clock value `now`;
- `createdAt` is a counter that the database object advances on each
  creation.

Two behaviours of the code differ from what a reader might expect:
- A second store of drawn numbers is often expected to always decline.
  The code declines only when the drawn numbers already stored are
  non-empty, so a successful store of an empty list leaves the round open
  to another store; `Results.StoreOnce` states exactly that. The results
  route's schema demands at least one number, so through the route a
  second store does always decline.
- Drawn numbers are often expected to be integers, but the results schema
  accepts any JSON number (`z.number()`).

## Model

| member | source | states |
|---|---|---|
| JsText.Trim | src/utils/validation.ts:15 | definition of trim: white space removed from the start, then from the end; its properties are the lemmas below |
| JsText.TrimStartSpec | src/utils/validation.ts:15 | trimming the start removes exactly a run of leading JavaScript white space; what is kept is a suffix that does not start with white space |
| JsText.TrimEndSpec | src/utils/validation.ts:15 | trimming the end removes exactly a run of trailing white space; what is kept is a prefix that does not end with white space |
| JsText.TrimSpec | src/utils/validation.ts:15 | a trimmed piece neither starts nor ends with white space |
| JsText.TrimKeepsUnpadded | src/utils/validation.ts:15 | trim leaves a string without surrounding white space unchanged |
| JsText.TrimIdempotent | src/utils/validation.ts:15 | trimming twice is trimming once |
| JsText.Split | src/utils/validation.ts:14 | split(',') always yields at least one piece, so the empty string gives one empty piece |
| JsText.SplitPiecesCommaFree | src/utils/validation.ts:14 | no piece of split(',') contains a comma |
| JsText.SplitCount | src/utils/validation.ts:14 | split(',') yields one piece more than there are commas |
| JsText.JoinSplit | src/utils/validation.ts:14 | joining the pieces with commas gives back the original string |
| JsText.SplitJoin | src/utils/validation.ts:14 | splitting comma-free pieces joined with commas gives back the pieces |
| JsText.SplitNoComma | src/utils/validation.ts:14 | a string without a comma splits into itself alone |
| JsText.SplitPastPiece | src/utils/validation.ts:14 | a comma-free piece followed by a comma splits off as the first piece |
| JsText.ParseInt | src/utils/validation.ts:16 | definition of parseInt(s, 10): leading white space skipped, one optional sign, the longest run of decimal digits, NaN without digits; its properties are stated by LeadingDigitsSpec, ParseIntShow and ParseIntNoDigits |
| JsText.LeadingDigitsSpec | src/utils/validation.ts:16 | the digit run parseInt reads is the longest prefix of decimal digits |
| JsText.ShowSpec | src/utils/validation.ts:14-16 | the decimal writing of an integer has no comma and no surrounding white space |
| JsText.NatDigitsValue | src/utils/validation.ts:16 | the digits written for a natural number read back as that number |
| JsText.ParseIntShow | src/utils/validation.ts:16 | parseInt of a written integer, followed by anything that is not a digit, is that integer: trailing text after the digits is ignored |
| JsText.ParseIntNoDigits | src/utils/validation.ts:16 | a string with no digit after the optional sign parses to NaN |
| Validation.ParseNumbers | src/utils/validation.ts:12-18 | definition of the transform: split on commas, then trim and parseInt each piece; its properties are stated by ParseNumbersPieces and ParseShowList |
| Validation.ParsePiecesAt | src/utils/validation.ts:14-17 | the map keeps one entry per piece, each the parseInt of the trimmed piece |
| Validation.ParseNumbersPieces | src/utils/validation.ts:12-18 | the transform yields exactly one entry per comma-separated piece, one more than the commas, each the base-10 parseInt of the trimmed piece |
| Validation.UniqueOkIffDistinct | src/utils/validation.ts:28-31 | a Set of the numbers is as large as the list iff no two entries are equal |
| Validation.RangeOkIffAllInRange | src/utils/validation.ts:24-27 | the every-check holds iff every entry is a number in [1, 45] |
| Validation.RefinementIssuesAreFailingRules | src/utils/validation.ts:20-31 | the three refinements report an issue for exactly the rules the parsed list breaks |
| Validation.RefinementIssuesInOrder | src/utils/validation.ts:20-31 | the refinement issues come in the order count, range, uniqueness, each at most once |
| Validation.OptionalIssuesInOrder | src/utils/validation.ts:20-31 | any selection of the three refinement issues, taken in schema order, is in schema order |
| Validation.TicketIssues | src/utils/validation.ts:4-32 | definition of the issue list zod collects: the id number checks, then the numbers check or, for a non-empty string, the three refinements on the parsed list; its properties are stated by TicketIssuesAreFailingRules |
| Validation.TicketIssuesAreFailingRules | src/utils/validation.ts:4-32 | the issue list holds exactly the failing rules of both fields, each once, in schema order |
| Validation.ValidateTicket | src/utils/validation.ts:4-32 | a form is accepted iff no rule fails. Accepted data keeps the id number, which has 1 to 20 characters, and one integer per piece: 6 to 10 of them, each in [1, 45], pairwise distinct, and each the parsed value of its piece. A rejection's first issue is a failing rule of least rank |
| Validation.Accepted | src/utils/validation.ts:4-32 | with no issue, the id number has 1 to 20 characters and the parsed list has 6 to 10 distinct numbers in [1, 45] |
| Validation.Rejected | src/utils/validation.ts:4-32 | with some issue, the first one is a failing rule that no failing rule precedes |
| Validation.BadPieceRejected | src/utils/validation.ts:24-27 | any piece that reads as NaN or as an integer outside [1, 45] rejects the form |
| Validation.ReportedMessage | src/routes/web.ts:62 | definition of the message shown: the first issue's message, or "Invalid input" when there is none; its property is stated by RejectionShowsEarliestRule |
| Validation.RejectionShowsEarliestRule | src/routes/web.ts:62 | when a rule fails and no earlier rule does, the page shows that rule's message |
| Validation.ParsePieceShow | src/utils/validation.ts:15-16 | trimming and parsing a written number gives that number |
| Validation.ParseShowList | src/utils/validation.ts:12-18 | the transform reads back exactly the numbers of a comma-separated list written by a client |
| Validation.RefinementsOnIntegers | src/utils/validation.ts:20-31 | on a list of integers, the three refinements are the count, range and distinctness of those integers |
| Validation.ShowListRules | src/utils/validation.ts:4-32 | for a written list, rule by rule, which schema rules fail, in terms of the id number and the integers |
| Validation.ValidateShowList | src/utils/validation.ts:4-32 | a written list is accepted, as exactly those integers, iff the id number has 1 to 20 characters and the list has 6 to 10 distinct numbers in [1, 45] |
| Validation.ShowListCons | src/utils/validation.ts:14 | a written list is its head, a comma, then the rest |
| Validation.ExampleTexts | src/utils/validation.ts:14 | the example lists are written "1,2,3,4,5,6", "1,2,3,4,5", "1,1,2,3,4,5" and "0,2,3,4,5,6" |
| Validation.ExampleSixNumbersAccepted | src/utils/validation.ts:20-23 | "1,2,3,4,5,6" is accepted as those six numbers |
| Validation.ExampleFiveNumbersRejected | src/utils/validation.ts:20-23 | "1,2,3,4,5" is rejected, with the count message shown |
| Validation.ExampleDuplicateRejected | src/utils/validation.ts:28-31 | "1,1,2,3,4,5" is rejected, with the uniqueness message shown |
| Validation.ExampleOutOfRangeRejected | src/utils/validation.ts:24-27 | "0,2,3,4,5,6" is rejected, with the range message shown |
| Validation.ParseStoreResults | src/utils/validation.ts:35-39 | a body is accepted iff it is an object whose numbers field is a non-empty array of numbers, and the result is those numbers |
| Validation.StoreResultsAcceptsAnyNumbers | src/utils/validation.ts:35-39 | any non-empty list of numbers, repeats and out-of-range values included, is accepted unchanged; the empty list is refused |
| Store.FindFirst | src/services/rounds.ts:35-37 | nothing is found iff no row matches; otherwise the result is a matching row with no matching row before it |
| Rounds.CurrentRound | src/services/rounds.ts:34-38 | none iff no round is active; otherwise an active round of the table |
| Rounds.CurrentRoundIsTheActiveRound | src/services/rounds.ts:34-38 | with at most one active round, the current round is exactly that round |
| Rounds.LatestRound | src/services/rounds.ts:41-45 | none iff there are no rounds; otherwise a round of the table with the greatest createdAt |
| Rounds.LatestRoundIsLast | src/services/rounds.ts:41-45 | the stamps increase along the table, so the latest round is the last row |
| Rounds.CountForRound | src/services/rounds.ts:52-54 | the count is the number of tickets whose roundId is the given id |
| Rounds.CountTicketsInCurrentRound | src/services/rounds.ts:48-55 | 0 when no round is active; otherwise the number of tickets of the active round, never more than the ticket count |
| Rounds.CountForRoundAppend | src/services/rounds.ts:52-54 | a new ticket counts for its own round and for no other |
| Rounds.Deactivated | src/services/rounds.ts:10-13 | definition of the updateMany that both createNewRound and closeCurrentRound run (rounds.ts:27-30): every active row becomes inactive with closedAt = now; its properties are stated by DeactivatedEffect, DeactivatedNoActive, DeactivatedIdempotent and DeactivatedKeepsKeys |
| Rounds.DeactivatedEffect | src/services/rounds.ts:10-13 | after the update no round is active; each previously active round is closed at now and keeps its id, stamp and drawn numbers; inactive rounds are unchanged |
| Rounds.DeactivatedNoActive | src/services/rounds.ts:27-30 | with no active round the update changes nothing |
| Rounds.DeactivatedIdempotent | src/services/rounds.ts:26-31 | closing twice, at any two times, is closing once |
| Rounds.Opened | src/services/rounds.ts:8-21 | definition of the table after the transaction: the deactivated table plus one new open row; its properties are stated by OpenedHasOneActive and OpenedConsistent |
| Rounds.OpenedHasOneActive | src/services/rounds.ts:8-21 | after the transaction exactly one round is active: the appended one, which has the new id, no drawn numbers and no closedAt, and is the current round |
| Rounds.DeactivatedKeepsKeys | src/services/rounds.ts:10-13 | the update keeps every row's id and stamp, so the set of round ids is unchanged |
| Rounds.ClosedConsistent | src/services/rounds.ts:26-31 | closing keeps the invariant and leaves no current round |
| Rounds.AppendedConsistent | src/services/rounds.ts:16-21 | appending a fresh open round with the next stamp, to a table with no open round, keeps the invariant |
| Rounds.OpenedConsistent | src/services/rounds.ts:8-21 | the whole transaction keeps the invariant |
| Rounds.CreateNewRound | src/services/rounds.ts:7-23 | the new table is the deactivated old one plus the new open round. The counter advances, tickets are unchanged, the invariant is kept, at most one round is active, and the new round is the current one |
| Rounds.CloseCurrentRound | src/services/rounds.ts:26-31 | the new table is the deactivated old one, the invariant is kept and no round is current; with no active round the table is unchanged |
| Results.Storable | src/services/results.ts:9-24 | definition of the three guards: a latest round exists, it is not active, and its drawn numbers are empty; its properties are stated by StorableIff and StoreOnce |
| Results.Recorded | src/services/results.ts:9-30 | definition of the table after the call: the update by the latest round's id when the guards pass, the table unchanged otherwise; its properties are stated by RecordedTouchesOnlyLatest, RecordedDeclined, RecordedConsistent and StoreOnce |
| Results.StorableIff | src/services/results.ts:9-24 | on consistent tables the three guards pass iff there is a round, the last row is closed and it has no drawn numbers |
| Results.RecordedTouchesOnlyLatest | src/services/results.ts:27-30 | the update by id changes only the latest round, and only its drawn numbers |
| Results.RecordedDeclined | src/services/results.ts:14-24 | a declined store leaves the table unchanged |
| Results.FilledLastConsistent | src/services/results.ts:27-30 | filling in the numbers of a closed last row keeps the invariant |
| Results.ClosedLastNoCurrent | src/services/results.ts:18-20 | when the last row is closed, no round is active |
| Results.RecordedConsistent | src/services/results.ts:7-33 | storing keeps the invariant, the current round and the round ids |
| Results.StoreOnce | src/services/results.ts:22-32 | after a call, a later store is possible iff one was possible before and the numbers stored were empty: after a successful store of non-empty numbers every later call declines |
| Results.StoreDrawnNumbers | src/services/results.ts:7-33 | it returns true iff a latest round exists, is closed and has no drawn numbers; then only that row's drawn numbers change, to the input; otherwise nothing changes; tickets are never touched |
| Tickets.IssuedConsistent | src/services/tickets.ts:23-29 | a ticket with a fresh id for an existing round keeps the invariant |
| Tickets.IssuedCountsOnce | src/services/tickets.ts:23-29 | a ticket for the current round raises its count by exactly one |
| Tickets.CreateTicket | src/services/tickets.ts:12-32 | with no active round it fails with NoActiveRound and leaves the tickets unchanged; otherwise it appends exactly one ticket, with the fresh id, the active round's id and the given id number and numbers, returns that id and raises the current count by one; rounds are never touched |
| Tickets.RoundById | src/services/tickets.ts:35-42 | the round with the given id, which the foreign key guarantees |
| Tickets.GetTicketById | src/services/tickets.ts:35-42 | none iff no ticket has the id; otherwise that ticket together with the round whose id is its roundId |
| Tickets.GetTicketByIdExact | src/services/tickets.ts:35-42 | with unique ids the lookup returns exactly the stored ticket and its round |
| Lifecycle.OpenAndIssue | src/services/tickets.ts:12-32 | on a fresh database, after a round is opened, an accepted form becomes the only ticket, and looking it up shows the open round |
| Lifecycle.DrawAndLookUp | src/services/results.ts:7-33 | after closing and storing, the store succeeds, the ticket shows its round closed at the given time with the drawn numbers, and a second store declines unless the draw was empty |
| Lifecycle.OneCycle | src/routes/web.ts:58-72 | a rejected form gets no ticket. An accepted form becomes a ticket in the open round, with the validated numbers and no draw. After the close and the draw, the same ticket shows its round closed with the drawn numbers |

## Left out

- HTTP routing, status codes and template rendering (`src/routes/web.ts`, `src/routes/api.ts`) are not modelled. The one exception is the choice of the first issue's message, which `Validation.ReportedMessage` models.
- Authentication (`src/auth/oidc.ts`, `src/auth/m2m.ts`) is left out. It is a wrapper over external libraries.
- Environment loading (`src/env.ts`) and server wiring (`src/server.ts`) are left out for the same reason.
- QR code generation (`src/utils/qr.ts`) is delegated to a library; scripts/generate-secret.js is not part of this model.
- Concurrency is not modelled. Concurrent callers and transaction isolation are outside the model, and createNewRound's transaction is treated as one atomic step.
- UUID generation is replaced by fresh-id parameters. Timestamps from `new Date()` become an abstract clock value.
- Round.createdAt is a counter. It increases strictly, so the model never has two rounds with the same timestamp. The ticket table's createdAt column is not modelled.
- getCurrentRound uses `findFirst` without `orderBy`; the model reads that as table order. Under the invariant at most one round is active, so the order does not matter.
- Non-string or missing form fields (zod's "Required" issue) are not modelled: both fields are taken to be strings.
- Validation.ValidateTicket: string length is counted in code points, not in UTF-16 code units as JavaScript counts it. The two differ only for characters outside the Basic Multilingual Plane.
- Validation.ValidateTicket: parseInt is modelled on unbounded integers. Above 2^53, JavaScript rounds the result to a double. Such values are far outside [1, 45] and rejected either way.
- Validation.ValidateTicket: for an empty numbers string the model reports only "Numbers are required". In zod 3 a failed `min(1)` does not stop the later steps: the transform is skipped and the refinements run on the raw empty string. The count refinement (validation.ts:20-23) adds its issue, and the range refinement (validation.ts:24-27) then throws a TypeError, because a string has no `every` method. The error escapes `safeParse`, and the submission route's catch (web.ts:80-83) shows "Error processing ticket", not "Numbers are required". The model does not capture that thrown error or the message the page then shows.
- JSON numbers are modelled as reals. The drawn-numbers column is an integer array, and the model stores the drawn numbers as integers; the conversion between the two is left out.
- Prisma errors other than the no-active-round case are not modelled, nor are database failures.
