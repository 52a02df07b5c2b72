/**
 * The two request schemas of src/utils/validation.ts: the ticket form
 * (an id number and a comma-separated list of numbers) and the operator's
 * results payload, plus the choice of the message shown to the user.
 */
module Validation {
  import opened Common
  import opened JsText

  const MinIdLength := 1
  const MaxIdLength := 20
  const MinCount := 6
  const MaxCount := 10
  const MinNumber := 1
  const MaxNumber := 45

  /** One failed rule of the ticket schema, in the order the schema checks them. */
  datatype Issue =
    | IdRequired
    | IdTooLong
    | NumbersRequired
    | CountOutOfRange
    | NumberOutOfRange
    | DuplicateNumbers

  /** The message each rule reports. */
  function Message(i: Issue): string {
    match i
    case IdRequired => "ID number is required"
    case IdTooLong => "ID number must not exceed 20 characters"
    case NumbersRequired => "Numbers are required"
    case CountOutOfRange => "You must select between 6 and 10 numbers"
    case NumberOutOfRange => "All numbers must be between 1 and 45"
    case DuplicateNumbers => "Numbers must be unique (no duplicates)"
  }

  /** The position of a rule in the schema: the idNumber field first, then the numbers field's checks. */
  function Rank(i: Issue): nat {
    match i
    case IdRequired => 0
    case IdTooLong => 1
    case NumbersRequired => 2
    case CountOutOfRange => 3
    case NumberOutOfRange => 4
    case DuplicateNumbers => 5
  }

  /** The schema's transform: split on commas, trim each piece, parseInt it in base 10. */
  function ParseNumbers(s: string): seq<Parsed> {
    ParsePieces(Split(s))
  }

  /** pieces.map(n => parseInt(n.trim(), 10)) */
  function ParsePieces(pieces: seq<string>): seq<Parsed> {
    if pieces == [] then [] else [ParseInt(Trim(pieces[0]))] + ParsePieces(pieces[1..])
  }

  lemma {:induction false} ParsePiecesAt(pieces: seq<string>)
    ensures |ParsePieces(pieces)| == |pieces|
    ensures forall i :: 0 <= i < |pieces| ==> ParsePieces(pieces)[i] == ParseInt(Trim(pieces[i]))
  {
    if pieces != [] {
      ParsePiecesAt(pieces[1..]);
    }
  }

  predicate CountOk(nums: seq<Parsed>) {
    MinCount <= |nums| <= MaxCount
  }

  /** nums.every(n => !isNaN(n) && n >= 1 && n <= 45) */
  predicate RangeOk(nums: seq<Parsed>) {
    forall i :: 0 <= i < |nums| ==> nums[i].Num? && MinNumber <= nums[i].value <= MaxNumber
  }

  /** new Set(nums).size === nums.length; a Set identifies NaN with NaN and -0 with 0. */
  predicate UniqueOk(nums: seq<Parsed>) {
    |set n | n in nums| == |nums|
  }

  predicate Distinct<T(==)>(s: seq<T>) {
    forall i, j :: 0 <= i < j < |s| ==> s[i] != s[j]
  }

  /** The set of a sequence's elements is as large as the sequence iff no element repeats. */
  lemma {:induction false} UniqueOkIffDistinct<T>(s: seq<T>)
    ensures |set x | x in s| == |s| <==> Distinct(s)
    ensures |set x | x in s| <= |s|
  {
    if s != [] {
      var tail := s[1..];
      UniqueOkIffDistinct(tail);
      var st := set x | x in tail;
      assert (set x | x in s) == st + {s[0]};
      if s[0] in tail {
        var k :| 0 <= k < |tail| && tail[k] == s[0];
        assert s[0] == s[k + 1];
        assert !Distinct(s);
      } else {
        assert s[0] !in st;
        if Distinct(tail) {
          forall i, j | 0 <= i < j < |s| ensures s[i] != s[j] {
            if i > 0 {
              assert s[i] == tail[i - 1] && s[j] == tail[j - 1];
            } else {
              assert s[j] == tail[j - 1];
            }
          }
        } else {
          var i, j :| 0 <= i < j < |tail| && tail[i] == tail[j];
          assert s[i + 1] == s[j + 1];
        }
      }
    }
  }

  /** idNumber: z.string().min(1).max(20) */
  function IdNumberIssues(idNumber: string): seq<Issue> {
    (if |idNumber| < MinIdLength then [IdRequired] else [])
    + (if |idNumber| > MaxIdLength then [IdTooLong] else [])
  }

  /**
   * numbers: z.string().min(1), then the transform and the refinements. An
   * empty string stops before the transform.
   */
  function NumbersIssues(s: string): seq<Issue> {
    if |s| < 1 then [NumbersRequired] else RefinementIssues(ParseNumbers(s))
  }

  /**
   * The three refinements on the parsed numbers. A failed refinement does not
   * stop the later ones, so every failing rule adds its issue.
   */
  function RefinementIssues(nums: seq<Parsed>): seq<Issue> {
    (if !CountOk(nums) then [CountOutOfRange] else [])
    + (if !RangeOk(nums) then [NumberOutOfRange] else [])
    + (if !UniqueOk(nums) then [DuplicateNumbers] else [])
  }

  /** The issues of the whole object, fields in declaration order. */
  function TicketIssues(idNumber: string, numbers: string): seq<Issue> {
    IdNumberIssues(idNumber) + NumbersIssues(numbers)
  }

  /** Rule by rule: does this rule of the ticket schema reject the submission? */
  predicate Fails(rule: Issue, idNumber: string, numbers: string) {
    match rule
    case IdRequired => |idNumber| == 0
    case IdTooLong => |idNumber| > 20
    case NumbersRequired => numbers == ""
    case _ => numbers != "" && RefinementFails(rule, ParseNumbers(numbers))
  }

  /** Rule by rule, for the rules about the parsed numbers. */
  predicate RefinementFails(rule: Issue, nums: seq<Parsed>) {
    match rule
    case CountOutOfRange => !(6 <= |nums| <= 10)
    case NumberOutOfRange => exists n :: n in nums && !InRange(n)
    case DuplicateNumbers => !Distinct(nums)
    case _ => false
  }

  predicate InRange(p: Parsed) {
    p.Num? && 1 <= p.value <= 45
  }

  /** Issues listed with strictly increasing rank: each rule at most once, in schema order. */
  predicate InSchemaOrder(issues: seq<Issue>) {
    forall i, j :: 0 <= i < j < |issues| ==> Rank(issues[i]) < Rank(issues[j])
  }

  lemma OrderedConcat(a: seq<Issue>, b: seq<Issue>)
    requires InSchemaOrder(a) && InSchemaOrder(b)
    requires forall i, j :: 0 <= i < |a| && 0 <= j < |b| ==> Rank(a[i]) < Rank(b[j])
    ensures InSchemaOrder(a + b)
  {
    forall i, j | 0 <= i < j < |a + b| ensures Rank((a + b)[i]) < Rank((a + b)[j]) {
      if j < |a| {
      } else if i >= |a| {
        assert (a + b)[i] == b[i - |a|] && (a + b)[j] == b[j - |a|];
      } else {
        assert (a + b)[j] == b[j - |a|];
      }
    }
  }

  /** Checking every position is checking every element. */
  lemma RangeOkIffAllInRange(nums: seq<Parsed>)
    ensures RangeOk(nums) <==> forall n :: n in nums ==> InRange(n)
  {
    if RangeOk(nums) {
      forall n | n in nums ensures InRange(n) {
        var i :| 0 <= i < |nums| && nums[i] == n;
      }
    } else {
      var i :| 0 <= i < |nums| && !InRange(nums[i]);
      assert nums[i] in nums;
    }
  }

  /** The refinements report exactly the failing refinement rules. */
  lemma RefinementIssuesAreFailingRules(nums: seq<Parsed>)
    ensures forall rule :: rule in RefinementIssues(nums) <==> RefinementFails(rule, nums)
  {
    UniqueOkIffDistinct(nums);
    RangeOkIffAllInRange(nums);
  }

  /** The refinements report their issues in schema order, after the rules on the raw fields. */
  lemma RefinementIssuesInOrder(nums: seq<Parsed>)
    ensures InSchemaOrder(RefinementIssues(nums))
    ensures forall i :: 0 <= i < |RefinementIssues(nums)| ==> Rank(RefinementIssues(nums)[i]) >= 3
  {
    OptionalIssuesInOrder(!CountOk(nums), !RangeOk(nums), !UniqueOk(nums));
  }

  lemma OptionalIssuesInOrder(count: bool, range: bool, unique: bool)
    ensures var issues := (if count then [CountOutOfRange] else [])
                          + (if range then [NumberOutOfRange] else [])
                          + (if unique then [DuplicateNumbers] else []);
            && InSchemaOrder(issues)
            && forall i :: 0 <= i < |issues| ==> Rank(issues[i]) >= 3
  {
    var c := if count then [CountOutOfRange] else [];
    var r := if range then [NumberOutOfRange] else [];
    var u := if unique then [DuplicateNumbers] else [];
    assert InSchemaOrder(c) && InSchemaOrder(r) && InSchemaOrder(u);
    assert InSchemaOrder(c + r) by {
      OrderedConcat(c, r);
    }
    assert forall i :: 0 <= i < |c + r| ==> Rank((c + r)[i]) <= 4;
    OrderedConcat(c + r, u);
  }

  /** The issue list holds exactly the failing rules, each once, in schema order. */
  lemma TicketIssuesAreFailingRules(idNumber: string, numbers: string)
    ensures forall rule :: rule in TicketIssues(idNumber, numbers) <==> Fails(rule, idNumber, numbers)
    ensures InSchemaOrder(TicketIssues(idNumber, numbers))
  {
    var ids := IdNumberIssues(idNumber);
    var ns := NumbersIssues(numbers);
    if numbers != "" {
      RefinementIssuesAreFailingRules(ParseNumbers(numbers));
      RefinementIssuesInOrder(ParseNumbers(numbers));
    }
    assert forall i :: 0 <= i < |ns| ==> Rank(ns[i]) >= 2;
    assert forall i :: 0 <= i < |ids| ==> Rank(ids[i]) < 2;
    OrderedConcat(ids, ns);
  }

  /** The validated form data. */
  datatype TicketInput = TicketInput(idNumber: string, numbers: seq<int>)

  /** ticketSchema.safeParse: the transformed data, or every issue found. */
  function ValidateTicket(idNumber: string, numbers: string): (r: Result<TicketInput, seq<Issue>>)
    ensures r.Success? <==> forall rule :: !Fails(rule, idNumber, numbers)
    ensures r.Success? ==>
              && r.value.idNumber == idNumber
              && 1 <= |idNumber| <= 20
              && |r.value.numbers| == |ParseNumbers(numbers)|
              && 6 <= |r.value.numbers| <= 10
              && (forall i :: 0 <= i < |r.value.numbers| ==>
                    1 <= r.value.numbers[i] <= 45 && ParseNumbers(numbers)[i] == Num(r.value.numbers[i]))
              && Distinct(r.value.numbers)
    ensures r.Failure? ==> |r.error| > 0 && Fails(r.error[0], idNumber, numbers)
                           && forall rule :: Fails(rule, idNumber, numbers) ==> Rank(r.error[0]) <= Rank(rule)
  {
    TicketIssuesAreFailingRules(idNumber, numbers);
    if TicketIssues(idNumber, numbers) == [] then
      Accepted(idNumber, numbers);
      Success(TicketInput(idNumber, ValuesOf(ParseNumbers(numbers))))
    else
      Rejected(idNumber, numbers);
      Failure(TicketIssues(idNumber, numbers))
  }

  /** The integers of a list that holds no NaN. */
  function ValuesOf(nums: seq<Parsed>): (vs: seq<int>)
    requires forall i :: 0 <= i < |nums| ==> nums[i].Num?
    ensures |vs| == |nums| && forall i :: 0 <= i < |nums| ==> nums[i] == Num(vs[i])
  {
    seq(|nums|, i requires 0 <= i < |nums| => nums[i].value)
  }

  /** With no issue, the parsed numbers are 6 to 10 distinct integers in [1, 45]. */
  lemma Accepted(idNumber: string, numbers: string)
    requires TicketIssues(idNumber, numbers) == []
    ensures 1 <= |idNumber| <= 20 && numbers != ""
    ensures var nums := ParseNumbers(numbers);
            && 6 <= |nums| <= 10
            && (forall i :: 0 <= i < |nums| ==> InRange(nums[i]))
            && Distinct(ValuesOf(nums))
  {
    TicketIssuesAreFailingRules(idNumber, numbers);
    var nums := ParseNumbers(numbers);
    assert !Fails(IdRequired, idNumber, numbers) && !Fails(IdTooLong, idNumber, numbers);
    assert !Fails(NumbersRequired, idNumber, numbers);
    assert !Fails(CountOutOfRange, idNumber, numbers);
    assert !Fails(NumberOutOfRange, idNumber, numbers);
    assert !Fails(DuplicateNumbers, idNumber, numbers);
    forall i | 0 <= i < |nums| ensures InRange(nums[i]) {
      assert nums[i] in nums;
    }
    var vs := ValuesOf(nums);
    forall i, j | 0 <= i < j < |vs| ensures vs[i] != vs[j] {
      assert nums[i] != nums[j];
    }
  }

  /** With some issue, the first one is failing and of least rank among the failing rules. */
  lemma Rejected(idNumber: string, numbers: string)
    requires TicketIssues(idNumber, numbers) != []
    ensures var issues := TicketIssues(idNumber, numbers);
            && Fails(issues[0], idNumber, numbers)
            && forall rule :: Fails(rule, idNumber, numbers) ==> Rank(issues[0]) <= Rank(rule)
  {
    TicketIssuesAreFailingRules(idNumber, numbers);
    var issues := TicketIssues(idNumber, numbers);
    assert issues[0] in issues;
    forall rule | Fails(rule, idNumber, numbers) ensures Rank(issues[0]) <= Rank(rule) {
      assert rule in issues;
      var k :| 0 <= k < |issues| && issues[k] == rule;
    }
  }

  /**
   * The transform yields one number per comma-separated piece: the parseInt
   * of the trimmed piece.
   */
  lemma ParseNumbersPieces(s: string)
    ensures |ParseNumbers(s)| == |Split(s)| == multiset(s)[','] + 1
    ensures forall i :: 0 <= i < |Split(s)| ==> ParseNumbers(s)[i] == ParseInt(Trim(Split(s)[i]))
  {
    SplitCount(s);
    ParsePiecesAt(Split(s));
  }

  /**
   * A piece that reads as NaN (no leading digits) or as an integer outside
   * [1, 45] rejects the submission.
   */
  lemma BadPieceRejected(idNumber: string, numbers: string, i: nat)
    requires i < |Split(numbers)|
    requires !InRange(ParseInt(Trim(Split(numbers)[i])))
    ensures ValidateTicket(idNumber, numbers).Failure?
  {
    ParseNumbersPieces(numbers);
  }

  /** The message the submission page shows: the first issue's, as src/routes/web.ts does. */
  function ReportedMessage(issues: seq<Issue>): string {
    if |issues| > 0 then Message(issues[0]) else "Invalid input"
  }

  /** A rejected submission shows the message of its earliest failing rule. */
  lemma RejectionShowsEarliestRule(idNumber: string, numbers: string, rule: Issue)
    requires Fails(rule, idNumber, numbers)
    requires forall other :: Rank(other) < Rank(rule) ==> !Fails(other, idNumber, numbers)
    ensures ValidateTicket(idNumber, numbers).Failure?
    ensures ReportedMessage(ValidateTicket(idNumber, numbers).error) == Message(rule)
  {
    var r := ValidateTicket(idNumber, numbers);
    assert r.Failure?;
    var first := r.error[0];
    assert Rank(first) == Rank(rule);
  }

  /** The pieces a client writes for a list of numbers. */
  function ShowPieces(xs: seq<int>): (ps: seq<string>)
    ensures |ps| == |xs| && forall i :: 0 <= i < |xs| ==> ps[i] == Show(xs[i])
  {
    seq(|xs|, i requires 0 <= i < |xs| => Show(xs[i]))
  }

  /** The text a client writes for a list of numbers: "n,n,...,n". */
  function ShowList(xs: seq<int>): string
    requires |xs| >= 1
  {
    Join(ShowPieces(xs))
  }

  /** One written number, trimmed and parsed, is that number. */
  lemma ParsePieceShow(n: int)
    ensures ParseInt(Trim(Show(n))) == Num(n)
  {
    ShowSpec(n);
    TrimKeepsUnpadded(Show(n));
    ParseIntShow(n, "");
    assert Show(n) + "" == Show(n);
  }

  /** The transform reads back exactly the numbers of a written list. */
  lemma ParseShowList(xs: seq<int>)
    requires |xs| >= 1
    ensures |ParseNumbers(ShowList(xs))| == |xs|
    ensures forall i :: 0 <= i < |xs| ==> ParseNumbers(ShowList(xs))[i] == Num(xs[i])
  {
    var pieces := ShowPieces(xs);
    forall i | 0 <= i < |pieces| ensures ',' !in pieces[i] {
      ShowSpec(xs[i]);
    }
    SplitJoin(pieces);
    ParseNumbersPieces(ShowList(xs));
    forall i | 0 <= i < |xs| ensures ParseNumbers(ShowList(xs))[i] == Num(xs[i]) {
      ParsePieceShow(xs[i]);
    }
  }

  /** On a list of integers, the refinement rules read as statements about the integers. */
  lemma RefinementsOnIntegers(nums: seq<Parsed>, xs: seq<int>)
    requires |nums| == |xs| && forall i :: 0 <= i < |xs| ==> nums[i] == Num(xs[i])
    ensures RefinementFails(CountOutOfRange, nums) <==> !(6 <= |xs| <= 10)
    ensures RefinementFails(NumberOutOfRange, nums) <==> !(forall i :: 0 <= i < |xs| ==> 1 <= xs[i] <= 45)
    ensures RefinementFails(DuplicateNumbers, nums) <==> !Distinct(xs)
  {
    RangeOkIffAllInRange(nums);
    assert RangeOk(nums) <==> forall i :: 0 <= i < |xs| ==> 1 <= xs[i] <= 45;
    assert Distinct(nums) <==> Distinct(xs) by {
      assert forall i, j :: 0 <= i < |xs| && 0 <= j < |xs| ==> (nums[i] == nums[j] <==> xs[i] == xs[j]);
    }
  }

  lemma JoinStartsWithFirst(pieces: seq<string>)
    requires |pieces| >= 1
    ensures |Join(pieces)| >= |pieces[0]|
  {
  }

  /** Rule by rule, what fails for a written list of integers. */
  lemma ShowListRules(idNumber: string, xs: seq<int>)
    requires |xs| >= 1
    ensures Fails(IdRequired, idNumber, ShowList(xs)) <==> |idNumber| < 1
    ensures Fails(IdTooLong, idNumber, ShowList(xs)) <==> |idNumber| > 20
    ensures !Fails(NumbersRequired, idNumber, ShowList(xs))
    ensures Fails(CountOutOfRange, idNumber, ShowList(xs)) <==> !(6 <= |xs| <= 10)
    ensures Fails(NumberOutOfRange, idNumber, ShowList(xs)) <==> !(forall i :: 0 <= i < |xs| ==> 1 <= xs[i] <= 45)
    ensures Fails(DuplicateNumbers, idNumber, ShowList(xs)) <==> !Distinct(xs)
  {
    ParseShowList(xs);
    JoinStartsWithFirst(ShowPieces(xs));
    RefinementsOnIntegers(ParseNumbers(ShowList(xs)), xs);
  }

  /**
   * A written list of numbers is accepted, with exactly those numbers, iff the id
   * number has 1 to 20 characters and the list has 6 to 10 distinct numbers in [1, 45].
   */
  lemma ValidateShowList(idNumber: string, xs: seq<int>)
    requires |xs| >= 1
    ensures ValidateTicket(idNumber, ShowList(xs)).Success?
            <==> 1 <= |idNumber| <= 20 && 6 <= |xs| <= 10
                 && (forall i :: 0 <= i < |xs| ==> 1 <= xs[i] <= 45) && Distinct(xs)
    ensures ValidateTicket(idNumber, ShowList(xs)).Success? ==>
              ValidateTicket(idNumber, ShowList(xs)).value == TicketInput(idNumber, xs)
  {
    var s := ShowList(xs);
    ShowListRules(idNumber, xs);
    ParseShowList(xs);
    if 1 <= |idNumber| <= 20 && 6 <= |xs| <= 10 && (forall i :: 0 <= i < |xs| ==> 1 <= xs[i] <= 45) && Distinct(xs) {
      forall rule ensures !Fails(rule, idNumber, s) {
      }
    } else {
      assert || Fails(IdRequired, idNumber, s) || Fails(IdTooLong, idNumber, s)
             || Fails(CountOutOfRange, idNumber, s) || Fails(NumberOutOfRange, idNumber, s)
             || Fails(DuplicateNumbers, idNumber, s);
    }
    var r := ValidateTicket(idNumber, s);
    if r.Success? {
      assert r.value.numbers == xs;
    }
  }

  /** Writing a list is writing its head, a comma, then the rest. */
  lemma ShowListCons(x: int, xs: seq<int>)
    requires |xs| >= 1
    ensures ShowList([x] + xs) == Show(x) + "," + ShowList(xs)
  {
    assert ShowPieces([x] + xs)[1..] == ShowPieces(xs);
  }

  lemma ShowDigit(n: nat)
    requires n < 10
    ensures Show(n) == [DigitChar(n)]
  {
  }

  /** The text "a,b,c,d,e" for single-digit numbers. */
  lemma ShowFive(a: nat, b: nat, c: nat, d: nat, e: nat)
    requires a < 10 && b < 10 && c < 10 && d < 10 && e < 10
    ensures ShowList([a, b, c, d, e])
            == [DigitChar(a), ',', DigitChar(b), ',', DigitChar(c), ',', DigitChar(d), ',', DigitChar(e)]
  {
    ShowDigit(a); ShowDigit(b); ShowDigit(c); ShowDigit(d); ShowDigit(e);
    assert ShowList([e]) == Show(e);
    ShowListCons(d, [e]);
    assert [d] + [e] == [d, e];
    ShowListCons(c, [d, e]);
    assert [c] + [d, e] == [c, d, e];
    ShowListCons(b, [c, d, e]);
    assert [b] + [c, d, e] == [b, c, d, e];
    ShowListCons(a, [b, c, d, e]);
    assert [a] + [b, c, d, e] == [a, b, c, d, e];
  }

  /** The text "a,b,c,d,e,f" for single-digit numbers. */
  lemma ShowSix(a: nat, b: nat, c: nat, d: nat, e: nat, f: nat)
    requires a < 10 && b < 10 && c < 10 && d < 10 && e < 10 && f < 10
    ensures ShowList([a, b, c, d, e, f])
            == [DigitChar(a), ',', DigitChar(b), ',', DigitChar(c), ',', DigitChar(d), ',', DigitChar(e), ',', DigitChar(f)]
  {
    ShowDigit(a);
    ShowFive(b, c, d, e, f);
    ShowListCons(a, [b, c, d, e, f]);
    assert [a] + [b, c, d, e, f] == [a, b, c, d, e, f];
  }

  /** The texts of the example lists below. */
  lemma ExampleTexts(six: seq<int>, five: seq<int>, dup: seq<int>, zero: seq<int>)
    requires six == [1, 2, 3, 4, 5, 6] && five == [1, 2, 3, 4, 5]
    requires dup == [1, 1, 2, 3, 4, 5] && zero == [0, 2, 3, 4, 5, 6]
    ensures ShowList(six) == "1,2,3,4,5,6" && ShowList(five) == "1,2,3,4,5"
    ensures ShowList(dup) == "1,1,2,3,4,5" && ShowList(zero) == "0,2,3,4,5,6"
  {
    ShowSix(1, 2, 3, 4, 5, 6);
    ShowFive(1, 2, 3, 4, 5);
    ShowSix(1, 1, 2, 3, 4, 5);
    ShowSix(0, 2, 3, 4, 5, 6);
  }

  /** "1,2,3,4,5,6" with id number "A123" is accepted as those six numbers. */
  lemma ExampleSixNumbersAccepted(xs: seq<int>)
    requires |xs| == 6 && xs[0] == 1 && xs[1] == 2 && xs[2] == 3 && xs[3] == 4 && xs[4] == 5 && xs[5] == 6
    ensures ValidateTicket("A123", ShowList(xs)) == Success(TicketInput("A123", xs))
  {
    assert forall i :: 0 <= i < |xs| ==> xs[i] == i + 1;
    assert Distinct(xs);
    ValidateShowList("A123", xs);
  }

  /** "1,2,3,4,5" is rejected: too few numbers. */
  lemma ExampleFiveNumbersRejected(xs: seq<int>)
    requires |xs| == 5 && xs[0] == 1 && xs[1] == 2 && xs[2] == 3 && xs[3] == 4 && xs[4] == 5
    ensures ValidateTicket("A123", ShowList(xs)).Failure?
    ensures ReportedMessage(ValidateTicket("A123", ShowList(xs)).error) == "You must select between 6 and 10 numbers"
  {
    ShowListRules("A123", xs);
    RejectionShowsEarliestRule("A123", ShowList(xs), CountOutOfRange);
  }

  /** "1,1,2,3,4,5" is rejected: a number repeats. */
  lemma ExampleDuplicateRejected(xs: seq<int>)
    requires |xs| == 6 && xs[0] == 1 && xs[1] == 1 && xs[2] == 2 && xs[3] == 3 && xs[4] == 4 && xs[5] == 5
    ensures ValidateTicket("A123", ShowList(xs)).Failure?
    ensures ReportedMessage(ValidateTicket("A123", ShowList(xs)).error) == "Numbers must be unique (no duplicates)"
  {
    assert forall i :: 0 <= i < |xs| ==> 1 <= xs[i] <= 45;
    assert !Distinct(xs) by { assert xs[0] == xs[1]; }
    ShowListRules("A123", xs);
    RejectionShowsEarliestRule("A123", ShowList(xs), DuplicateNumbers);
  }

  /** "0,2,3,4,5,6" is rejected: 0 is out of range. */
  lemma ExampleOutOfRangeRejected(xs: seq<int>)
    requires |xs| == 6 && xs[0] == 0 && xs[1] == 2 && xs[2] == 3 && xs[3] == 4 && xs[4] == 5 && xs[5] == 6
    ensures ValidateTicket("A123", ShowList(xs)).Failure?
    ensures ReportedMessage(ValidateTicket("A123", ShowList(xs)).error) == "All numbers must be between 1 and 45"
  {
    ShowListRules("A123", xs);
    RejectionShowsEarliestRule("A123", ShowList(xs), NumberOutOfRange);
  }

  /** A JSON request body, as the body parser hands it over. */
  datatype Json =
    | JNull
    | JBool(b: bool)
    | JNumber(n: real)
    | JString(s: string)
    | JArray(items: seq<Json>)
    | JObject(fields: map<string, Json>)

  /** z.array(z.number()).min(1): a non-empty array whose every element is a number. */
  predicate IsNumberArray(v: Json) {
    v.JArray? && |v.items| >= 1 && forall i :: 0 <= i < |v.items| ==> v.items[i].JNumber?
  }

  /** The array of a list of numbers. */
  function NumberArray(xs: seq<real>): (v: Json)
    ensures v.JArray? && |v.items| == |xs|
    ensures forall i :: 0 <= i < |xs| ==> v.items[i] == JNumber(xs[i])
  {
    JArray(seq(|xs|, i requires 0 <= i < |xs| => JNumber(xs[i])))
  }

  /**
   * storeResultsSchema.safeParse: the numbers of a body whose "numbers" field is a
   * non-empty array of numbers; other fields are ignored, and there is no range or
   * uniqueness rule.
   */
  function ParseStoreResults(body: Json): (r: Option<seq<real>>)
    ensures r.Some? <==> body.JObject? && "numbers" in body.fields && IsNumberArray(body.fields["numbers"])
    ensures r.Some? ==> |r.value| >= 1 && body.fields["numbers"] == NumberArray(r.value)
  {
    if body.JObject? && "numbers" in body.fields && IsNumberArray(body.fields["numbers"]) then
      var items := body.fields["numbers"].items;
      var xs := seq(|items|, i requires 0 <= i < |items| => items[i].n);
      assert NumberArray(xs).items == items;
      Some(xs)
    else
      None
  }

  /** The body {"numbers": xs}. */
  function ResultsBody(xs: seq<real>): Json {
    JObject(map["numbers" := NumberArray(xs)])
  }

  /** Any non-empty list of numbers is accepted as it is, repeats and all; the empty list is refused. */
  lemma StoreResultsAcceptsAnyNumbers(xs: seq<real>)
    ensures ParseStoreResults(ResultsBody(xs)) == if |xs| >= 1 then Some(xs) else None
  {
    var r := ParseStoreResults(ResultsBody(xs));
    if |xs| >= 1 {
      assert r.Some?;
      var v := NumberArray(r.value);
      assert v == NumberArray(xs);
      assert |r.value| == |xs|;
      forall i | 0 <= i < |xs| ensures r.value[i] == xs[i] {
        assert v.items[i] == JNumber(r.value[i]);
        assert NumberArray(xs).items[i] == JNumber(xs[i]);
      }
      assert r.value == xs;
    }
  }
}
