/**
 * The JavaScript string built-ins the ticket validator relies on:
 * String.prototype.trim, String.prototype.split with a one-character
 * separator, and the global parseInt with radix 10 (sections 22.1.3.32,
 * 22.1.3.23 and 19.2.5 of ECMA-262).
 */
module JsText {

  /** The code points ECMAScript treats as WhiteSpace or LineTerminator (what trim removes). */
  predicate IsJsSpace(c: char) {
    || c == '\t' || c == '\n' || c == '\U{000B}' || c == '\U{000C}' || c == '\r'
    || c == ' ' || c == '\U{00A0}' || c == '\U{1680}'
    || ('\U{2000}' <= c <= '\U{200A}')
    || c == '\U{2028}' || c == '\U{2029}' || c == '\U{202F}' || c == '\U{205F}'
    || c == '\U{3000}' || c == '\U{FEFF}'
  }

  /** Drops the leading run of white space. */
  function TrimStart(s: string): string {
    if |s| > 0 && IsJsSpace(s[0]) then TrimStart(s[1..]) else s
  }

  /** Drops the trailing run of white space. */
  function TrimEnd(s: string): string {
    if |s| > 0 && IsJsSpace(s[|s| - 1]) then TrimEnd(s[..|s| - 1]) else s
  }

  /** String.prototype.trim: white space removed at both ends. */
  function Trim(s: string): string {
    TrimEnd(TrimStart(s))
  }

  /** TrimStart removes exactly the leading white space: a suffix of s remains that starts with no space. */
  lemma {:induction false} TrimStartSpec(s: string)
    ensures var r := TrimStart(s);
            && |r| <= |s| && r == s[|s| - |r|..]
            && (forall k :: 0 <= k < |s| - |r| ==> IsJsSpace(s[k]))
            && (|r| > 0 ==> !IsJsSpace(r[0]))
  {
    if |s| > 0 && IsJsSpace(s[0]) {
      TrimStartSpec(s[1..]);
    }
  }

  /** TrimEnd removes exactly the trailing white space: a prefix of s remains that ends with no space. */
  lemma {:induction false} TrimEndSpec(s: string)
    ensures var r := TrimEnd(s);
            && |r| <= |s| && r == s[..|r|]
            && (forall k :: |r| <= k < |s| ==> IsJsSpace(s[k]))
            && (|r| > 0 ==> !IsJsSpace(r[|r| - 1]))
  {
    if |s| > 0 && IsJsSpace(s[|s| - 1]) {
      TrimEndSpec(s[..|s| - 1]);
    }
  }

  /** A trimmed string neither starts nor ends with white space. */
  lemma TrimSpec(s: string)
    ensures var r := Trim(s); |r| > 0 ==> !IsJsSpace(r[0]) && !IsJsSpace(r[|r| - 1])
  {
    var t := TrimStart(s);
    TrimStartSpec(s);
    TrimEndSpec(t);
    var r := TrimEnd(t);
    if |r| > 0 {
      assert r[0] == t[0];
    }
  }

  /** A string that neither starts nor ends with white space is left as it is by trim. */
  lemma TrimKeepsUnpadded(s: string)
    requires |s| > 0 ==> !IsJsSpace(s[0]) && !IsJsSpace(s[|s| - 1])
    ensures Trim(s) == s
  {
  }

  /** Trimming twice is trimming once. */
  lemma TrimIdempotent(s: string)
    ensures Trim(Trim(s)) == Trim(s)
  {
    TrimSpec(s);
    TrimKeepsUnpadded(Trim(s));
  }

  /** s.split(','): the pieces between commas, in order; an empty string gives one empty piece. */
  function Split(s: string): (r: seq<string>)
    ensures |r| >= 1
  {
    if s == [] then [""]
    else
      var rest := Split(s[1..]);
      if s[0] == ',' then [""] + rest
      else [[s[0]] + rest[0]] + rest[1..]
  }

  /** pieces.join(','): the inverse of Split. */
  function Join(pieces: seq<string>): string
    requires |pieces| >= 1
  {
    if |pieces| == 1 then pieces[0] else pieces[0] + "," + Join(pieces[1..])
  }

  /** No piece of a split contains the separator. */
  lemma {:induction false} SplitPiecesCommaFree(s: string)
    ensures forall i :: 0 <= i < |Split(s)| ==> ',' !in Split(s)[i]
  {
    if s != [] {
      SplitPiecesCommaFree(s[1..]);
      var rest := Split(s[1..]);
      if s[0] != ',' {
        assert ',' !in [s[0]] + rest[0];
        assert forall i :: 1 <= i < |Split(s)| ==> Split(s)[i] == rest[i];
      } else {
        assert forall i :: 1 <= i < |Split(s)| ==> Split(s)[i] == rest[i - 1];
      }
    }
  }

  /** Splitting yields one piece more than there are commas. */
  lemma {:induction false} SplitCount(s: string)
    ensures |Split(s)| == multiset(s)[','] + 1
  {
    if s != [] {
      SplitCount(s[1..]);
      assert s == [s[0]] + s[1..];
      assert multiset(s) == multiset([s[0]]) + multiset(s[1..]);
    }
  }

  /** Joining the pieces with commas gives back the string that was split. */
  lemma {:induction false} JoinSplit(s: string)
    ensures Join(Split(s)) == s
  {
    if s != [] {
      JoinSplit(s[1..]);
      var rest := Split(s[1..]);
      if s[0] == ',' {
        assert Split(s)[1..] == rest;
      } else if |rest| == 1 {
        assert Split(s) == [[s[0]] + rest[0]];
      } else {
        assert Split(s)[1..] == rest[1..];
        assert Join(rest) == rest[0] + "," + Join(rest[1..]);
      }
    }
  }

  /** Splitting a comma-free join gives back the pieces. */
  lemma {:induction false} SplitJoin(pieces: seq<string>)
    requires |pieces| >= 1
    requires forall i :: 0 <= i < |pieces| ==> ',' !in pieces[i]
    ensures Split(Join(pieces)) == pieces
  {
    if |pieces| == 1 {
      SplitNoComma(pieces[0]);
    } else {
      SplitJoin(pieces[1..]);
      SplitPastPiece(pieces[0], Join(pieces[1..]));
      assert [pieces[0]] + pieces[1..] == pieces;
    }
  }

  /** A comma-free string is a single piece. */
  lemma {:induction false} SplitNoComma(s: string)
    requires ',' !in s
    ensures Split(s) == [s]
  {
    if s != [] {
      SplitNoComma(s[1..]);
      assert [s[0]] + s[1..] == s;
    }
  }

  /** A comma-free first piece followed by a comma splits off as one piece. */
  lemma {:induction false} SplitPastPiece(p: string, tail: string)
    requires ',' !in p
    ensures Split(p + "," + tail) == [p] + Split(tail)
  {
    if p == [] {
      assert p + "," + tail == [','] + tail;
      assert ([','] + tail)[1..] == tail;
    } else {
      SplitPastPiece(p[1..], tail);
      assert (p + "," + tail)[1..] == p[1..] + "," + tail;
      assert [p[0]] + p[1..] == p;
    }
  }

  predicate IsDigit(c: char) {
    '0' <= c <= '9'
  }

  function DigitValue(c: char): (d: nat)
    requires IsDigit(c)
    ensures d < 10
  {
    (c as int) - ('0' as int)
  }

  function DigitChar(d: nat): (c: char)
    requires d < 10
    ensures IsDigit(c) && DigitValue(c) == d
  {
    ('0' as int + d) as char
  }

  predicate AllDigits(s: string) {
    forall k :: 0 <= k < |s| ==> IsDigit(s[k])
  }

  /** The longest prefix of s made of decimal digits. */
  function LeadingDigits(s: string): string {
    if |s| > 0 && IsDigit(s[0]) then [s[0]] + LeadingDigits(s[1..]) else ""
  }

  /** LeadingDigits is a prefix of digits that no further digit follows. */
  lemma {:induction false} LeadingDigitsSpec(s: string)
    ensures var r := LeadingDigits(s);
            && |r| <= |s| && r == s[..|r|] && AllDigits(r)
            && (|r| < |s| ==> !IsDigit(s[|r|]))
  {
    if |s| > 0 && IsDigit(s[0]) {
      LeadingDigitsSpec(s[1..]);
    }
  }

  /** The value of a run of decimal digits, most significant first. */
  function DigitsValue(d: string): nat
    requires AllDigits(d)
  {
    if d == [] then 0 else DigitsValue(d[..|d| - 1]) * 10 + DigitValue(d[|d| - 1])
  }

  /** What parseInt(s, 10) can return for a string: NaN or an integer (-0 is kept as 0). */
  datatype Parsed = NaN | Num(value: int)

  /**
   * parseInt(s, 10): skip leading white space, accept one optional sign, then take
   * the longest run of decimal digits; no digits gives NaN, and anything after the
   * digits is ignored.
   */
  function ParseInt(s: string): Parsed {
    ParseSigned(TrimStart(s))
  }

  /** parseInt after the white space: an optional sign, then the digits. */
  function ParseSigned(t: string): Parsed {
    if |t| > 0 && t[0] == '-' then Negate(ParseDigits(t[1..]))
    else if |t| > 0 && t[0] == '+' then ParseDigits(t[1..])
    else ParseDigits(t)
  }

  /** The value of the leading digit run, or NaN when there is none. */
  function ParseDigits(b: string): Parsed {
    var digits := LeadingDigits(b);
    LeadingDigitsSpec(b);
    if digits == [] then NaN else Num(DigitsValue(digits))
  }

  function Negate(p: Parsed): Parsed {
    match p
    case NaN => NaN
    case Num(v) => Num(0 - v)
  }

  /** The decimal digits of a natural number, without leading zeros. */
  function NatDigits(n: nat): (r: string)
    ensures |r| >= 1
  {
    if n < 10 then [DigitChar(n)] else NatDigits(n / 10) + [DigitChar(n % 10)]
  }

  lemma {:induction false} NatDigitsAreDigits(n: nat)
    ensures AllDigits(NatDigits(n))
  {
    if n >= 10 {
      NatDigitsAreDigits(n / 10);
    }
  }

  /** The decimal text of an integer, as String(n) writes it. */
  function Show(n: int): (r: string)
    ensures |r| >= 1
  {
    if n < 0 then "-" + NatDigits(-n) else NatDigits(n)
  }

  /** String(n) holds no comma and no white space at its ends. */
  lemma ShowSpec(n: int)
    ensures ',' !in Show(n)
    ensures !IsJsSpace(Show(n)[0]) && !IsJsSpace(Show(n)[|Show(n)| - 1])
  {
    var m: nat := if n < 0 then -n else n;
    NatDigitsAreDigits(m);
    var d := NatDigits(m);
    assert IsDigit(d[0]) && IsDigit(d[|d| - 1]);
    if n < 0 {
      assert Show(n) == ['-'] + d;
      assert forall k :: 1 <= k < |Show(n)| ==> Show(n)[k] == d[k - 1];
    }
  }

  /** Reading back the digits of n gives n. */
  lemma {:induction false} NatDigitsValue(n: nat)
    ensures AllDigits(NatDigits(n)) && DigitsValue(NatDigits(n)) == n
  {
    NatDigitsAreDigits(n);
    if n >= 10 {
      NatDigitsValue(n / 10);
      var d := NatDigits(n);
      assert d[..|d| - 1] == NatDigits(n / 10);
    }
  }

  /** A digit run followed by a non-digit (or by nothing) is exactly the leading digits. */
  lemma {:induction false} LeadingDigitsOf(d: string, tail: string)
    requires AllDigits(d)
    requires tail == [] || !IsDigit(tail[0])
    ensures LeadingDigits(d + tail) == d
  {
    if d != [] {
      LeadingDigitsOf(d[1..], tail);
      assert (d + tail)[1..] == d[1..] + tail;
      assert [d[0]] + d[1..] == d;
    }
  }

  /** parseInt reads back the number String(n) wrote, whatever non-digit text follows it. */
  lemma ParseIntShow(n: int, tail: string)
    requires tail == [] || !IsDigit(tail[0])
    ensures ParseInt(Show(n) + tail) == Num(n)
  {
    ShowSpec(n);
    ParseSignedShow(n, tail);
    TrimStartUnpadded(Show(n) + tail);
  }

  lemma ParseSignedShow(n: int, tail: string)
    requires tail == [] || !IsDigit(tail[0])
    ensures ParseSigned(Show(n) + tail) == Num(n)
  {
    if n < 0 {
      ParseDigitsOf(-n, tail);
      assert Show(n) + tail == ['-'] + (NatDigits(-n) + tail);
      ParseSignedNegative(NatDigits(-n) + tail);
    } else {
      ParseDigitsOf(n, tail);
    }
  }

  lemma ParseDigitsOf(m: nat, tail: string)
    requires tail == [] || !IsDigit(tail[0])
    ensures ParseDigits(NatDigits(m) + tail) == Num(m)
    ensures ParseSigned(NatDigits(m) + tail) == Num(m)
  {
    var d := NatDigits(m);
    NatDigitsValue(m);
    LeadingDigitsOf(d, tail);
    assert (d + tail)[0] == d[0];
  }

  lemma ParseSignedNegative(b: string)
    ensures ParseSigned(['-'] + b) == Negate(ParseDigits(b))
  {
    assert (['-'] + b)[1..] == b;
  }

  lemma TrimStartUnpadded(s: string)
    requires |s| > 0 && !IsJsSpace(s[0])
    ensures TrimStart(s) == s && ParseInt(s) == ParseSigned(s)
  {
  }

  /** A piece with no digit after its optional sign parses to NaN. */
  lemma ParseIntNoDigits(s: string)
    requires var t := TrimStart(s);
             var b := if |t| > 0 && (t[0] == '-' || t[0] == '+') then t[1..] else t;
             |b| == 0 || !IsDigit(b[0])
    ensures ParseInt(s) == NaN
  {
  }
}
