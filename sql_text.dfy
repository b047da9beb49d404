/** The value semantics the store's queries rely on: SQLite's comparison
    of TEXT values (the BINARY collation, which on UTF-8 text is the order of
    code points), CAST of TEXT to INTEGER, the decimal text of an integer
    (Python's str of an int, stored into a TEXT column) and the aggregate
    MAX, which is NULL over no rows. */
module SqlText {
  import opened Models

  /* ---------------- TEXT comparison ---------------- */

  /** a < b between TEXT values: lexicographic by code point, a proper
      prefix before the longer text. */
  predicate LexLess(a: string, b: string) {
    if |b| == 0 then false
    else if |a| == 0 then true
    else if a[0] != b[0] then a[0] < b[0]
    else LexLess(a[1..], b[1..])
  }

  lemma {:induction false} LexIrreflexive(a: string)
    ensures !LexLess(a, a)
  {
    if |a| > 0 {
      LexIrreflexive(a[1..]);
    }
  }

  lemma {:induction false} LexAsymmetric(a: string, b: string)
    ensures !(LexLess(a, b) && LexLess(b, a))
  {
    if |a| > 0 && |b| > 0 && a[0] == b[0] {
      LexAsymmetric(a[1..], b[1..]);
    }
  }

  lemma {:induction false} LexTransitive(a: string, b: string, c: string)
    requires LexLess(a, b) && LexLess(b, c)
    ensures LexLess(a, c)
  {
    if |a| > 0 && a[0] == b[0] && b[0] == c[0] {
      LexTransitive(a[1..], b[1..], c[1..]);
    }
  }

  /** Two different texts are always ordered one way or the other. */
  lemma {:induction false} LexTotal(a: string, b: string)
    requires a != b
    ensures LexLess(a, b) || LexLess(b, a)
  {
    if |a| > 0 && |b| > 0 && a[0] == b[0] {
      assert a == [a[0]] + a[1..] && b == [b[0]] + b[1..];
      LexTotal(a[1..], b[1..]);
    }
  }

  /* ---------------- CAST(text AS INT) ---------------- */

  predicate IsDigit(c: char) { '0' <= c <= '9' }

  predicate IsSpace(c: char) {
    c == ' ' || c == '\t' || c == '\n' || c == '\U{B}' || c == '\U{C}' || c == '\r'
  }

  function DigitValue(c: char): nat
    requires IsDigit(c)
  {
    (c as int) - ('0' as int)
  }

  function DigitChar(d: nat): (c: char)
    requires d < 10
    ensures IsDigit(c) && DigitValue(c) == d
  {
    (('0' as int) + d) as char
  }

  function SkipSpaces(s: string): (t: string)
    ensures |t| <= |s| && (|t| > 0 ==> !IsSpace(t[0]))
  {
    if |s| > 0 && IsSpace(s[0]) then SkipSpaces(s[1..]) else s
  }

  /** The longest prefix of s made of digits. */
  function LeadingDigits(s: string): (d: string)
    ensures |d| <= |s| && d == s[..|d|]
    ensures forall i | 0 <= i < |d| :: IsDigit(d[i])
  {
    if |s| > 0 && IsDigit(s[0]) then [s[0]] + LeadingDigits(s[1..]) else []
  }

  /** The number a run of digits denotes. */
  function DigitsValue(d: string): nat
    requires forall i | 0 <= i < |d| :: IsDigit(d[i])
  {
    if |d| == 0 then 0 else 10 * DigitsValue(d[..|d| - 1]) + DigitValue(d[|d| - 1])
  }

  /** CAST(s AS INT): leading white space is skipped, then an optional sign
      and the longest run of digits is read; no digits read as 0. */
  function CastToInt(s: string): int {
    var t := SkipSpaces(s);
    if |t| > 0 && t[0] == '-' then -(DigitsValue(LeadingDigits(t[1..])) as int)
    else if |t| > 0 && t[0] == '+' then DigitsValue(LeadingDigits(t[1..]))
    else DigitsValue(LeadingDigits(t))
  }

  /* ---------------- str(n) ---------------- */

  function Digits(n: nat): (d: string)
    ensures |d| > 0 && forall i | 0 <= i < |d| :: IsDigit(d[i])
  {
    if n < 10 then [DigitChar(n)] else Digits(n / 10) + [DigitChar(n % 10)]
  }

  /** The decimal text of an integer, with a '-' before a negative one. */
  function Decimal(n: int): string {
    if n < 0 then "-" + Digits(-n) else Digits(n)
  }

  lemma {:induction false} DigitsValueOfDigits(n: nat)
    ensures DigitsValue(Digits(n)) == n
  {
    if n >= 10 {
      DigitsValueOfDigits(n / 10);
      var d := Digits(n);
      assert d[..|d| - 1] == Digits(n / 10);
    }
  }

  lemma {:induction false} LeadingDigitsOfDigitRun(d: string)
    requires forall i | 0 <= i < |d| :: IsDigit(d[i])
    ensures LeadingDigits(d) == d
  {
    if |d| > 0 {
      LeadingDigitsOfDigitRun(d[1..]);
      assert d == [d[0]] + d[1..];
    }
  }

  /** CAST(str(n) AS INT) == n: the text under which a number is stored
      reads back as that number. */
  lemma {:induction false} CastDecimal(n: int)
    ensures CastToInt(Decimal(n)) == n
  {
    var m: nat := if n < 0 then -n else n;
    var d := Digits(m);
    DigitsValueOfDigits(m);
    LeadingDigitsOfDigitRun(d);
    if n < 0 {
      var t := "-" + d;
      assert !IsSpace(t[0]) && SkipSpaces(t) == t;
      assert t[1..] == d;
    } else {
      assert !IsSpace(d[0]) && SkipSpaces(d) == d;
      assert d[0] != '-' && d[0] != '+';
    }
  }

  /* ---------------- MAX ---------------- */

  /** A set that is not empty has a member to pick. */
  lemma HasMember(s: set<int>)
    ensures s == {} || exists x :: x in s
  {
    if forall x :: x !in s {
      assert s == {};
    }
  }

  lemma {:induction false} MaxExists(s: set<int>)
    requires s != {}
    ensures exists m :: m in s && forall x | x in s :: x <= m
  {
    HasMember(s);
    var y :| y in s;
    if s != {y} {
      MaxExists(s - {y});
      var m :| m in s - {y} && forall x | x in s - {y} :: x <= m;
      var top := if m < y then y else m;
      forall x | x in s ensures x <= top {
        if x != y { assert x in s - {y}; }
      }
    } else {
      assert forall x | x in s :: x <= y;
    }
  }

  /** MAX over a column: NULL (None) over no rows, otherwise the greatest value. */
  function MaxOf(s: set<int>): (m: Option<int>)
    ensures m.None? <==> s == {}
    ensures m.Some? ==> m.value in s && forall x | x in s :: x <= m.value
  {
    if s == {} then None
    else
      MaxExists(s);
      var m :| m in s && forall x | x in s :: x <= m;
      Some(m)
  }
}
