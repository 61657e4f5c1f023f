/** Null-terminated character strings and the C library's `atoi`
    (ISO C11 section 7.22.1.2, in the "C" locale). */
module CText {

  /** The characters of a C string before its terminating '\0'. */
  type CString = s: seq<char> | '\0' !in s

  /** The character at index i of the array holding s and its terminator. */
  function CharAt(s: CString, i: nat): (c: char)
    requires i <= |s|
    ensures c == '\0' <==> i == |s|
  {
    if i < |s| then s[i] else '\0'
  }

  /** The text starting at index i. Index |s| + 1 lies past the terminator, which
      C leaves undefined; the model reads it as the empty string. */
  function From(s: CString, i: nat): (t: CString)
    ensures i <= |s| ==> t == s[i..]
    ensures i > |s| ==> t == []
  {
    if i <= |s| then s[i..] else []
  }

  /** `isspace` in the "C" locale. */
  predicate IsSpace(c: char)
  {
    c == ' ' || c == '\t' || c == '\n' || c == '\U{0B}' || c == '\U{0C}' || c == '\r'
  }

  predicate IsDigit(c: char)
  {
    '0' <= c <= '9'
  }

  function DigitValue(c: char): (d: nat)
    requires IsDigit(c)
    ensures d <= 9
  {
    c as int - '0' as int
  }

  /** Length of the run of decimal digits at the start of t. */
  function DigitRun(t: seq<char>): (n: nat)
    ensures n <= |t|
    ensures forall j :: 0 <= j < n ==> IsDigit(t[j])
    ensures n < |t| ==> !IsDigit(t[n])
  {
    if t != [] && IsDigit(t[0]) then 1 + DigitRun(t[1..]) else 0
  }

  /** The value of a string of decimal digits, most significant first. */
  function DigitsValue(d: seq<char>): (v: nat)
    requires forall j :: 0 <= j < |d| ==> IsDigit(d[j])
  {
    if d == [] then 0 else 10 * DigitsValue(d[..|d| - 1]) + DigitValue(d[|d| - 1])
  }

  /** Number of leading white-space characters. */
  function SpaceRun(t: seq<char>): (n: nat)
    ensures n <= |t|
    ensures forall j :: 0 <= j < n ==> IsSpace(t[j])
    ensures n < |t| ==> !IsSpace(t[n])
  {
    if t != [] && IsSpace(t[0]) then 1 + SpaceRun(t[1..]) else 0
  }

  /** Value of the digit run at the start of t. */
  function LeadingValue(t: seq<char>): nat
  {
    DigitsValue(t[..DigitRun(t)])
  }

  /** `atoi`: skip white space, take an optional sign, convert the longest run of
      digits that follows; no digits gives 0. The result is the mathematical
      value: a value outside `int` is undefined behaviour in C and not modelled. */
  function Atoi(t: seq<char>): int
  {
    var u := t[SpaceRun(t)..];
    if u != [] && u[0] == '-' then -(LeadingValue(u[1..]) as int)
    else if u != [] && u[0] == '+' then LeadingValue(u[1..])
    else LeadingValue(u)
  }

  /** Decimal notation of n without leading zeros ("0" for zero). */
  function Decimal(n: nat): (d: seq<char>)
    ensures |d| > 0
    ensures forall j :: 0 <= j < |d| ==> IsDigit(d[j])
  {
    if n < 10 then [('0' as int + n) as char]
    else Decimal(n / 10) + [('0' as int + n % 10) as char]
  }

  lemma {:induction false} DecimalValue(n: nat)
    ensures DigitsValue(Decimal(n)) == n
  {
    var d := Decimal(n);
    if n >= 10 {
      DecimalValue(n / 10);
      assert d[..|d| - 1] == Decimal(n / 10);
    }
  }

  lemma {:induction false} DigitRunOfDigitsThen(d: seq<char>, rest: seq<char>)
    requires forall j :: 0 <= j < |d| ==> IsDigit(d[j])
    requires rest == [] || !IsDigit(rest[0])
    ensures DigitRun(d + rest) == |d|
  {
    if d != [] {
      assert (d + rest)[1..] == d[1..] + rest;
      DigitRunOfDigitsThen(d[1..], rest);
    }
  }

  /** `atoi` reads back what decimal printing wrote, whatever non-digit text
      follows: the two are inverse on the digit-run case. */
  lemma AtoiDecimal(n: nat, rest: seq<char>)
    requires rest == [] || !IsDigit(rest[0])
    ensures Atoi(Decimal(n) + rest) == n
  {
    var t := Decimal(n) + rest;
    assert !IsSpace(t[0]) && t[0] != '-' && t[0] != '+';
    assert SpaceRun(t) == 0;
    assert t[0..] == t;
    DigitRunOfDigitsThen(Decimal(n), rest);
    assert t[..DigitRun(t)] == Decimal(n);
    DecimalValue(n);
  }

  /** What `atoi` makes of the text's first character: white space is skipped,
      a digit starts the run it converts, a sign applies to the run after it,
      and anything else gives 0. Only a minus sign gives a negative result. */
  lemma AtoiSpec(t: seq<char>)
    ensures t != [] && IsSpace(t[0]) ==> Atoi(t) == Atoi(t[1..])
    ensures t != [] && IsDigit(t[0]) ==> Atoi(t) == LeadingValue(t)
    ensures t != [] && t[0] == '-' ==> Atoi(t) == -(LeadingValue(t[1..]) as int)
    ensures t != [] && t[0] == '+' ==> Atoi(t) == LeadingValue(t[1..])
    ensures t == [] || !(IsSpace(t[0]) || IsDigit(t[0]) || t[0] == '-' || t[0] == '+') ==> Atoi(t) == 0
    ensures Atoi(t) < 0 ==> '-' in t
  {
    var u := t[SpaceRun(t)..];
    assert t != [] && !IsSpace(t[0]) ==> u == t;
    assert u != [] ==> u[0] == t[SpaceRun(t)];
    if t != [] && IsSpace(t[0]) {
      AtoiSkipsSpace(t);
    }
  }

  /** A leading white-space character does not change what `atoi` reads. */
  lemma AtoiSkipsSpace(t: seq<char>)
    requires t != [] && IsSpace(t[0])
    ensures Atoi(t) == Atoi(t[1..])
  {
    assert t[SpaceRun(t)..] == t[1..][SpaceRun(t[1..])..];
  }

  /** The digit case of AtoiSpec on its own. */
  lemma AtoiOfDigitRun(t: seq<char>)
    requires t != [] && IsDigit(t[0])
    ensures Atoi(t) == LeadingValue(t)
  {
    assert SpaceRun(t) == 0;
    assert t[0..] == t;
  }
}
