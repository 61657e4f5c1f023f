/** The command-line tokenizer: a prefix character, a command number right after
    it, and parameters written as a letter followed by digits ("A2 S30 H12"). */
module CommandParser {
  import opened Basics
  import opened CText

  /** The characters `get_first_not_whitespace` skips. */
  predicate IsBlank(c: char)
  {
    c == ' ' || c == '\n' || c == '\r'
  }

  /** Index of the first character that is not blank; |s| (the terminator) when
      there is none. */
  function FirstNotWhitespace(s: CString): (i: nat)
    ensures i <= |s|
    ensures forall j :: 0 <= j < i ==> IsBlank(s[j])
    ensures i < |s| ==> !IsBlank(s[i])
  {
    if s != [] && IsBlank(s[0]) then 1 + FirstNotWhitespace(s[1..]) else 0
  }

  /** The command prefix: the first non-blank character, or the terminator of an
      all-blank string. */
  function Prefix(s: CString): (c: char)
    ensures c == '\0' <==> forall j :: 0 <= j < |s| ==> IsBlank(s[j])
    ensures c != '\0' ==> !IsBlank(c) && c in s
  {
    CharAt(s, FirstNotWhitespace(s))
  }

  /** The command number: `atoi` of the text after the prefix character,
      returned as `uint16_t`. */
  function Number(s: CString): u16
  {
    ToU16(Atoi(From(s, FirstNotWhitespace(s) + 1)))
  }

  /** The command number is `atoi` of the text right after the prefix, wrapped
      to `uint16_t`: white space there is skipped, a digit run gives its value,
      a sign applies to the run after it, and an empty text or any other
      character gives 0. */
  lemma NumberSpec(s: CString)
    ensures var u := From(s, FirstNotWhitespace(s) + 1);
      u != [] && IsSpace(u[0]) ==> Number(s) == ToU16(Atoi(u[1..]))
    ensures var u := From(s, FirstNotWhitespace(s) + 1);
      u != [] && IsDigit(u[0]) ==> Number(s) == ToU16(LeadingValue(u))
    ensures var u := From(s, FirstNotWhitespace(s) + 1);
      u != [] && u[0] == '-' ==> Number(s) == ToU16(-(LeadingValue(u[1..]) as int))
    ensures var u := From(s, FirstNotWhitespace(s) + 1);
      u != [] && u[0] == '+' ==> Number(s) == ToU16(LeadingValue(u[1..]))
    ensures var u := From(s, FirstNotWhitespace(s) + 1);
      u == [] || !(IsSpace(u[0]) || IsDigit(u[0]) || u[0] == '-' || u[0] == '+') ==> Number(s) == 0
  {
    AtoiSpec(From(s, FirstNotWhitespace(s) + 1));
  }

  /** `std::find` over the first n characters: the first index holding p, or n. */
  function FindChar(s: CString, n: nat, p: char): (i: nat)
    requires n <= |s|
    ensures i <= n
    ensures i < n ==> s[i] == p
    ensures forall j :: 0 <= j < i ==> s[j] != p
  {
    if n == 0 then 0
    else
      var i := FindChar(s, n - 1, p);
      if i < n - 1 then i else if s[n - 1] == p then n - 1 else n
  }

  /** `get_parameter` on the first n characters: whether p occurs there, and the
      value written to `dest`. */
  function Parameter(s: CString, n: nat, p: char, def: i16): (r: (bool, i16))
    requires n <= |s|
    ensures r.0 <==> FindChar(s, n, p) < n
    ensures !r.0 ==> r.1 == def
    ensures r.0 && !IsDigit(CharAt(s, FindChar(s, n, p) + 1)) ==> r.1 == def
  {
    ParameterAt(s, n, FindChar(s, n, p), def)
  }

  /** The rest of `get_parameter` once the search has stopped at index i: no
      letter when i is n, the default when no digit follows the letter, and
      otherwise `atoi` of the text after it. */
  function ParameterAt(s: CString, n: nat, i: nat, def: i16): (r: (bool, i16))
    requires i <= n <= |s|
    ensures r.0 <==> i < n
    ensures !r.0 ==> r.1 == def
    ensures r.0 && !IsDigit(CharAt(s, i + 1)) ==> r.1 == def
  {
    if i == n then (false, def)
    else
      var next := CharAt(s, i + 1);
      if next == '\0' || next < '0' || next > '9' then (true, def)
      else (true, ToI16(Atoi(s[i + 1..])))
  }

  /** `get_parameter` reports a parameter exactly when its letter occurs among
      the first n characters. */
  lemma ParameterFoundIffPresent(s: CString, n: nat, p: char, def: i16)
    requires n <= |s|
    ensures Parameter(s, n, p, def).0 <==> p in s[..n]
  {
    var i := FindChar(s, n, p);
    if i < n {
      assert s[..n][i] == p;
    } else {
      assert forall j :: 0 <= j < n ==> s[..n][j] != p;
    }
  }

  /** A parameter letter that occurs but is not followed by a digit is reported
      found, with the default as its value. */
  lemma ParameterWithoutDigits(s: CString, n: nat, p: char, def: i16)
    requires n <= |s| && p in s[..n]
    requires !IsDigit(CharAt(s, FindChar(s, n, p) + 1))
    ensures Parameter(s, n, p, def).0
    ensures Parameter(s, n, p, def).1 == def
  {
    var i := FindChar(s, n, p);
    assert i < n by { ParameterFoundIffPresent(s, n, p, def); }
    assert Parameter(s, n, p, def) == ParameterAt(s, n, i, def);
    assert !IsDigit(CharAt(s, i + 1));
  }

  /** A parameter letter followed by digits yields the value of the digit run
      (as `int16_t`); the run is taken at the first occurrence of the letter. */
  lemma ParameterDigits(s: CString, n: nat, p: char, def: i16)
    requires n <= |s|
    requires FindChar(s, n, p) < n && IsDigit(CharAt(s, FindChar(s, n, p) + 1))
    ensures Parameter(s, n, p, def).0
    ensures Parameter(s, n, p, def).1 == ToI16(LeadingValue(s[FindChar(s, n, p) + 1..]))
  {
    var i := FindChar(s, n, p);
    var t := s[i + 1..];
    assert t[0] == CharAt(s, i + 1);
    AtoiOfDigitRun(t);
    assert Parameter(s, n, p, def).1 == ToI16(Atoi(t));
  }

  /** The digit case of `get_parameter` once the letter is found at index i. */
  lemma ParameterAtDigits(s: CString, n: nat, i: nat, def: i16)
    requires i < n <= |s| && IsDigit(CharAt(s, i + 1))
    ensures ParameterAt(s, n, i, def).0
    ensures ParameterAt(s, n, i, def).1 == ToI16(LeadingValue(s[i + 1..]))
  {
    var t := s[i + 1..];
    assert t[0] == s[i + 1] == CharAt(s, i + 1);
    AtoiOfDigitRun(t);
  }

  /** The first occurrence determines the lookup. */
  lemma FindCharFirst(s: CString, n: nat, p: char, i: nat)
    requires i < n <= |s| && s[i] == p
    requires p !in s[..i]
    ensures FindChar(s, n, p) == i
  {
    assert forall j :: 0 <= j < i ==> s[..i][j] == s[j];
  }

  /** A character that no element equals is absent, stated element by element so
      that literal strings can be checked one character at a time. */
  lemma {:induction false} NotIn(s: seq<char>, p: char)
    requires forall j :: 0 <= j < |s| ==> s[j] != p
    ensures p !in s
  {
  }

  /** Blanks before a non-blank character are skipped exactly. */
  lemma {:induction false} FirstNotWhitespaceAfterBlanks(blanks: seq<char>, t: seq<char>)
    requires '\0' !in blanks + t
    requires forall j :: 0 <= j < |blanks| ==> IsBlank(blanks[j])
    requires t != [] && !IsBlank(t[0])
    ensures FirstNotWhitespace(blanks + t) == |blanks|
  {
    if blanks != [] {
      assert (blanks + t)[1..] == blanks[1..] + t;
      FirstNotWhitespaceAfterBlanks(blanks[1..], t);
    }
  }

  /** A command written as blanks, a prefix character and a decimal number
      (then anything that does not start with a digit) reads back as that prefix
      and that number reduced to `uint16_t`. */
  lemma PrefixAndNumberOfWritten(msg: CString, blanks: seq<char>, c: char, k: nat, rest: seq<char>)
    requires msg == blanks + [c] + Decimal(k) + rest
    requires forall j :: 0 <= j < |blanks| ==> IsBlank(blanks[j])
    requires !IsBlank(c)
    requires rest == [] || !IsDigit(rest[0])
    ensures Prefix(msg) == c
    ensures Number(msg) == ToU16(k)
  {
    WrittenCommand(msg, blanks, c, Decimal(k) + rest);
    NumberAfterPrefix(msg, k, rest);
  }

  /** A command written as blanks, a non-blank prefix character and any text:
      the prefix is that character and the number is read from that text. */
  lemma WrittenCommand(msg: CString, blanks: seq<char>, c: char, after: seq<char>)
    requires msg == blanks + [c] + after
    requires forall j :: 0 <= j < |blanks| ==> IsBlank(blanks[j])
    requires !IsBlank(c)
    ensures Prefix(msg) == c
    ensures From(msg, FirstNotWhitespace(msg) + 1) == after
  {
    assert msg == blanks + ([c] + after);
    PrefixOfWritten(blanks, [c] + after);
    assert msg[|blanks| + 1..] == after;
  }

  lemma NumberAfterPrefix(msg: CString, k: nat, rest: seq<char>)
    requires From(msg, FirstNotWhitespace(msg) + 1) == Decimal(k) + rest
    requires rest == [] || !IsDigit(rest[0])
    ensures Number(msg) == ToU16(k)
  {
    var after := From(msg, FirstNotWhitespace(msg) + 1);
    AtoiDecimal(k, rest);
    assert Atoi(after) == k;
    assert Number(msg) == ToU16(Atoi(after));
  }

  lemma PrefixOfWritten(blanks: seq<char>, tail: seq<char>)
    requires '\0' !in blanks + tail
    requires forall j :: 0 <= j < |blanks| ==> IsBlank(blanks[j])
    requires tail != [] && !IsBlank(tail[0])
    ensures FirstNotWhitespace(blanks + tail) == |blanks|
    ensures Prefix(blanks + tail) == tail[0]
  {
    FirstNotWhitespaceAfterBlanks(blanks, tail);
    assert (blanks + tail)[|blanks|] == tail[0];
  }

  /** `Parser`: holds a borrowed C string and its length (`uint16_t`). */
  class Parser {
    var str: CString
    var hasString: bool
    var size: u16

    ghost predicate Valid()
      reads this
    {
      && (hasString ==> size == ToU16(|str|) <= |str|)
      && (!hasString ==> str == [] && size == 0)
    }

    constructor ()
      ensures Valid() && !hasString
    {
      str, hasString, size := [], false, 0;
    }

    method SetString(s: CString)
      modifies this
      ensures Valid() && HasString() && str == s && size == ToU16(|s|)
    {
      str := s;
      hasString := true;
      size := |s| % 0x1_0000;
    }

    method Reset()
      modifies this
      ensures Valid() && !HasString() && size == 0
    {
      str := [];
      hasString := false;
      size := 0;
    }

    /** Without a string the parser reads as the empty line of length 0. */
    function HasString(): (b: bool)
      reads this
      ensures Valid() && !b ==> str == [] && size == 0
      ensures Valid() && b ==> size as int <= |str|
    {
      hasString
    }

    /** The whitespace-skipping loop. */
    method GetFirstNotWhitespace() returns (ind: nat)
      requires Valid()
      ensures ind == if hasString then FirstNotWhitespace(str) else 0
    {
      if !HasString() {
        return 0;
      }
      ind := 0;
      while CharAt(str, ind) != '\0' && IsBlank(CharAt(str, ind))
        invariant ind <= |str|
        invariant forall j :: 0 <= j < ind ==> IsBlank(str[j])
        invariant FirstNotWhitespace(str) >= ind
        decreases |str| - ind
      {
        ind := ind + 1;
      }
    }

    method GetPrefix() returns (c: char)
      requires Valid()
      ensures c == if hasString then Prefix(str) else '\0'
    {
      if HasString() {
        var i := GetFirstNotWhitespace();
        return CharAt(str, i);
      } else {
        return '\0';
      }
    }

    method GetNumber() returns (n: u16)
      requires Valid()
      ensures n == if hasString then Number(str) else 0
    {
      if !HasString() {
        return 0;
      }
      var start := GetFirstNotWhitespace();
      n := ToU16(Atoi(From(str, start + 1)));
    }

    /** Writes `def` to `dest` first, then the parameter's value when it has one. */
    method GetParameter(param: char, def: i16 := 0) returns (found: bool, dest: i16)
      requires Valid()
      ensures (found, dest) == if hasString then Parameter(str, size, param, def) else (false, def)
    {
      dest := def;
      if !HasString() {
        return false, dest;
      }
      var place := FindChar(str, size, param);
      assert Parameter(str, size, param, def) == ParameterAt(str, size, place, def);
      if place == size {
        return false, dest;
      }
      var next := CharAt(str, place + 1);
      if next == '\0' || next < '0' || next > '9' {
        return true, dest;
      }
      dest := ToI16(Atoi(str[place + 1..]));
      return true, dest;
    }
  }

  /** The parser's unit test message " A132 S1 Q52 C": prefix 'A', number 132. */
  lemma UnitTestPrefixAndNumber(s: CString)
    requires s == " A132 S1 Q52 C"
    ensures Prefix(s) == 'A'
    ensures Number(s) == 132
  {
    assert s[1..][0] == 'A';
    assert FirstNotWhitespace(s) == 1;
    assert Decimal(132) == "132";
    assert From(s, 2) == Decimal(132) + " S1 Q52 C";
    AtoiDecimal(132, " S1 Q52 C");
  }

  /** A parameter whose first occurrence is followed by the decimal notation of
      v (and then a non-digit) yields v. */
  lemma ParameterReadsDecimal(before: seq<char>, p: char, v: nat, rest: seq<char>, def: i16)
    requires p !in before && '\0' !in before + [p] + Decimal(v) + rest
    requires rest == [] || !IsDigit(rest[0])
    requires v < 0x8000
    ensures Parameter(before + [p] + Decimal(v) + rest, |before + [p] + Decimal(v) + rest|, p, def) == (true, v)
  {
    var s: CString := before + [p] + Decimal(v) + rest;
    var i := |before|;
    var after := Decimal(v) + rest;
    LetterAt(s, before, p, after);
    FindCharFirst(s, |s|, p, i);
    assert Parameter(s, |s|, p, def) == ParameterAt(s, |s|, i, def);
    AtoiDecimal(v, rest);
    assert CharAt(s, i + 1) == after[0];
    assert ParameterAt(s, |s|, i, def).0;
    assert ParameterAt(s, |s|, i, def).1 == ToI16(Atoi(after)) == v;
  }

  /** The pieces of a string written as a text, a letter and a further text. */
  lemma LetterAt(s: seq<char>, before: seq<char>, p: char, after: seq<char>)
    requires s == before + [p] + after
    ensures s[..|before|] == before && s[|before|] == p && s[|before| + 1..] == after
  {
  }

  /** On the same message, S carries the value 1. */
  lemma UnitTestParameterS(s: CString)
    requires s == " A132 S1 Q52 C"
    ensures Parameter(s, |s|, 'S', -1) == (true, 1)
  {
    assert Decimal(1) == "1";
    NotIn(" A132 ", 'S');
    assert s == " A132 " + ['S'] + Decimal(1) + " Q52 C";
    ParameterReadsDecimal(" A132 ", 'S', 1, " Q52 C", -1);
  }

  /** On the same message, Q carries the value 52. */
  lemma UnitTestParameterQ(s: CString)
    requires s == " A132 S1 Q52 C"
    ensures Parameter(s, |s|, 'Q', -1) == (true, 52)
  {
    assert Decimal(52) == "52";
    NotIn(" A132 S1 ", 'Q');
    assert s == " A132 S1 " + ['Q'] + Decimal(52) + " C";
    ParameterReadsDecimal(" A132 S1 ", 'Q', 52, " C", -1);
  }

  /** On the same message, C is present without a value, so the default stays;
      W is absent. */
  lemma UnitTestParameterDefaults(s: CString)
    requires s == " A132 S1 Q52 C"
    ensures Parameter(s, |s|, 'C', -1) == (true, -1)
    ensures Parameter(s, |s|, 'W', -1) == (false, -1)
  {
    NotIn(s[..13], 'C');
    FindCharFirst(s, |s|, 'C', 13);
    assert s[..|s|] == s;
    NotIn(s, 'W');
  }
}
