/** The G-code layer: `parse_and_call` loads a received line into the parser and
    dispatches on its prefix and number; the `A2` handler reads the clock, applies
    the S/M/H/W/D/O/Y parameters to the record it read, and writes it back. */
module Gcode {
  import opened Basics
  import opened CText
  import opened CommandParser
  import D = DS3231

  /** The handler a line invokes. A0/A1 switch the LED, A3 reports the time. */
  datatype Handler = HandlerA0 | HandlerA1 | HandlerA2 | HandlerA3 | NoHandler

  /** The I2C side of the clock during one A2 command: whether the register
      pointer write and the read succeed, the seven bytes read, and whether the
      final write succeeds. */
  datatype RtcBus = RtcBus(txOk: bool, rxOk: bool, regs: seq<u8>, writeOk: bool)

  /** The three messages A2 sends back. */
  datatype Reply = CouldNotGetTime | TimeSet | TimeSetFailed

  /** What A2 does: its reply, and the frame it transmits to the clock (None
      when it never calls `set_time`). */
  datatype A2Outcome = A2Outcome(reply: Reply, written: Option<seq<u8>>)

  /** `parse_A`'s switch on the command number. */
  function HandlerOfNumber(n: u16): (h: Handler)
    ensures n == 0 ==> h == HandlerA0
    ensures n == 1 ==> h == HandlerA1
    ensures n == 2 ==> h == HandlerA2
    ensures n == 3 ==> h == HandlerA3
    ensures h == NoHandler <==> n > 3
  {
    if n == 0 then HandlerA0
    else if n == 1 then HandlerA1
    else if n == 2 then HandlerA2
    else if n == 3 then HandlerA3
    else NoHandler
  }

  /** `parse_and_call`'s decision: only prefix 'A' is handled, and then by number. */
  function Dispatch(msg: CString): (h: Handler)
    ensures h != NoHandler ==> Prefix(msg) == 'A' && Number(msg) <= 3
    ensures Prefix(msg) == 'A' ==> h == HandlerOfNumber(Number(msg))
  {
    if Prefix(msg) == 'A' then HandlerOfNumber(Number(msg)) else NoHandler
  }

  /** A line written as blanks, 'A' and the decimal number k runs the handler of
      k reduced to `uint16_t` (so "A65538" runs A2); any other prefix runs none. */
  lemma DispatchOfWritten(msg: CString, blanks: seq<char>, c: char, k: nat, rest: seq<char>)
    requires msg == blanks + [c] + Decimal(k) + rest
    requires forall j :: 0 <= j < |blanks| ==> IsBlank(blanks[j])
    requires !IsBlank(c)
    requires rest == [] || !IsDigit(rest[0])
    ensures c == 'A' ==> Dispatch(msg) == HandlerOfNumber(ToU16(k))
    ensures c != 'A' ==> Dispatch(msg) == NoHandler
  {
    PrefixAndNumberOfWritten(msg, blanks, c, k, rest);
  }

  /** A `uint8_t` field after `if (get_parameter(p, dest)) field = dest;`, where
      `dest` is first reset to the default 0: the field keeps the value read
      exactly when its letter is absent, and otherwise takes the parameter's
      value wrapped to the field's width. */
  function Field(s: CString, n: nat, p: char, current: u8): (f: u8)
    requires n <= |s|
    ensures p !in s[..n] ==> f == current
    ensures p in s[..n] ==> f == ToU8(Parameter(s, n, p, 0).1)
  {
    ParameterFoundIffPresent(s, n, p, 0);
    var r := Parameter(s, n, p, 0);
    if r.0 then ToU8(r.1) else current
  }

  /** The `uint16_t` year after `if (get_parameter('Y', dest)) t.year = dest;`. */
  function YearField(s: CString, n: nat, current: u16): (y: u16)
    requires n <= |s|
    ensures 'Y' !in s[..n] ==> y == current
    ensures 'Y' in s[..n] ==> y == ToU16(Parameter(s, n, 'Y', 0).1)
  {
    ParameterFoundIffPresent(s, n, 'Y', 0);
    var r := Parameter(s, n, 'Y', 0);
    if r.0 then ToU16(r.1) else current
  }

  /** The record A2 hands to `set_time`: the time read, switched to 24-hour mode,
      with every parameter present overwriting its field. */
  function Requested(s: CString, n: nat, read: D.Time): (t: D.Time)
    requires n <= |s|
    ensures t.amPm == D.AmPmUnused
  {
    read.(amPm := D.AmPmUnused,
          seconds := Field(s, n, 'S', read.seconds),
          minutes := Field(s, n, 'M', read.minutes),
          hours := Field(s, n, 'H', read.hours),
          day := Field(s, n, 'W', read.day),
          date := Field(s, n, 'D', read.date),
          month := Field(s, n, 'O', read.month),
          year := YearField(s, n, read.year))
  }

  /** A2 as a whole: a failed read ends with an error and no write; otherwise the
      requested record is clamped and encoded into the one frame written, and the
      write's outcome selects the reply. */
  function A2Spec(s: CString, n: nat, bus: RtcBus): (r: A2Outcome)
    requires n <= |s| && |bus.regs| == 7
    ensures r.written.None? <==> !(bus.txOk && bus.rxOk)
    ensures r.reply == CouldNotGetTime <==> !(bus.txOk && bus.rxOk)
    ensures r.reply == TimeSet <==> bus.txOk && bus.rxOk && bus.writeOk
    ensures r.written.Some? ==> |r.written.value| == 8 && r.written.value[0] == 0
  {
    if !(bus.txOk && bus.rxOk) then A2Outcome(CouldNotGetTime, None)
    else
      var t := D.Clamp(Requested(s, n, D.DecodeRegisters(bus.regs)));
      A2Outcome(if bus.writeOk then TimeSet else TimeSetFailed, Some([0] + D.EncodeRegisters(t)))
  }

  /** After a successful A2 the clock holds the requested record, clamped: reading
      the written registers back gives exactly that record, because A2 always
      writes in 24-hour mode. */
  lemma A2WritesRequestedTime(s: CString, n: nat, bus: RtcBus)
    requires n <= |s| && |bus.regs| == 7 && bus.txOk && bus.rxOk
    ensures A2Spec(s, n, bus).written.Some?
    ensures D.DecodeRegisters(A2Spec(s, n, bus).written.value[1..])
         == D.Clamp(Requested(s, n, D.DecodeRegisters(bus.regs)))
  {
    var t := D.Clamp(Requested(s, n, D.DecodeRegisters(bus.regs)));
    assert t.amPm == D.AmPmUnused;
    D.DecodeEncode(t);
    assert ([0] + D.EncodeRegisters(t))[1..] == D.EncodeRegisters(t);
  }

  /** A parameter letter followed by the decimal notation of an in-range value
      sets its field to that value in what the clock ends up holding. */
  lemma A2SecondsFromDecimal(s: CString, before: seq<char>, v: nat, rest: seq<char>, bus: RtcBus)
    requires s == before + ['S'] + Decimal(v) + rest
    requires 'S' !in before && (rest == [] || !IsDigit(rest[0]))
    requires v <= 59
    requires |bus.regs| == 7 && bus.txOk && bus.rxOk
    ensures D.DecodeRegisters(A2Spec(s, |s|, bus).written.value[1..]).seconds == v
  {
    ParameterReadsDecimal(before, 'S', v, rest, 0);
    var req := Requested(s, |s|, D.DecodeRegisters(bus.regs));
    assert req.seconds == v;
    A2WritesRequestedTime(s, |s|, bus);
  }

  /** A parameter that is present without digits writes 0 into its field, since
      `get_parameter` reports it found and leaves the default 0 in `dest`. */
  lemma A2ParameterWithoutDigits(s: CString, n: nat, p: char, read: D.Time)
    requires n <= |s| && p in s[..n]
    requires !IsDigit(CharAt(s, FindChar(s, n, p) + 1))
    ensures p == 'S' ==> Requested(s, n, read).seconds == 0
    ensures p == 'H' ==> Requested(s, n, read).hours == 0
    ensures p == 'Y' ==> Requested(s, n, read).year == 0
  {
    if p == 'S' {
      FieldWithoutDigits(s, n, p, read.seconds);
    } else if p == 'H' {
      FieldWithoutDigits(s, n, p, read.hours);
    } else if p == 'Y' {
      YearWithoutDigits(s, n, read.year);
    }
  }

  /** A letter present without digits sets its `uint8_t` field to 0. */
  lemma FieldWithoutDigits(s: CString, n: nat, p: char, current: u8)
    requires n <= |s| && p in s[..n]
    requires !IsDigit(CharAt(s, FindChar(s, n, p) + 1))
    ensures Field(s, n, p, current) == 0
  {
    ParameterWithoutDigits(s, n, p, 0);
  }

  /** A 'Y' present without digits sets the year to 0. */
  lemma YearWithoutDigits(s: CString, n: nat, current: u16)
    requires n <= |s| && 'Y' in s[..n]
    requires !IsDigit(CharAt(s, FindChar(s, n, 'Y') + 1))
    ensures YearField(s, n, current) == 0
  {
    ParameterWithoutDigits(s, n, 'Y', 0);
  }

  /** `GcodeParser`: owns the parser the handlers read their parameters from. */
  class GcodeParser {
    const parser: Parser

    constructor ()
      ensures fresh(parser) && parser.Valid() && !parser.HasString()
    {
      parser := new Parser();
    }

    /** `parse_and_call`: the line is loaded before any decision; the handler run
        is the one `Dispatch` names, and when it is A2 its outcome is A2's. */
    method ParseAndCall(msg: CString, bus: RtcBus) returns (called: Handler, a2: Option<A2Outcome>)
      requires |bus.regs| == 7
      modifies parser
      ensures parser.Valid() && parser.HasString() && parser.str == msg && parser.size == ToU16(|msg|)
      ensures called == Dispatch(msg)
      ensures called == HandlerA2 ==> a2 == Some(A2Spec(msg, parser.size, bus))
      ensures called != HandlerA2 ==> a2 == None
    {
      parser.SetString(msg);
      var prefix := parser.GetPrefix();
      if prefix == 'A' {
        called, a2 := ParseA(bus);
      } else {
        called, a2 := NoHandler, None;
      }
    }

    /** `parse_A`: the switch on the command number. */
    method ParseA(bus: RtcBus) returns (called: Handler, a2: Option<A2Outcome>)
      requires parser.Valid() && parser.HasString() && |bus.regs| == 7
      ensures called == HandlerOfNumber(Number(parser.str))
      ensures called == HandlerA2 ==> a2 == Some(A2Spec(parser.str, parser.size, bus))
      ensures called != HandlerA2 ==> a2 == None
    {
      var number := parser.GetNumber();
      a2 := None;
      if number == 0 {
        called := HandlerA0;
      } else if number == 1 {
        called := HandlerA1;
      } else if number == 2 {
        called := HandlerA2;
        var outcome := A2(bus);
        a2 := Some(outcome);
      } else if number == 3 {
        called := HandlerA3;
      } else {
        called := NoHandler;
      }
    }

    /** `if (get_parameter(p, dest)) field = dest;` for a `uint8_t` field. */
    method ReadField(p: char, current: u8) returns (f: u8)
      requires parser.Valid() && parser.HasString()
      ensures f == Field(parser.str, parser.size, p, current)
    {
      var found, dest := parser.GetParameter(p);
      f := if found then ToU8(dest) else current;
    }

    /** The same for the `uint16_t` year. */
    method ReadYear(current: u16) returns (y: u16)
      requires parser.Valid() && parser.HasString()
      ensures y == YearField(parser.str, parser.size, current)
    {
      var found, dest := parser.GetParameter('Y');
      y := if found then ToU16(dest) else current;
    }

    /** `A2`: the record is updated field by field, then written once. */
    method A2(bus: RtcBus) returns (outcome: A2Outcome)
      requires parser.Valid() && parser.HasString() && |bus.regs| == 7
      ensures outcome == A2Spec(parser.str, parser.size, bus)
    {
      var t := D.Time(0, 0, 0, 0, 0, 0, 0, 0);
      var ok;
      ok, t := D.GetTime(t, bus.txOk, bus.rxOk, bus.regs);
      if !ok {
        return A2Outcome(CouldNotGetTime, None);
      }
      ghost var read := t;
      t := t.(amPm := D.AmPmUnused);
      var seconds := ReadField('S', t.seconds);
      var minutes := ReadField('M', t.minutes);
      var hours := ReadField('H', t.hours);
      var day := ReadField('W', t.day);
      var date := ReadField('D', t.date);
      var month := ReadField('O', t.month);
      var year := ReadYear(t.year);
      t := t.(seconds := seconds, minutes := minutes, hours := hours, day := day, date := date,
              month := month, year := year);
      assert t == Requested(parser.str, parser.size, read);
      var written, clamped, frame := D.SetTime(t, bus.writeOk);
      outcome := A2Outcome(if written then TimeSet else TimeSetFailed, Some(frame));
    }
  }
}
