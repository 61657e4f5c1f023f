/** The DS3231 real-time clock's time registers: the BCD decoding done by
    `get_time`, and the range clamping and BCD encoding done by `set_time`. The I2C
    transfers are abstracted as success flags and the bytes the device returns.
    Register masks are written as divisions and remainders by powers of two:
    `b & 0b1111` is `b % 16`, `(b & 0b1110000) >> 4` is `(b / 16) % 8`, and so on. */
module DS3231 {
  import opened Basics

  /** Values of the `AM_PM` enumeration, stored in a `uint8_t` field. */
  const AmPmUnused: u8 := 0
  const Am: u8 := 1
  const Pm: u8 := 2

  /** `DS3231::time`. */
  datatype Time = Time(seconds: u8, minutes: u8, hours: u8, day: u8, date: u8, month: u8,
                       amPm: u8, year: u16)

  /** `valid_time`: the defaults that replace out-of-range fields. */
  const ValidTime := Time(0, 0, 0, 1, 1, 1, AmPmUnused, 2000)

  /** `b & 0b1111`: the low nibble of a register byte. */
  function Low(b: u8): (r: nat)
    ensures r < 16
  {
    b % 16
  }

  /** `(b & 0b11110000) >> 4`: the high nibble of a register byte. */
  function High(b: u8): (r: nat)
    ensures r < 16
  {
    b / 16
  }

  /** `(high << 4) | low` for nibbles: the two halves are disjoint, so `|` is a sum. */
  function Byte(high: nat, low: nat): (b: u8)
    requires high < 16 && low < 16
    ensures High(b) == high && Low(b) == low
  {
    16 * high + low
  }

  /** `b & 0b111`: the day-of-week bits. */
  function DayBits(b: u8): (r: u8)
    ensures r < 8
    ensures b < 8 ==> r == b
  {
    b % 8
  }

  /** The ranges `set_time` enforces. */
  predicate InRange(t: Time)
  {
    && t.seconds <= 59 && t.minutes <= 59 && t.hours <= 23
    && 1 <= t.day <= 7 && 1 <= t.date <= 31 && 1 <= t.month <= 12
    && t.amPm <= Pm && 2000 <= t.year <= 2099
  }

  /** The hours register: bit 6 selects 12-hour mode, in which bit 5 means PM;
      in 24-hour mode bit 5 adds 20. Bit 4 adds 10. Bits 4..6 are the low three
      bits of the high nibble. */
  function DecodeHours(b: u8): (r: (u8, u8))
    ensures r.1 <= Pm
    ensures r.1 == AmPmUnused <==> (High(b) / 4) % 2 == 0
    ensures r.1 == Pm <==> (High(b) / 4) % 2 == 1 && (High(b) / 2) % 2 == 1
    ensures r.0 <= 45
  {
    var twelveHour := (High(b) / 4) % 2 == 1;
    var bit5 := (High(b) / 2) % 2;
    var amPm := if twelveHour then (if bit5 == 1 then Pm else Am) else AmPmUnused;
    var hours := Low(b) + 10 * (High(b) % 2);
    if amPm == AmPmUnused then (hours + 20 * bit5, amPm) else (hours, amPm)
  }

  /** The decoding of the seven time registers 0x00..0x06 by `get_time`, on top
      of `valid_time`. */
  function DecodeRegisters(regs: seq<u8>): (t: Time)
    requires |regs| == 7
    ensures t.seconds <= 85 && t.minutes <= 85 && t.hours <= 45
    ensures t.day <= 7 && t.date <= 45 && t.month <= 25 && 2000 <= t.year <= 2165
    ensures t.amPm <= Pm
  {
    var hours := DecodeHours(regs[2]);
    ValidTime.(
      seconds := Low(regs[0]) + 10 * (High(regs[0]) % 8),
      minutes := Low(regs[1]) + 10 * (High(regs[1]) % 8),
      amPm := hours.1,
      hours := hours.0,
      day := DayBits(regs[3]),
      date := Low(regs[4]) + 10 * (High(regs[4]) % 4),
      month := Low(regs[5]) + 10 * (High(regs[5]) % 2),
      year := 2000 + Low(regs[6]) + 10 * High(regs[6]))
  }

  /** The hours register as `set_time` composes it. */
  function EncodeHours(hours: u8, amPm: u8): (b: u8)
    requires hours <= 23 && amPm <= Pm
    ensures High(b) < 8
    ensures (High(b) / 4) % 2 == 1 <==> amPm != AmPmUnused
    ensures (High(b) / 2) % 2 == 1 <==> if amPm == AmPmUnused then hours >= 20 else amPm == Pm
    ensures High(b) % 2 == 1 <==> 10 <= hours < 20
    ensures Low(b) == hours % 10
  {
    var mode := if amPm == AmPmUnused then 0 else 1;
    var bit5 := if amPm == AmPmUnused then (if hours >= 20 then 1 else 0)
                else (if amPm == Pm then 1 else 0);
    var bit4 := if 10 <= hours < 20 then 1 else 0;
    HighBits(mode, bit5, bit4);
    Byte(4 * mode + 2 * bit5 + bit4, hours % 10)
  }

  /** Bits 6, 5 and 4 of a register, as bits 2, 1 and 0 of its high nibble. */
  lemma HighBits(b6: nat, b5: nat, b4: nat)
    requires b6 <= 1 && b5 <= 1 && b4 <= 1
    ensures 4 * b6 + 2 * b5 + b4 < 8
    ensures (4 * b6 + 2 * b5 + b4) / 4 % 2 == b6
    ensures (4 * b6 + 2 * b5 + b4) / 2 % 2 == b5
    ensures (4 * b6 + 2 * b5 + b4) % 2 == b4
  {
    if b6 == 0 {
      if b5 == 0 { assert 4 * b6 + 2 * b5 + b4 == b4; } else { assert 4 * b6 + 2 * b5 + b4 == 2 + b4; }
    } else {
      if b5 == 0 { assert 4 * b6 + 2 * b5 + b4 == 4 + b4; } else { assert 4 * b6 + 2 * b5 + b4 == 6 + b4; }
    }
  }

  /** A two-digit value written as BCD nibbles: tens in the high nibble, units
      in the low one. */
  lemma BcdValue(v: nat)
    requires v < 100
    ensures Low(Byte(v / 10, v % 10)) + 10 * High(Byte(v / 10, v % 10)) == v
  {
  }

  /** Bytes 1..7 of the frame `set_time` transmits, for a record it has clamped.
      The fields occupy disjoint bits, so each `|` is a sum. */
  function EncodeRegisters(t: Time): (regs: seq<u8>)
    requires InRange(t)
    ensures |regs| == 7
  {
    [ Byte(t.seconds / 10, t.seconds % 10),
      Byte(t.minutes / 10, t.minutes % 10),
      EncodeHours(t.hours, t.amPm),
      DayBits(t.day),
      Byte(t.date / 10, t.date % 10),
      Byte(if t.month >= 10 then 1 else 0, t.month % 10),
      Byte((t.year - 2000) / 10, t.year % 10) ]
  }

  /** What each register `set_time` writes holds: seconds, minutes, date and
      month as two BCD digits with nothing above the tens digit, the day
      unchanged by its mask, and the years since 2000 in BCD. */
  lemma EncodeRegistersBcd(t: Time)
    requires InRange(t)
    ensures Low(EncodeRegisters(t)[0]) + 10 * High(EncodeRegisters(t)[0]) == t.seconds
    ensures Low(EncodeRegisters(t)[1]) + 10 * High(EncodeRegisters(t)[1]) == t.minutes
    ensures EncodeRegisters(t)[3] == t.day
    ensures Low(EncodeRegisters(t)[4]) + 10 * High(EncodeRegisters(t)[4]) == t.date
    ensures Low(EncodeRegisters(t)[5]) + 10 * High(EncodeRegisters(t)[5]) == t.month
    ensures 2000 + Low(EncodeRegisters(t)[6]) + 10 * High(EncodeRegisters(t)[6]) == t.year
  {
    var regs := EncodeRegisters(t);
    assert Low(regs[0]) + 10 * High(regs[0]) == t.seconds by {
      BcdValue(t.seconds);
    }
    assert Low(regs[1]) + 10 * High(regs[1]) == t.minutes by {
      BcdValue(t.minutes);
    }
    assert Low(regs[4]) + 10 * High(regs[4]) == t.date by {
      BcdValue(t.date);
    }
    assert Low(regs[5]) + 10 * High(regs[5]) == t.month by {
      BcdValue(t.month);
      assert (if t.month >= 10 then 1 else 0) == t.month / 10;
    }
    assert 2000 + Low(regs[6]) + 10 * High(regs[6]) == t.year by {
      YearRoundTrip(t.year);
    }
  }

  /** `is_within(v, lo, hi) ? v : default`, with `is_within` an inclusive range
      check. */
  function KeepWithin(v: int, lo: int, hi: int, default: int): (r: int)
    ensures lo <= default <= hi ==> lo <= r <= hi
    ensures lo <= v <= hi ==> r == v
    ensures !(lo <= v <= hi) ==> r == default
  {
    if lo <= v <= hi then v else default
  }

  /** The clamping of `set_time`: every out-of-range field is replaced by its
      `valid_time` default; in-range fields are kept. */
  function Clamp(t: Time): (r: Time)
    ensures InRange(r)
  {
    Time(KeepWithin(t.seconds, 0, 59, ValidTime.seconds),
         KeepWithin(t.minutes, 0, 59, ValidTime.minutes),
         KeepWithin(t.hours, 0, 23, ValidTime.hours),
         KeepWithin(t.day, 1, 7, ValidTime.day),
         KeepWithin(t.date, 1, 31, ValidTime.date),
         KeepWithin(t.month, 1, 12, ValidTime.month),
         KeepWithin(t.amPm, AmPmUnused, Pm, ValidTime.amPm),
         KeepWithin(t.year, 2000, 2099, ValidTime.year))
  }

  /** The `valid_time` defaults are themselves in range, in 24-hour mode, and
      read back unchanged once written. */
  lemma ValidTimeRoundTrips()
    ensures InRange(ValidTime) && ValidTime.amPm == AmPmUnused
    ensures Clamp(ValidTime) == ValidTime
    ensures DecodeRegisters(EncodeRegisters(ValidTime)) == ValidTime
  {
    DecodeEncode(ValidTime);
  }

  /** Clamping changes a record exactly when it is out of range, and clamping
      twice is clamping once. */
  lemma ClampFixesExactlyInRange(t: Time)
    ensures Clamp(t) == t <==> InRange(t)
    ensures Clamp(Clamp(t)) == Clamp(t)
  {
  }

  /** `get_time` with the outcome of the register-pointer write (`txOk`), of the
      read (`rxOk`), and the bytes read. The record is only assigned after both
      transfers succeed. */
  method GetTime(t: Time, txOk: bool, rxOk: bool, regs: seq<u8>) returns (ok: bool, t': Time)
    requires |regs| == 7
    ensures ok <==> txOk && rxOk
    ensures ok ==> t' == DecodeRegisters(regs)
    ensures !ok ==> t' == t
  {
    t' := t;
    if !txOk {
      return false, t';
    }
    if !rxOk {
      return false, t';
    }
    t' := ValidTime;
    t' := t'.(seconds := Low(regs[0]) + 10 * (High(regs[0]) % 8));
    t' := t'.(minutes := Low(regs[1]) + 10 * (High(regs[1]) % 8));
    if (High(regs[2]) / 4) % 2 == 1 {
      t' := t'.(amPm := if (High(regs[2]) / 2) % 2 == 1 then Pm else Am);
    } else {
      t' := t'.(amPm := AmPmUnused);
    }
    t' := t'.(hours := Low(regs[2]) + 10 * (High(regs[2]) % 2));
    if t'.amPm == AmPmUnused {
      t' := t'.(hours := t'.hours + 20 * ((High(regs[2]) / 2) % 2));
    }
    t' := t'.(day := DayBits(regs[3]));
    t' := t'.(date := Low(regs[4]) + 10 * (High(regs[4]) % 4));
    t' := t'.(month := Low(regs[5]) + 10 * (High(regs[5]) % 2));
    t' := t'.(year := 2000 + Low(regs[6]) + 10 * High(regs[6]));
    return true, t';
  }

  /** The second half of `set_time`: the eight-byte frame for a clamped record,
      register address 0 followed by the seven registers. */
  method FillFrame(t: Time) returns (buff: array<u8>)
    requires InRange(t)
    ensures fresh(buff) && buff[..] == [0] + EncodeRegisters(t)
  {
    var hoursHigh := 0;
    if t.amPm == AmPmUnused {
      if t.hours >= 20 {
        hoursHigh := hoursHigh + 2;
      }
    } else {
      hoursHigh := hoursHigh + 4;
      if t.amPm == Pm {
        hoursHigh := hoursHigh + 2;
      }
    }
    if t.hours >= 10 && t.hours < 20 {
      hoursHigh := hoursHigh + 1;
    }
    ghost var regs := EncodeRegisters(t);
    assert hoursHigh == 4 * (if t.amPm == AmPmUnused then 0 else 1)
                      + 2 * (if t.amPm == AmPmUnused then (if t.hours >= 20 then 1 else 0) else (if t.amPm == Pm then 1 else 0))
                      + (if 10 <= t.hours < 20 then 1 else 0);
    assert Byte(hoursHigh, t.hours % 10) == regs[2];
    buff := new u8[8];
    buff[0] := 0;
    buff[1] := Byte(t.seconds / 10, t.seconds % 10);
    buff[2] := Byte(t.minutes / 10, t.minutes % 10);
    buff[3] := Byte(hoursHigh, t.hours % 10);
    buff[4] := DayBits(t.day);
    buff[5] := Byte(t.date / 10, t.date % 10);
    buff[6] := Byte(if t.month >= 10 then 1 else 0, t.month % 10);
    buff[7] := Byte((t.year - 2000) / 10, t.year % 10);
    assert buff[1] == regs[0] && buff[2] == regs[1] && buff[3] == regs[2] && buff[4] == regs[3];
    assert buff[5] == regs[4] && buff[6] == regs[5] && buff[7] == regs[6];
    assert buff[..] == [0] + regs;
  }

  /** `set_time`: clamps the caller's record (returned as `t'`), fills the
      eight-byte frame (register address 0, then the seven encoded registers) and
      reports whether the write (`writeOk`) succeeded. */
  method SetTime(t: Time, writeOk: bool) returns (ok: bool, t': Time, frame: seq<u8>)
    ensures t' == Clamp(t) && InRange(t')
    ensures frame == [0] + EncodeRegisters(t')
    ensures ok == writeOk
  {
    var seconds, minutes, hours, day, date, month, amPm, year :=
      t.seconds, t.minutes, t.hours, t.day, t.date, t.month, t.amPm, t.year;
    if !(0 <= seconds <= 59) { seconds := ValidTime.seconds; }
    assert seconds == Clamp(t).seconds;
    if !(0 <= minutes <= 59) { minutes := ValidTime.minutes; }
    assert minutes == Clamp(t).minutes;
    if !(0 <= hours <= 23) { hours := ValidTime.hours; }
    assert hours == Clamp(t).hours;
    if !(1 <= day <= 7) { day := ValidTime.day; }
    assert day == Clamp(t).day;
    if !(1 <= date <= 31) { date := ValidTime.date; }
    assert date == Clamp(t).date;
    if !(1 <= month <= 12) { month := ValidTime.month; }
    assert month == Clamp(t).month;
    if !(AmPmUnused <= amPm <= Pm) { amPm := ValidTime.amPm; }
    assert amPm == Clamp(t).amPm;
    if !(2000 <= year <= 2099) { year := ValidTime.year; }
    assert year == Clamp(t).year;
    t' := Time(seconds, minutes, hours, day, date, month, amPm, year);

    var buff := FillFrame(t');
    frame := buff[..];
    ok := writeOk;
  }

  lemma HoursRoundTrip(hours: u8, amPm: u8)
    requires hours <= 23 && amPm <= Pm
    requires amPm == AmPmUnused || hours < 20
    ensures DecodeHours(EncodeHours(hours, amPm)) == (hours, amPm)
  {
    HoursModeRoundTrip(hours, amPm);
    HoursValueRoundTrip(hours, amPm);
  }

  /** The hour mode (24-hour, AM or PM) survives the hours register. */
  lemma HoursModeRoundTrip(hours: u8, amPm: u8)
    requires hours <= 23 && amPm <= Pm
    ensures DecodeHours(EncodeHours(hours, amPm)).1 == amPm
  {
    var b := EncodeHours(hours, amPm);
    assert (High(b) / 4) % 2 == 1 <==> amPm != AmPmUnused;
  }

  /** The hour value survives the hours register, except for 20..23 in 12-hour
      mode (see TwelveHourValue). */
  lemma HoursValueRoundTrip(hours: u8, amPm: u8)
    requires hours <= 23 && amPm <= Pm
    requires amPm == AmPmUnused || hours < 20
    ensures DecodeHours(EncodeHours(hours, amPm)).0 == hours
  {
    var b := EncodeHours(hours, amPm);
    var bit5 := (High(b) / 2) % 2;
    var bit4 := High(b) % 2;
    var twenty := if amPm == AmPmUnused then 20 * bit5 else 0;
    if hours < 10 {
      assert Low(b) == hours && bit4 == 0 && twenty == 0;
    } else if hours < 20 {
      assert Low(b) == hours - 10 && bit4 == 1 && twenty == 0;
    } else {
      assert Low(b) == hours - 20 && bit4 == 0 && twenty == 20;
    }
    assert DecodeHours(b).0 == Low(b) + 10 * bit4 + twenty;
  }

  /** In 12-hour mode the register has no bit for "20": hours 20..23 come back
      as 0..3. */
  lemma TwelveHourValue(hours: u8, amPm: u8)
    requires 20 <= hours <= 23 && amPm != AmPmUnused && amPm <= Pm
    ensures DecodeHours(EncodeHours(hours, amPm)).0 == hours - 20
  {
    var b := EncodeHours(hours, amPm);
    assert Low(b) == hours - 20 && High(b) % 2 == 0;
    assert DecodeHours(b).0 == Low(b) + 10 * (High(b) % 2);
  }

  /** The hours field of the registers read back is the decoded hours register. */
  lemma HoursRegister(t: Time)
    requires InRange(t)
    ensures DecodeRegisters(EncodeRegisters(t)).hours == DecodeHours(EncodeHours(t.hours, t.amPm)).0
    ensures DecodeRegisters(EncodeRegisters(t)).amPm == DecodeHours(EncodeHours(t.hours, t.amPm)).1
  {
    assert EncodeRegisters(t)[2] == EncodeHours(t.hours, t.amPm);
  }

  /** A two-digit BCD field read back with `tens` bits of tens. */
  lemma BcdRoundTrip(v: nat, tensModulus: nat)
    requires v / 10 < tensModulus && tensModulus in {2, 4, 8, 16}
    requires v < 160
    ensures Low(Byte(v / 10, v % 10)) + 10 * (High(Byte(v / 10, v % 10)) % tensModulus) == v
  {
    assert (v / 10) % tensModulus == v / 10;
  }

  /** The year register holds the years since 2000 in BCD; `set_time` takes the
      units digit of the full year, which is the same digit. */
  lemma YearRoundTrip(year: u16)
    requires 2000 <= year <= 2099
    ensures 2000 + Low(Byte((year - 2000) / 10, year % 10)) + 10 * High(Byte((year - 2000) / 10, year % 10)) == year
  {
    var k := year - 2000;
    assert k == 10 * (k / 10) + k % 10;
    assert year == 10 * (200 + k / 10) + k % 10;
    assert year % 10 == k % 10;
  }

  lemma SecondsMinutesRoundTrip(t: Time)
    requires InRange(t)
    ensures DecodeRegisters(EncodeRegisters(t)).seconds == t.seconds
    ensures DecodeRegisters(EncodeRegisters(t)).minutes == t.minutes
  {
    BcdRoundTrip(t.seconds, 8);
    BcdRoundTrip(t.minutes, 8);
  }

  lemma DayRoundTrip(t: Time)
    requires InRange(t)
    ensures DecodeRegisters(EncodeRegisters(t)).day == t.day
  {
    assert EncodeRegisters(t)[3] == DayBits(t.day) == t.day;
  }

  lemma DateRoundTrip(t: Time)
    requires InRange(t)
    ensures DecodeRegisters(EncodeRegisters(t)).date == t.date
  {
    assert t.date / 10 < 4;
    BcdRoundTrip(t.date, 4);
  }

  lemma MonthRoundTrip(t: Time)
    requires InRange(t)
    ensures DecodeRegisters(EncodeRegisters(t)).month == t.month
  {
    var tens := if t.month >= 10 then 1 else 0;
    assert t.month / 10 == tens;
    BcdRoundTrip(t.month, 2);
    assert EncodeRegisters(t)[5] == Byte(t.month / 10, t.month % 10);
  }

  /** Round trip: reading back what `set_time` wrote gives the record it wrote,
      in 24-hour mode and in 12-hour mode for hours below 20. */
  lemma DecodeEncode(t: Time)
    requires InRange(t) && (t.amPm == AmPmUnused || t.hours < 20)
    ensures DecodeRegisters(EncodeRegisters(t)) == t
  {
    HoursRoundTrip(t.hours, t.amPm);
    SecondsMinutesRoundTrip(t);
    DayRoundTrip(t);
    DateRoundTrip(t);
    MonthRoundTrip(t);
    YearRoundTrip(t.year);
  }

  /** In 12-hour mode the encoding has no bit for "20": hours 20..23 read back
      as 0..3. */
  lemma TwelveHourModeDropsTwenty(t: Time)
    requires InRange(t) && t.amPm != AmPmUnused && t.hours >= 20
    ensures DecodeRegisters(EncodeRegisters(t)).hours == t.hours - 20
    ensures DecodeRegisters(EncodeRegisters(t)) != t
  {
    HoursRegister(t);
    TwelveHourValue(t.hours, t.amPm);
  }

  /** The round trip holds for an in-range record exactly when it is in 24-hour
      mode or its hours are below 20. */
  lemma RoundTripIff(t: Time)
    requires InRange(t)
    ensures DecodeRegisters(EncodeRegisters(t)) == t <==> t.amPm == AmPmUnused || t.hours < 20
  {
    if t.amPm == AmPmUnused || t.hours < 20 {
      DecodeEncode(t);
    } else {
      TwelveHourModeDropsTwenty(t);
    }
  }

  /** The RTC unit test's step: after setting hours 2 and minutes 29 on any record
      read from the clock, in either hour mode and whatever its other fields,
      reading the clock back gives hours 2 and minutes 29. */
  lemma UnitTestSetThenGet(t: Time)
    ensures DecodeRegisters(EncodeRegisters(Clamp(t.(hours := 2, minutes := 29, seconds := 0)))).hours == 2
    ensures DecodeRegisters(EncodeRegisters(Clamp(t.(hours := 2, minutes := 29, seconds := 0)))).minutes == 29
  {
    var c := Clamp(t.(hours := 2, minutes := 29, seconds := 0));
    assert c.hours == 2 && c.minutes == 29;
    DecodeEncode(c);
  }
}
