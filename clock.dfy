/**
 * The real-time clock's date and time (`dev::clock`): six byte-sized fields,
 * overwritten in place by `update`, subtracted to measure elapsed seconds,
 * and decoded from the CMOS registers, which hold binary-coded decimal
 * unless bit 2 of status register B is set.
 */
module Clocks {
  import opened Machine

  /** A `DateTime` value (the struct is `Copy`). */
  datatype DateTime = DateTime(year: u8, month: u8, day: u8, hour: u8, min: u8, sec: u8)

  /** A `DateTime` variable, such as the kernel's boot time, updated in place. */
  class DateTimeCell {
    var year: u8
    var month: u8
    var day: u8
    var hour: u8
    var min: u8
    var sec: u8

    function Value(): DateTime
      reads this
    {
      DateTime(year, month, day, hour, min, sec)
    }

    constructor (t: DateTime)
      ensures Value() == t
    {
      year, month, day, hour, min, sec := t.year, t.month, t.day, t.hour, t.min, t.sec;
    }

    /** `DateTime::update`: every field takes `rhs`'s value. */
    method Update(rhs: DateTime)
      modifies this
      ensures Value() == rhs
    {
      year := rhs.year;
      month := rhs.month;
      day := rhs.day;
      hour := rhs.hour;
      min := rhs.min;
      sec := rhs.sec;
    }
  }

  /** `u8` subtraction, wrapping modulo 256. */
  function WrappingSub(a: u8, b: u8): (d: u8)
    ensures a >= b ==> d == a - b
    ensures a < b ==> d == a - b + 256
  {
    (a - b) % 256
  }

  /** Seconds from the start of the month to the given day, hour, minute and second. */
  function SecondsIntoMonth(t: DateTime): int
  {
    t.sec + 60 * t.min + 3600 * t.hour + 86400 * t.day
  }

  /**
   * `Sub for DateTime` as written: every field difference is a `u8`
   * subtraction, computed before the month and year are compared; a month or
   * year difference is `unimplemented!()`.
   */
  function MinusAsWritten(a: DateTime, b: DateTime): Result<int>
  {
    var dyear := WrappingSub(a.year, b.year);
    var dmonth := WrappingSub(a.month, b.month);
    var dday := WrappingSub(a.day, b.day);
    var dhour := WrappingSub(a.hour, b.hour);
    var dmin := WrappingSub(a.min, b.min);
    var dsec := WrappingSub(a.sec, b.sec);
    var diff := dsec + dmin * 60 + dhour * 60 * 60 + dday * 60 * 60 * 24;
    if dmonth != 0 || dyear != 0 then Err(Unimplemented) else Ok(diff)
  }

  /**
   * Five seconds past ten o'clock minus one second before ten, on the same
   * day, comes out as 15622 seconds instead of 6: the seconds and minutes
   * differences wrap.
   */
  lemma MinusAsWrittenWraps()
    ensures MinusAsWritten(DateTime(24, 3, 1, 10, 0, 5), DateTime(24, 3, 1, 9, 59, 59)) == Ok(15622)
    ensures SecondsIntoMonth(DateTime(24, 3, 1, 10, 0, 5)) - SecondsIntoMonth(DateTime(24, 3, 1, 9, 59, 59)) == 6
  {
  }

  /**
   * The subtraction the source evidently intends: the signed number of
   * seconds from `b` to `a` when both lie in the same month of the same
   * year, and `unimplemented!()` otherwise.
   */
  function Minus(a: DateTime, b: DateTime): (r: Result<int>)
    ensures r.Err? <==> a.month != b.month || a.year != b.year
    ensures r.Err? ==> r.error == Unimplemented
  {
    if a.month != b.month || a.year != b.year then Err(Unimplemented)
    else Ok((a.sec - b.sec) + (a.min - b.min) * 60 + (a.hour - b.hour) * 60 * 60 + (a.day - b.day) * 60 * 60 * 24)
  }

  /** Within a month, `a - b` is the difference of the two times' seconds into the month. */
  lemma MinusIsElapsedSeconds(a: DateTime, b: DateTime)
    requires a.month == b.month && a.year == b.year
    ensures Minus(a, b) == Ok(SecondsIntoMonth(a) - SecondsIntoMonth(b))
  {
  }

  /** A time minus itself is zero, and swapping the operands negates the difference. */
  lemma MinusAntisymmetric(a: DateTime, b: DateTime)
    requires a.month == b.month && a.year == b.year
    ensures Minus(a, a) == Ok(0)
    ensures Minus(b, a) == Ok(-Minus(a, b).value)
  {
    MinusIsElapsedSeconds(a, b);
    MinusIsElapsedSeconds(b, a);
  }

  /** Differences add up along a chain of times in one month. */
  lemma MinusAdds(a: DateTime, b: DateTime, c: DateTime)
    requires a.month == b.month == c.month && a.year == b.year == c.year
    ensures Minus(a, c) == Ok(Minus(a, b).value + Minus(b, c).value)
  {
    MinusIsElapsedSeconds(a, b);
    MinusIsElapsedSeconds(b, c);
    MinusIsElapsedSeconds(a, c);
  }

  /** When no field of `a` is below `b`'s, the source's subtraction gives the intended result. */
  lemma AsWrittenAgreesWithoutBorrow(a: DateTime, b: DateTime)
    requires a.year >= b.year && a.month >= b.month && a.day >= b.day
    requires a.hour >= b.hour && a.min >= b.min && a.sec >= b.sec
    ensures MinusAsWritten(a, b) == Minus(a, b)
  {
  }

  /** A BCD byte: two decimal digits, tens in the high nibble. */
  predicate IsBcd(v: u8)
  {
    v % 16 < 10 && v / 16 < 10
  }

  /** `(v & 0x0F) + ((v / 16) * 10)`: a BCD byte to binary. */
  function FromBcd(v: u8): (n: u8)
    ensures IsBcd(v) ==> n < 100
  {
    v % 16 + (v / 16) * 10
  }

  /** The BCD byte of a number below 100. */
  function ToBcd(n: nat): (v: u8)
    requires n < 100
    ensures IsBcd(v)
  {
    (n / 10) * 16 + n % 10
  }

  lemma BcdRoundTrip(n: nat)
    requires n < 100
    ensures FromBcd(ToBcd(n)) == n
  {
    assert ToBcd(n) % 16 == n % 10 && ToBcd(n) / 16 == n / 10;
  }

  lemma BcdRoundTripBack(v: u8)
    requires IsBcd(v)
    ensures ToBcd(FromBcd(v)) == v
  {
    assert FromBcd(v) / 10 == v / 16 && FromBcd(v) % 10 == v % 16;
  }

  /** The 12-hour clock's PM flag in the hour register. */
  const PM_BIT: int := 0x80

  /**
   * `((h & 0x0F) + (((h & 0x70) / 16) * 10)) | (h & 0x80)`: the hour's
   * three tens bits and ones nibble to binary, the PM bit kept. The decoded
   * digits stay below 0x80, so `|` adds the bit.
   */
  function HourFromBcd(h: u8): (n: u8)
    ensures n / PM_BIT == h / PM_BIT
  {
    h % 16 + ((h % 128) / 16) * 10 + (h / 128) * PM_BIT
  }

  /** The hour register holding `hour` (below 80) in BCD, with the PM bit when `pm`. */
  function HourToBcd(hour: nat, pm: bool): (h: u8)
    requires hour < 80
  {
    (hour / 10) * 16 + hour % 10 + (if pm then PM_BIT else 0)
  }

  lemma HourRoundTrip(hour: nat, pm: bool)
    requires hour < 80
    ensures HourFromBcd(HourToBcd(hour, pm)) == hour + (if pm then PM_BIT else 0)
  {
    var h := HourToBcd(hour, pm);
    var low := (hour / 10) * 16 + hour % 10;
    assert h == low + (if pm then PM_BIT else 0);
    assert h / 128 == (if pm then 1 else 0) && h % 128 == low;
    assert low % 16 == hour % 10 && low / 16 == hour / 10;
  }

  /** Bit 2 of status register B: the registers already hold binary values. */
  predicate BinaryMode(registerB: u8)
  {
    (registerB / 4) % 2 == 1
  }

  /** The conversion block of `read_rtc`: decode every field unless the clock is in binary mode. */
  function Decode(raw: DateTime, registerB: u8): DateTime
  {
    if BinaryMode(registerB) then raw
    else DateTime(FromBcd(raw.year), FromBcd(raw.month), FromBcd(raw.day),
                  HourFromBcd(raw.hour), FromBcd(raw.min), FromBcd(raw.sec))
  }

  /** What a BCD-mode clock holds for a date and time whose fields are below 100 (hours below 80). */
  function EncodeBcd(t: DateTime, pm: bool): DateTime
    requires t.year < 100 && t.month < 100 && t.day < 100 && t.hour < 80 && t.min < 100 && t.sec < 100
  {
    DateTime(ToBcd(t.year), ToBcd(t.month), ToBcd(t.day), HourToBcd(t.hour, pm), ToBcd(t.min), ToBcd(t.sec))
  }

  /** Reading back what a BCD-mode clock holds gives the date and time, the hour carrying the PM bit. */
  lemma DecodeBcdRoundTrip(t: DateTime, pm: bool, registerB: u8)
    requires t.year < 100 && t.month < 100 && t.day < 100 && t.hour < 80 && t.min < 100 && t.sec < 100
    requires !BinaryMode(registerB)
    ensures Decode(EncodeBcd(t, pm), registerB) == t.(hour := t.hour + if pm then PM_BIT else 0)
  {
    BcdRoundTrip(t.year);
    BcdRoundTrip(t.month);
    BcdRoundTrip(t.day);
    HourRoundTrip(t.hour, pm);
    BcdRoundTrip(t.min);
    BcdRoundTrip(t.sec);
  }

  /** In binary mode the raw register values are returned unchanged. */
  lemma DecodeBinary(raw: DateTime, registerB: u8)
    requires BinaryMode(registerB)
    ensures Decode(raw, registerB) == raw
  {
  }
}
