/** Dates and times in their canonical ISO form. */
module Calendar {
  import opened Wrappers
  import opened Text

  datatype Date = Date(year: nat, month: nat, day: nat)

  predicate LeapYear(year: nat) {
    year % 4 == 0 && (year % 100 != 0 || year % 400 == 0)
  }

  function DaysIn(year: nat, month: nat): nat {
    if month == 2 then (if LeapYear(year) then 29 else 28)
    else if month in {4, 6, 9, 11} then 30
    else 31
  }

  predicate ValidDate(d: Date) {
    1 <= d.year <= 9999 && 1 <= d.month <= 12 && 1 <= d.day <= DaysIn(d.year, d.month)
  }

  /** date.isoformat */
  function DateText(d: Date): string {
    Fixed(d.year, 4) + "-" + Fixed(d.month, 2) + "-" + Fixed(d.day, 2)
  }

  /** date.fromisoformat on YYYY-MM-DD. */
  function ParseDate(s: string): Option<Date> {
    if |s| != 10 || s[4] != '-' || s[7] != '-' || !AllDigits(s[..4]) || !AllDigits(s[5..7]) || !AllDigits(s[8..])
    then None
    else
      var d := Date(DigitsValue(s[..4]), DigitsValue(s[5..7]), DigitsValue(s[8..]));
      if ValidDate(d) then Some(d) else None
  }

  /** A time of day; the offset is in minutes, absent for naive values. */
  datatype DateTime = DateTime(date: Date, hour: nat, minute: nat, second: nat, micro: nat, offset: Option<int>)

  predicate ValidDateTime(t: DateTime) {
    ValidDate(t.date) && t.hour < 24 && t.minute < 60 && t.second < 60 && t.micro < 1000000 &&
    (t.offset.Some? ==> -1440 < t.offset.value < 1440)
  }

  // ----- moments -----

  function DaysBefore(year: nat, month: nat): nat
    decreases month
  {
    if month <= 1 then 0 else DaysBefore(year, month - 1) + DaysIn(year, month - 1)
  }

  /** The number of days up to a date of the proleptic Gregorian calendar. */
  function DayNumber(d: Date): int {
    var y: int := d.year - 1;
    365 * y + y / 4 - y / 100 + y / 400 + DaysBefore(d.year, d.month) + d.day
  }

  /** The point in time of an aware value, in microseconds. */
  function Instant(t: DateTime): int
    requires t.offset.Some?
  {
    (((DayNumber(t.date) * 24 + t.hour) * 60 + t.minute - t.offset.value) * 60 + t.second) * 1000000 + t.micro
  }

  /** Python equality of datetimes: aware values by instant, naive ones by fields, never one with the other. */
  predicate SameMoment(a: DateTime, b: DateTime) {
    if a.offset.Some? && b.offset.Some? then Instant(a) == Instant(b) else a == b
  }

  /** What reading a timestamp with time zone gives for the value that was written. */
  type Zone = DateTime -> DateTime

  /** The database keeps the instant of an aware value, and every value it returns is aware. */
  ghost predicate Keeps(zone: Zone) {
    forall t :: zone(t).offset.Some? && (t.offset.Some? ==> Instant(zone(t)) == Instant(t))
  }

  lemma ReadMoment(zone: Zone, t: DateTime)
    requires Keeps(zone)
    ensures SameMoment(t, zone(t)) <==> t.offset.Some?
  {
  }

  function ClockText(hour: nat, minute: nat, second: nat): string {
    Fixed(hour, 2) + ":" + Fixed(minute, 2) + ":" + Fixed(second, 2)
  }

  function OffsetText(offset: Option<int>): string {
    match offset
    case None => ""
    case Some(m) =>
      var size: nat := if m < 0 then -m else m;
      (if m < 0 then "-" else "+") + Fixed(size / 60, 2) + ":" + Fixed(size % 60, 2)
  }

  /** datetime.isoformat */
  function DateTimeText(t: DateTime): string {
    DateText(t.date) + "T" + ClockText(t.hour, t.minute, t.second) +
    ((if t.micro == 0 then "" else "." + Fixed(t.micro, 6)) + OffsetText(t.offset))
  }

  function ParseClock(s: string): Option<(nat, nat, nat)> {
    if |s| != 8 || s[2] != ':' || s[5] != ':' || !AllDigits(s[..2]) || !AllDigits(s[3..5]) || !AllDigits(s[6..])
    then None
    else Some((DigitsValue(s[..2]), DigitsValue(s[3..5]), DigitsValue(s[6..])))
  }

  function ParseOffset(s: string): Option<Option<int>> {
    if s == "" then Some(None)
    else if |s| != 6 || (s[0] != '+' && s[0] != '-') || s[3] != ':' || !AllDigits(s[1..3]) || !AllDigits(s[4..])
    then None
    else
      var size: int := DigitsValue(s[1..3]) * 60 + DigitsValue(s[4..]);
      Some(Some(if s[0] == '-' then -size else size))
  }

  /** datetime.fromisoformat on the form isoformat prints. */
  function ParseDateTime(s: string): Option<DateTime> {
    if |s| < 19 || s[10] != 'T' then None
    else
      var tail := s[19..];
      var fractional := |tail| >= 7 && tail[0] == '.' && AllDigits(tail[1..7]);
      var micro := if fractional then DigitsValue(tail[1..7]) else 0;
      match (ParseDate(s[..10]), ParseClock(s[11..19]), ParseOffset(if fractional then tail[7..] else tail))
      case (Some(d), Some(c), Some(o)) =>
        var t := DateTime(d, c.0, c.1, c.2, micro, o);
        if ValidDateTime(t) then Some(t) else None
      case _ => None
  }

  lemma Powers()
    ensures Pow10(2) == 100 && Pow10(4) == 10000 && Pow10(6) == 1000000
  {
    assert Pow10(1) == 10 * Pow10(0);
    assert Pow10(2) == 10 * Pow10(1);
    assert Pow10(3) == 10 * Pow10(2);
    assert Pow10(4) == 10 * Pow10(3);
    assert Pow10(5) == 10 * Pow10(4);
  }

  lemma Pair(n: nat)
    requires n < 100
    ensures |Fixed(n, 2)| == 2 && DigitsValue(Fixed(n, 2)) == n
  {
    Powers();
    FixedValue(n, 2);
  }

  lemma DateTextParses(d: Date)
    requires ValidDate(d)
    ensures ParseDate(DateText(d)) == Some(d)
    ensures |DateText(d)| == 10 && Trimmed(DateText(d)) && IsDigit(DateText(d)[0])
  {
    hide Fixed, DigitsValue, Pow10;
    Powers();
    var y, m, x := Fixed(d.year, 4), Fixed(d.month, 2), Fixed(d.day, 2);
    FixedValue(d.year, 4);
    Pair(d.month);
    Pair(d.day);
    var s := DateText(d);
    assert s[..4] == y && s[5..7] == m && s[8..] == x;
  }

  lemma ClockTextParses(hour: nat, minute: nat, second: nat)
    requires hour < 24 && minute < 60 && second < 60
    ensures |ClockText(hour, minute, second)| == 8 && IsDigit(ClockText(hour, minute, second)[7])
    ensures ParseClock(ClockText(hour, minute, second)) == Some((hour, minute, second))
  {
    hide Fixed, DigitsValue, Pow10;
    Pair(hour);
    Pair(minute);
    Pair(second);
    var s := ClockText(hour, minute, second);
    assert s[..2] == Fixed(hour, 2) && s[3..5] == Fixed(minute, 2) && s[6..] == Fixed(second, 2);
  }

  lemma OffsetTextParses(offset: Option<int>)
    requires offset.Some? ==> -1440 < offset.value < 1440
    ensures ParseOffset(OffsetText(offset)) == Some(offset)
    ensures OffsetText(offset) != "" ==> OffsetText(offset)[0] != '.' && IsDigit(OffsetText(offset)[|OffsetText(offset)| - 1])
  {
    hide Fixed, DigitsValue, Pow10;
    if offset.Some? {
      var m := offset.value;
      var size: nat := if m < 0 then -m else m;
      Pair(size / 60);
      Pair(size % 60);
      var s := OffsetText(offset);
      assert s[1..3] == Fixed(size / 60, 2) && s[4..] == Fixed(size % 60, 2);
    }
  }

  function DateTimeTail(t: DateTime): string {
    (if t.micro == 0 then "" else "." + Fixed(t.micro, 6)) + OffsetText(t.offset)
  }

  lemma DateTimeParts(t: DateTime)
    requires ValidDateTime(t)
    ensures var s := DateTimeText(t);
            && |s| >= 19 && s[10] == 'T' && s[..10] == DateText(t.date)
            && s[11..19] == ClockText(t.hour, t.minute, t.second) && s[19..] == DateTimeTail(t)
            && Trimmed(s)
  {
    hide Fixed, DigitsValue, Pow10, ClockText, DateText, OffsetText, ParseDate, ParseClock, ParseOffset, ValidDate;
    DateTextParses(t.date);
    ClockTextParses(t.hour, t.minute, t.second);
    OffsetTextParses(t.offset);
    Powers();
    var s, clock := DateTimeText(t), ClockText(t.hour, t.minute, t.second);
    assert s == DateText(t.date) + "T" + clock + DateTimeTail(t);
    assert s[18] == clock[7];
  }

  lemma TailParses(t: DateTime)
    requires ValidDateTime(t)
    ensures var tail := DateTimeTail(t);
            var fractional := |tail| >= 7 && tail[0] == '.' && AllDigits(tail[1..7]);
            && (fractional <==> t.micro != 0)
            && (fractional ==> DigitsValue(tail[1..7]) == t.micro)
            && ParseOffset(if fractional then tail[7..] else tail) == Some(t.offset)
  {
    hide Fixed, DigitsValue, Pow10, OffsetText, ParseOffset, ValidDate;
    OffsetTextParses(t.offset);
    Powers();
    FixedValue(t.micro, 6);
    var tail := DateTimeTail(t);
    if t.micro != 0 {
      assert tail[1..7] == Fixed(t.micro, 6);
      assert tail[7..] == OffsetText(t.offset);
    } else {
      assert tail == OffsetText(t.offset);
    }
  }

  lemma DateTimeTextParses(t: DateTime)
    requires ValidDateTime(t)
    ensures ParseDateTime(DateTimeText(t)) == Some(t)
    ensures DateTimeText(t) != "" && Trimmed(DateTimeText(t))
  {
    DateTimeParts(t);
    TailParses(t);
    DateTextParses(t.date);
    ClockTextParses(t.hour, t.minute, t.second);
    hide DigitsValue, AllDigits, ClockText, DateText, DateTimeText, DateTimeTail, ParseDate, ParseClock, ParseOffset, Trimmed;
  }
}
