/** Reading RFC 3339 timestamps (section 5.6) back to the millisecond instant they denote. */
module Timestamps {
  import opened Prelude
  import opened Calendar
  import opened Strings

  // ----- String primitives -----

  predicate Sign(c: char) { c == '+' || c == '-' }

  /** str::rfind of a sign. */
  function LastSign(s: string): (r: Option<nat>)
    ensures r.Some? ==> r.value < |s|
  {
    if s == [] then None
    else if Sign(s[|s| - 1]) then Some(|s| - 1)
    else LastSign(s[..|s| - 1])
  }

  predicate IsDigit(c: char) { '0' <= c <= '9' }

  function DigitsValue(s: string): int
    requires forall c :: c in s ==> IsDigit(c)
  {
    if s == [] then 0 else 10 * DigitsValue(s[..|s| - 1]) + (s[|s| - 1] as int - '0' as int)
  }

  /** Range of i64; a checked operation outside it yields None. */
  function Checked(n: int): Option<int> {
    if -0x8000_0000_0000_0000 <= n < 0x8000_0000_0000_0000 then Some(n) else None
  }

  /** str::parse::<i64>: an optional sign, at least one digit, in range. */
  function ParseInt(s: string): Option<int> {
    var digits := if s != [] && Sign(s[0]) then s[1..] else s;
    if digits == [] || !(forall c :: c in digits ==> IsDigit(c)) then None
    else Checked(if s[0] == '-' then -DigitsValue(digits) else DigitsValue(digits))
  }

  // ----- The parser -----

  function ParseDate(date: string): Option<Date> {
    var parts := SplitAll(date, '-');
    if |parts| < 3 then None
    else
      var year, month, day := ParseInt(parts[0]), ParseInt(parts[1]), ParseInt(parts[2]);
      if year.None? || month.None? || day.None? || |parts| > 3
         || !(1 <= month.value <= 12) || !(1 <= day.value <= 31)
      then None else Some(Date(year.value, month.value, day.value))
  }

  /** The clock part and the offset from UTC in seconds. */
  function ParseZone(time: string): Option<(string, int)> {
    if time != [] && time[|time| - 1] == 'Z' then Some((time[..|time| - 1], 0))
    else
      var index := LastSign(time);
      if index.None? then None
      else
        var offset := SplitOnce(time[index.value + 1..], ':');
        if offset.None? then None
        else
          var hours, minutes := ParseInt(offset.value.0), ParseInt(offset.value.1);
          if hours.None? || minutes.None? || Checked(hours.value * 3600).None?
            || Checked(minutes.value * 60).None? then None
          else
            var seconds := hours.value * 3600 + minutes.value * 60;
            Some((time[..index.value], if time[index.value] == '+' then seconds else -seconds))
  }

  function Padded(fraction: string): (r: string)
    ensures |r| >= 3 && fraction <= r
    ensures forall c :: c in r ==> c in fraction || c == '0'
    decreases 3 - |fraction|
  {
    if |fraction| >= 3 then fraction else Padded(fraction + "0")
  }

  /** Seconds and milliseconds. */
  function ParseSeconds(text: string): Option<(int, int)> {
    var parts := match SplitOnce(text, '.') case Some(p) => p case None => (text, []);
    var second := ParseInt(parts.0);
    if second.None? || second.value > 60 || !(forall c :: c in parts.1 ==> IsDigit(c)) then None
    else
      var millis := match ParseInt(Padded(parts.1)[..3]) case Some(n) => n case None => 0;
      Some((second.value, millis))
  }

  function ParseClock(clock: string): Option<(int, int, int, int)> {
    var parts := SplitAll(clock, ':');
    if |parts| < 3 then None
    else
      var hour, minute := ParseInt(parts[0]), ParseInt(parts[1]);
      if hour.None? || minute.None? || |parts| > 3 || hour.value > 23 || minute.value > 59 then None
      else match ParseSeconds(parts[2])
        case None => None
        case Some(s) => Some((hour.value, minute.value, s.0, s.1))
  }

  function Instant(date: Date, hour: int, minute: int, second: int, millis: int, offset: int): Option<int> {
    var days := Checked(DayNumber(date) * 86400);
    if days.None? || Checked(hour * 3600).None? || Checked(minute * 60).None? then None
    else
      var scaled := Checked((days.value + hour * 3600 + minute * 60 + second - offset) * 1000);
      if scaled.None? then None else Some(scaled.value + millis)
  }

  /** `value` is the JSON value's string, if it is one. */
  function ParseTimestamp(value: Option<string>): Option<int> {
    if value.None? then None
    else match SplitOnce(value.value, 'T')
      case None => None
      case Some((dateText, time)) =>
        var date := ParseDate(dateText);
        if date.None? then None
        else match ParseZone(time)
          case None => None
          case Some((clockText, offset)) =>
            match ParseClock(clockText)
            case None => None
            case Some((hour, minute, second, millis)) => Instant(date.value, hour, minute, second, millis, offset)
  }

  // ----- The formatter -----

  function Digit(n: int): char
    requires 0 <= n <= 9
  {
    ('0' as int + n) as char
  }

  function TwoDigits(n: int): string
    requires 0 <= n <= 99
  {
    [Digit(n / 10), Digit(n % 10)]
  }

  function ThreeDigits(n: int): string
    requires 0 <= n <= 999
  {
    TwoDigits(n / 10) + [Digit(n % 10)]
  }

  function FourDigits(n: int): string
    requires 0 <= n <= 9999
  {
    ThreeDigits(n / 10) + [Digit(n % 10)]
  }

  /** time-offset: "Z", or a sign with hours and minutes. */
  datatype Zone = Zulu | Offset(east: bool, hours: int, minutes: int)

  /** Two digits each; RFC 3339 allows hours to 23 and minutes to 59, the parser any. */
  predicate ValidZone(z: Zone) {
    z.Offset? ==> 0 <= z.hours <= 99 && 0 <= z.minutes <= 99
  }

  function ZoneSeconds(z: Zone): int {
    if z.Zulu? then 0 else if z.east then z.hours * 3600 + z.minutes * 60 else -(z.hours * 3600 + z.minutes * 60)
  }

  function FormatZone(z: Zone): string
    requires ValidZone(z)
  {
    if z.Zulu? then "Z" else [if z.east then '+' else '-'] + (TwoDigits(z.hours) + [':'] + TwoDigits(z.minutes))
  }

  /** full-date: four digits and two digits each, which need not be a date of the calendar. */
  predicate DateDigits(d: Date) {
    0 <= d.year <= 9999 && 0 <= d.month <= 99 && 0 <= d.day <= 99
  }

  predicate ClockDigits(hour: int, minute: int, second: int, fraction: string) {
    0 <= hour <= 99 && 0 <= minute <= 99 && 0 <= second <= 99 && forall c :: c in fraction ==> IsDigit(c)
  }

  function FormatDate(d: Date): string
    requires DateDigits(d)
  {
    FourDigits(d.year) + ['-'] + (TwoDigits(d.month) + ['-'] + TwoDigits(d.day))
  }

  /** partial-time with any number of fraction digits, none meaning no fraction part. */
  function FormatClock(hour: int, minute: int, second: int, fraction: string): string
    requires ClockDigits(hour, minute, second, fraction)
  {
    TwoDigits(hour) + [':'] + (TwoDigits(minute) + [':'] + FormatSeconds(second, fraction))
  }

  function FormatSeconds(second: int, fraction: string): string
    requires 0 <= second <= 99
  {
    if fraction == [] then TwoDigits(second) else TwoDigits(second) + ['.'] + fraction
  }

  const DAY := 86_400_000

  function LocalMillis(t: int, z: Zone): int { t + ZoneSeconds(z) * 1000 }

  function LocalDate(t: int, z: Zone): Date { DateAfter(LocalMillis(t, z) / DAY) }

  /** A date and the milliseconds since its midnight, to the millisecond. */
  function FormatLocal(d: Date, millis: int, z: Zone): string
    requires ValidDate(d) && 0 <= d.year <= 9999 && 0 <= millis < DAY && ValidZone(z)
  {
    ThreeNumeral(millis % 1000);
    FormatDate(d) + ['T']
    + (FormatClock(millis / 3_600_000, millis / 60_000 % 60, millis / 1000 % 60, ThreeDigits(millis % 1000))
       + FormatZone(z))
  }

  /** The instant t in a zone's local time. */
  function Format(t: int, z: Zone): string
    requires ValidZone(z) && 0 <= LocalDate(t, z).year <= 9999
  {
    CountedDate(LocalMillis(t, z) / DAY);
    FormatLocal(LocalDate(t, z), LocalMillis(t, z) % DAY, z)
  }

  // ----- Round trip -----

  lemma {:induction false} LastSignAt(a: string, c: char, b: string)
    requires Sign(c) && forall x :: x in b ==> !Sign(x)
    ensures LastSign(a + [c] + b) == Some(|a|)
    decreases |b|
  {
    var s := a + [c] + b;
    if b != [] {
      assert s[|s| - 1] == b[|b| - 1];
      assert s[..|s| - 1] == a + [c] + b[..|b| - 1];
      LastSignAt(a, c, b[..|b| - 1]);
    }
  }

  predicate Numeral(s: string, n: int) {
    s != [] && (forall c :: c in s ==> IsDigit(c)) && DigitsValue(s) == n
  }

  lemma OneMoreDigit(s: string, n: int, d: int)
    requires Numeral(s, n) && 0 <= d <= 9
    ensures Numeral(s + [Digit(d)], 10 * n + d)
  {
    assert (s + [Digit(d)])[..|s|] == s;
  }

  lemma TwoNumeral(n: int)
    requires 0 <= n <= 99
    ensures Numeral(TwoDigits(n), n)
  {
    assert [Digit(n / 10)][..0] == [];
    assert Numeral([Digit(n / 10)], n / 10);
    OneMoreDigit([Digit(n / 10)], n / 10, n % 10);
    assert TwoDigits(n) == [Digit(n / 10)] + [Digit(n % 10)];
  }

  lemma ThreeNumeral(n: int)
    requires 0 <= n <= 999
    ensures Numeral(ThreeDigits(n), n)
  {
    TwoNumeral(n / 10);
    OneMoreDigit(TwoDigits(n / 10), n / 10, n % 10);
  }

  lemma ParseNumeral(s: string, n: int)
    requires Numeral(s, n) && 0 <= n <= 9999
    ensures ParseInt(s) == Some(n)
  {
    assert IsDigit(s[0]);
  }

  lemma ParseTwo(n: int)
    requires 0 <= n <= 99
    ensures ParseInt(TwoDigits(n)) == Some(n)
  {
    TwoNumeral(n);
    ParseNumeral(TwoDigits(n), n);
  }

  lemma ParseThree(n: int)
    requires 0 <= n <= 999
    ensures ParseInt(ThreeDigits(n)) == Some(n)
  {
    ThreeNumeral(n);
    ParseNumeral(ThreeDigits(n), n);
  }

  lemma ParseFour(n: int)
    requires 0 <= n <= 9999
    ensures ParseInt(FourDigits(n)) == Some(n)
  {
    ThreeNumeral(n / 10);
    OneMoreDigit(ThreeDigits(n / 10), n / 10, n % 10);
    ParseNumeral(FourDigits(n), n);
  }

  lemma DateRoundTrip(d: Date)
    requires DateDigits(d)
    ensures ParseDate(FormatDate(d)) == if 1 <= d.month <= 12 && 1 <= d.day <= 31 then Some(d) else None
    ensures 'T' !in FormatDate(d)
  {
    SplitAllAt(FourDigits(d.year), '-', TwoDigits(d.month) + ['-'] + TwoDigits(d.day));
    SplitAllAt(TwoDigits(d.month), '-', TwoDigits(d.day));
    NoSplit(TwoDigits(d.day), '-');
    ParseFour(d.year);
    ParseTwo(d.month);
    ParseTwo(d.day);
  }

  lemma ZoneRoundTrip(clock: string, z: Zone)
    requires ValidZone(z)
    ensures ParseZone(clock + FormatZone(z)) == Some((clock, ZoneSeconds(z)))
  {
    var time := clock + FormatZone(z);
    if z.Zulu? {
      assert time[|time| - 1] == 'Z' && time[..|time| - 1] == clock;
    } else {
      OffsetRoundTrip(clock, z);
    }
  }

  lemma OffsetRoundTrip(clock: string, z: Zone)
    requires ValidZone(z) && z.Offset?
    ensures ParseZone(clock + FormatZone(z)) == Some((clock, ZoneSeconds(z)))
  {
    hide ParseZone, TwoDigits, Numeral;
    var sign, hours, minutes := if z.east then '+' else '-', TwoDigits(z.hours), TwoDigits(z.minutes);
    TwoNumeral(z.hours);
    TwoNumeral(z.minutes);
    assert clock + FormatZone(z) == clock + [sign] + (hours + [':'] + minutes);
    OffsetParses(clock, sign, hours, minutes, z.hours, z.minutes);
  }

  lemma NumeralPlain(s: string, n: int)
    requires Numeral(s, n)
    ensures forall c :: c in s ==> !Sign(c) && c != 'Z' && c != ':'
  {
  }

  lemma OffsetParses(clock: string, sign: char, hours: string, minutes: string, h: int, m: int)
    requires Sign(sign) && Numeral(hours, h) && Numeral(minutes, m) && 0 <= h <= 99 && 0 <= m <= 99
    ensures ParseZone(clock + [sign] + (hours + [':'] + minutes))
         == Some((clock, if sign == '+' then h * 3600 + m * 60 else -(h * 3600 + m * 60)))
  {
    hide ParseInt, Numeral, LastSign, SplitOnce;
    ParseNumeral(hours, h);
    ParseNumeral(minutes, m);
    NumeralPlain(hours, h);
    NumeralPlain(minutes, m);
    SignPosition(clock, sign, hours + [':'] + minutes);
    SplitOnceAt(hours, ':', minutes);
  }

  /** The offset's sign is the last one, and an offset does not end in 'Z'. */
  lemma SignPosition(clock: string, sign: char, text: string)
    requires Sign(sign) && text != [] && forall c :: c in text ==> !Sign(c) && c != 'Z'
    ensures var time := clock + [sign] + text;
            && LastSign(time) == Some(|clock|) && time[|time| - 1] != 'Z'
            && time[|clock| + 1..] == text && time[..|clock|] == clock && time[|clock|] == sign
  {
    LastSignAt(clock, sign, text);
    var time := clock + [sign] + text;
    assert time[|time| - 1] == text[|text| - 1];
  }

  /** The milliseconds that a fraction's first three digits, padded with zeros, denote. */
  function FractionMillis(fraction: string): int {
    match ParseInt(Padded(fraction)[..3]) case Some(n) => n case None => 0
  }

  lemma SecondsRoundTrip(second: int, fraction: string)
    requires 0 <= second <= 99 && forall c :: c in fraction ==> IsDigit(c)
    ensures ParseSeconds(FormatSeconds(second, fraction)) ==
              if second <= 60 then Some((second, FractionMillis(fraction))) else None
    ensures ':' !in FormatSeconds(second, fraction)
  {
    ParseTwo(second);
    if fraction == [] {
      NoSplit(TwoDigits(second), '.');
    } else {
      SplitOnceAt(TwoDigits(second), '.', fraction);
    }
  }

  lemma ClockRoundTrip(hour: int, minute: int, second: int, fraction: string)
    requires ClockDigits(hour, minute, second, fraction)
    ensures ParseClock(FormatClock(hour, minute, second, fraction)) ==
              if hour <= 23 && minute <= 59 && second <= 60
              then Some((hour, minute, second, FractionMillis(fraction))) else None
  {
    var seconds := FormatSeconds(second, fraction);
    SecondsRoundTrip(second, fraction);
    SplitAllAt(TwoDigits(hour), ':', TwoDigits(minute) + [':'] + seconds);
    SplitAllAt(TwoDigits(minute), ':', seconds);
    NoSplit(seconds, ':');
    ParseTwo(hour);
    ParseTwo(minute);
  }

  /** The milliseconds from the epoch of a day number and a local time at an offset from UTC. */
  function Millis(day: int, hour: int, minute: int, second: int, millis: int, offset: int): int {
    (day * 86400 + hour * 3600 + minute * 60 + second - offset) * 1000 + millis
  }

  /** Fields that the parser takes for a time; it checks no month's length. */
  predicate Readable(d: Date, hour: int, minute: int, second: int) {
    1 <= d.month <= 12 && 1 <= d.day <= 31 && hour <= 23 && minute <= 59 && second <= 60
  }

  function Combined(date: Option<Date>, clock: Option<(int, int, int, int)>, offset: int): Option<int> {
    if date.None? || clock.None? then None
    else Instant(date.value, clock.value.0, clock.value.1, clock.value.2, clock.value.3, offset)
  }

  lemma FieldsParse(d: Date, hour: int, minute: int, second: int, fraction: string, z: Zone)
    requires DateDigits(d) && ClockDigits(hour, minute, second, fraction) && ValidZone(z)
    ensures ParseTimestamp(Some(FormatDate(d) + ['T'] + (FormatClock(hour, minute, second, fraction) + FormatZone(z))))
         == if !Readable(d, hour, minute, second) then None
            else Instant(d, hour, minute, second, FractionMillis(fraction), ZoneSeconds(z))
  {
    DateRoundTrip(d);
    ClockRoundTrip(hour, minute, second, fraction);
    PartsParse(FormatDate(d), FormatClock(hour, minute, second, fraction), z);
  }

  /** Any text in the shape of RFC 3339's grammar in upper case, with any digits for its fields and
      any number of fraction digits, is read as the instant its fields denote when they are in
      range, leap seconds included, and rejected otherwise. */
  lemma FieldsRoundTrip(d: Date, hour: int, minute: int, second: int, fraction: string, z: Zone)
    requires DateDigits(d) && ClockDigits(hour, minute, second, fraction) && ValidZone(z)
    ensures ParseTimestamp(Some(FormatDate(d) + ['T'] + (FormatClock(hour, minute, second, fraction) + FormatZone(z))))
         == if !Readable(d, hour, minute, second) then None
            else Some(Millis(DayNumber(d), hour, minute, second, FractionMillis(fraction), ZoneSeconds(z)))
  {
    FieldsParse(d, hour, minute, second, fraction, z);
    if Readable(d, hour, minute, second) {
      InRange(d, hour, minute, second, FractionMillis(fraction), ZoneSeconds(z));
    }
  }

  lemma PartsParse(dateText: string, clock: string, z: Zone)
    requires 'T' !in dateText && ValidZone(z)
    ensures ParseTimestamp(Some(dateText + ['T'] + (clock + FormatZone(z))))
         == Combined(ParseDate(dateText), ParseClock(clock), ZoneSeconds(z))
  {
    ZoneRoundTrip(clock, z);
    SplitOnceAt(dateText, 'T', clock + FormatZone(z));
  }

  lemma InRange(d: Date, hour: int, minute: int, second: int, millis: int, offset: int)
    requires 0 <= d.year <= 9999 && Readable(d, hour, minute, second)
    requires 0 <= hour && 0 <= minute && 0 <= second && -400_000 <= offset <= 400_000
    ensures Instant(d, hour, minute, second, millis, offset) ==
              Some(Millis(DayNumber(d), hour, minute, second, millis, offset))
  {
    ClosedForm(d.year, d.month, d.day);
    assert -1_000_000 <= DayNumber(d) <= 4_000_000;
  }

  /** A fraction counts in thousandths: its first digit for a hundred each, the second for ten, the
      third for one, digits that are missing for none, and further ones not at all. */
  lemma FractionDenotes(fraction: string)
    requires forall c :: c in fraction ==> IsDigit(c)
    ensures FractionMillis(fraction) ==
            (if |fraction| > 0 then 100 * (fraction[0] as int - '0' as int) else 0)
            + (if |fraction| > 1 then 10 * (fraction[1] as int - '0' as int) else 0)
            + (if |fraction| > 2 then fraction[2] as int - '0' as int else 0)
  {
    var digits := Padded(fraction)[..3];
    PaddedAt(fraction);
    assert digits[..2][..1] == [digits[0]] && digits[..1][..0] == [] && digits[..2] == [digits[0], digits[1]];
    assert forall c :: c in digits ==> c in Padded(fraction) && IsDigit(c);
    assert DigitsValue(digits[..1]) == digits[0] as int - '0' as int;
    assert DigitsValue(digits[..2]) == 10 * DigitsValue(digits[..1]) + (digits[1] as int - '0' as int);
    assert DigitsValue(digits) == 10 * DigitsValue(digits[..2]) + (digits[2] as int - '0' as int);
    assert digits[0] in digits && IsDigit(digits[0]);
  }

  lemma PaddedAt(fraction: string)
    ensures forall i :: 0 <= i < 3 ==> Padded(fraction)[i] == if i < |fraction| then fraction[i] else '0'
    decreases 3 - |fraction|
  {
    if |fraction| < 3 { PaddedAt(fraction + "0"); }
  }

  lemma FractionOf(millis: int)
    requires 0 <= millis <= 999
    ensures FractionMillis(ThreeDigits(millis)) == millis
    ensures forall c :: c in ThreeDigits(millis) ==> IsDigit(c)
  {
    ThreeNumeral(millis);
    ParseThree(millis);
    assert Padded(ThreeDigits(millis))[..3] == ThreeDigits(millis);
  }

  /** Formatting an instant in any zone and reading it back gives the instant. */
  lemma InstantRoundTrip(t: int, z: Zone)
    requires ValidZone(z) && 0 <= LocalDate(t, z).year <= 9999
    ensures ParseTimestamp(Some(Format(t, z))) == Some(t)
  {
    var day, rest := LocalMillis(t, z) / DAY, LocalMillis(t, z) % DAY;
    CountedDate(day);
    SameInstant(t, ZoneSeconds(z), day, rest);
    FractionOf(rest % 1000);
    FieldsRoundTrip(LocalDate(t, z), rest / 3_600_000, rest / 60_000 % 60, rest / 1000 % 60, ThreeDigits(rest % 1000),
                    z);
  }

  lemma SameInstant(t: int, offset: int, day: int, rest: int)
    requires t + offset * 1000 == day * DAY + rest && 0 <= rest < DAY
    ensures 0 <= rest / 3_600_000 <= 23
    ensures Millis(day, rest / 3_600_000, rest / 60_000 % 60, rest / 1000 % 60, rest % 1000, offset) == t
  {
    assert rest / 60_000 == rest / 1000 / 60;
    assert rest / 3_600_000 == rest / 1000 / 3600;
    assert rest == rest / 1000 * 1000 + rest % 1000;
  }

  lemma TwoWritten()
    ensures TwoDigits(1) == "01" && TwoDigits(2) == "02" && TwoDigits(3) == "03" && TwoDigits(4) == "04"
    ensures TwoDigits(5) == "05" && TwoDigits(12) == "12" && TwoDigits(31) == "31" && TwoDigits(23) == "23"
    ensures TwoDigits(59) == "59" && TwoDigits(60) == "60" && TwoDigits(30) == "30"
  {
  }

  lemma DatesWritten()
    ensures FormatDate(Date(1970, 1, 2)) == "1970-01-02" && FormatDate(Date(1969, 12, 31)) == "1969-12-31"
  {
    TwoWritten();
    assert FourDigits(1970) == "1970" && FourDigits(1969) == "1969";
    hide FourDigits, TwoDigits;
  }

  lemma ClocksWritten()
    ensures FormatClock(3, 4, 5, "5") == "03:04:05.5" && FormatClock(23, 59, 60, "") == "23:59:60"
    ensures FormatZone(Zulu) == "Z" && FormatZone(Offset(false, 1, 30)) == "-01:30"
  {
    TwoWritten();
    hide TwoDigits;
  }

  /** The second day of the count, and the last before it. */
  lemma DaysCounted()
    ensures DayNumber(Date(1970, 1, 2)) == 1 && DayNumber(Date(1969, 12, 31)) == -1
  {
    ClosedForm(1970, 1, 2);
    ClosedForm(1969, 12, 31);
  }

  /** A day, three hours, four minutes and 5.5 seconds after the epoch. */
  lemma ReadsFraction()
    ensures ParseTimestamp(Some("1970-01-02" + ['T'] + ("03:04:05.5" + "Z"))) == Some(97_445_500)
  {
    DatesWritten();
    ClocksWritten();
    DaysCounted();
    FractionDenotes("5");
    hide FormatDate, FormatClock, FormatZone, FractionMillis, ParseTimestamp, DayNumber;
    FieldsRoundTrip(Date(1970, 1, 2), 3, 4, 5, "5", Zulu);
  }

  /** A leap second before the epoch in a zone that is an hour and a half behind. */
  lemma ReadsOffset()
    ensures ParseTimestamp(Some("1969-12-31" + ['T'] + ("23:59:60" + "-01:30"))) == Some(5_400_000)
  {
    DatesWritten();
    ClocksWritten();
    DaysCounted();
    FractionDenotes("");
    hide FormatDate, FormatClock, FormatZone, FractionMillis, ParseTimestamp, DayNumber;
    FieldsRoundTrip(Date(1969, 12, 31), 23, 59, 60, "", Offset(false, 1, 30));
  }

  /** Months are not checked against their lengths: day 31 of a shorter month runs over into the next. */
  lemma DayOverflowsMonth(year: int, month: int, day: int)
    requires 1 <= month <= 12 && MonthLength(year, month) < day <= 31
    ensures DaysFromCivil(year, month, day) ==
              DayNumber(Date(if month == 12 then year + 1 else year, if month == 12 then 1 else month + 1,
                             day - MonthLength(year, month)))
  {
    var last := Date(year, month, MonthLength(year, month));
    NextDayNumber(last);
    ClosedForm(year, month, day);
    ClosedForm(year, month, MonthLength(year, month));
    var next := NextDay(last);
    ClosedForm(next.year, next.month, 1);
    ClosedForm(next.year, next.month, day - MonthLength(year, month));
  }
}
