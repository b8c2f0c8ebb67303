/** Which texts are read as timestamps at all, and as which instants. */
module TimestampGrammar {
  import opened Prelude
  import opened Calendar
  import opened Strings
  import opened Timestamps

  // ----- Pieces -----

  predicate Fits64(n: int) { -0x8000_0000_0000_0000 <= n <= 0x7FFF_FFFF_FFFF_FFFF }

  predicate OnlyDigits(s: string) {
    forall c :: c in s ==> '0' <= c <= '9'
  }

  /** Decimal digits, after a sign or none, that denote a 64-bit integer. */
  predicate Denotes(s: string, n: int) {
    var digits := if s != "" && (s[0] == '+' || s[0] == '-') then s[1..] else s;
    && digits != "" && OnlyDigits(digits) && Fits64(n)
    && (n == if s[0] == '-' then -DigitsValue(digits) else DigitsValue(digits))
  }

  lemma ReadsInteger(s: string, n: int)
    ensures ParseInt(s) == Some(n) <==> Denotes(s, n)
  {
    var digits := if s != "" && (s[0] == '+' || s[0] == '-') then s[1..] else s;
    assert OnlyDigits(digits) <==> forall c :: c in digits ==> IsDigit(c);
    assert digits == if s != [] && Sign(s[0]) then s[1..] else s;
  }

  lemma {:induction false} SplitParts(s: string, c: char)
    ensures var r := SplitAll(s, c);
            && c !in r[0]
            && (|r| == 1 ==> s == r[0])
            && (|r| > 1 ==> |r[0]| < |s| && s == r[0] + [c] + s[|r[0]| + 1..] && SplitAll(s[|r[0]| + 1..], c) == r[1..])
  {
    if s != "" && s[0] != c {
      SplitParts(s[1..], c);
      var r := SplitAll(s, c);
      assert s == [s[0]] + s[1..];
      if |r| > 1 { assert s[|r[0]| + 1..] == s[1..][|r[0]|..]; }
    }
  }

  lemma SplitInThree(s: string, c: char, x: string, y: string, z: string)
    ensures SplitAll(s, c) == [x, y, z] <==> c !in x && c !in y && c !in z && s == x + [c] + (y + [c] + z)
  {
    if SplitAll(s, c) == [x, y, z] {
      SplitParts(s, c);
      var rest := s[|x| + 1..];
      SplitParts(rest, c);
      SplitParts(rest[|y| + 1..], c);
    }
    if c !in x && c !in y && c !in z && s == x + [c] + (y + [c] + z) {
      SplitAllAt(x, c, y + [c] + z);
      SplitAllAt(y, c, z);
      NoSplit(z, c);
    }
  }

  // ----- Dates, clocks and zones -----

  /** Three integers with hyphens between them, the month and the day in their ranges. */
  predicate DateParts(s: string, d: Date, y: string, m: string, day: string) {
    && s == y + ['-'] + (m + ['-'] + day) && '-' !in y && '-' !in m && '-' !in day
    && Denotes(y, d.year) && Denotes(m, d.month) && Denotes(day, d.day) && 1 <= d.month <= 12 && 1 <= d.day <= 31
  }

  ghost predicate DateText(s: string, d: Date) {
    exists y, m, day :: DateParts(s, d, y, m, day)
  }

  lemma ReadsDate(s: string, d: Date)
    ensures ParseDate(s) == Some(d) <==> DateText(s, d)
  {
    hide SplitAll, ParseInt, Denotes;
    forall x, n { ReadsInteger(x, n); }
    if ParseDate(s) == Some(d) {
      var r := SplitAll(s, '-');
      assert r == [r[0], r[1], r[2]];
      SplitInThree(s, '-', r[0], r[1], r[2]);
      assert DateParts(s, d, r[0], r[1], r[2]);
    }
    if y, m, day :| DateParts(s, d, y, m, day) { SplitInThree(s, '-', y, m, day); }
  }

  /** An integer of at most 60, then nothing or a point and decimal digits, none included. */
  predicate SecondsParts(s: string, second: int, millis: int, whole: string, fraction: string) {
    && '.' !in whole && (s == whole + ['.'] + fraction || (s == whole && fraction == ""))
    && Denotes(whole, second) && second <= 60 && OnlyDigits(fraction) && millis == FractionMillis(fraction)
  }

  ghost predicate SecondsText(s: string, second: int, millis: int) {
    exists whole, fraction :: SecondsParts(s, second, millis, whole, fraction)
  }

  lemma ReadsSeconds(s: string, second: int, millis: int)
    ensures ParseSeconds(s) == Some((second, millis)) <==> SecondsText(s, second, millis)
  {
    hide SplitOnce, ParseInt, Denotes, Padded;
    forall x, n { ReadsInteger(x, n); }
    forall x ensures OnlyDigits(x) <==> forall c :: c in x ==> IsDigit(c) {}
    if ParseSeconds(s) == Some((second, millis)) {
      if SplitOnce(s, '.').Some? {
        SplitOnceParts(s, '.');
        assert SecondsParts(s, second, millis, SplitOnce(s, '.').value.0, SplitOnce(s, '.').value.1);
      } else {
        Unsplit(s, '.');
        assert SecondsParts(s, second, millis, s, "");
      }
    }
    if whole, fraction :| SecondsParts(s, second, millis, whole, fraction) {
      if s == whole + ['.'] + fraction { SplitOnceAt(whole, '.', fraction); } else { NoSplit(s, '.'); }
    }
  }

  lemma {:induction false} Unsplit(s: string, c: char)
    requires SplitOnce(s, c).None?
    ensures c !in s
  {
    if s != "" {
      Unsplit(s[1..], c);
      assert s == [s[0]] + s[1..];
    }
  }

  /** Hours, minutes and seconds with colons between them; only the upper ends are checked. */
  ghost predicate ClockParts(s: string, hour: int, minute: int, second: int, millis: int,
                             h: string, m: string, sec: string) {
    && s == h + [':'] + (m + [':'] + sec) && ':' !in h && ':' !in m && ':' !in sec
    && Denotes(h, hour) && Denotes(m, minute) && hour <= 23 && minute <= 59 && SecondsText(sec, second, millis)
  }

  ghost predicate ClockText(s: string, hour: int, minute: int, second: int, millis: int) {
    exists h, m, sec :: ClockParts(s, hour, minute, second, millis, h, m, sec)
  }

  lemma ReadsClock(s: string, hour: int, minute: int, second: int, millis: int)
    ensures ParseClock(s) == Some((hour, minute, second, millis)) <==> ClockText(s, hour, minute, second, millis)
  {
    hide SplitAll, ParseInt, Denotes, ParseSeconds, SecondsText;
    forall x, n { ReadsInteger(x, n); }
    forall x { ReadsSeconds(x, second, millis); }
    if ParseClock(s) == Some((hour, minute, second, millis)) {
      var r := SplitAll(s, ':');
      assert r == [r[0], r[1], r[2]];
      SplitInThree(s, ':', r[0], r[1], r[2]);
      assert ClockParts(s, hour, minute, second, millis, r[0], r[1], r[2]);
    }
    if h, m, sec :| ClockParts(s, hour, minute, second, millis, h, m, sec) {
      SplitInThree(s, ':', h, m, sec);
    }
  }

  /** 'Z', or a sign and digits for hours and minutes with a colon between them. */
  predicate OffsetParts(time: string, clock: string, offset: int, sign: char, h: string, m: string, hours: int,
                        minutes: int) {
    && time == clock + [sign] + (h + [':'] + m) && (sign == '+' || sign == '-')
    && h != "" && OnlyDigits(h) && m != "" && OnlyDigits(m)
    && hours == DigitsValue(h) && minutes == DigitsValue(m)
    && Fits64(hours * 3600) && Fits64(minutes * 60)
    && (offset == if sign == '+' then hours * 3600 + minutes * 60 else -(hours * 3600 + minutes * 60))
  }

  ghost predicate ZoneText(time: string, clock: string, offset: int) {
    || (time == clock + "Z" && offset == 0)
    || (exists sign, h, m, hours, minutes :: OffsetParts(time, clock, offset, sign, h, m, hours, minutes))
  }

  lemma {:induction false} LastSignIs(s: string)
    ensures LastSign(s).None? ==> forall i :: 0 <= i < |s| ==> !Sign(s[i])
    ensures LastSign(s).Some? ==> Sign(s[LastSign(s).value])
                                  && forall i :: LastSign(s).value < i < |s| ==> !Sign(s[i])
    decreases |s|
  {
    if s != "" && !Sign(s[|s| - 1]) { LastSignIs(s[..|s| - 1]); }
  }

  /** A text without a sign that denotes an integer is all digits. */
  lemma UnsignedDenotes(s: string, n: int)
    requires forall i :: 0 <= i < |s| ==> !Sign(s[i])
    ensures Denotes(s, n) <==> s != "" && OnlyDigits(s) && Fits64(n) && n == DigitsValue(s)
  {
  }

  lemma ReadsOffset(time: string, clock: string, offset: int)
    requires time == "" || time[|time| - 1] != 'Z'
    ensures ParseZone(time) == Some((clock, offset)) <==>
            exists sign, h, m, hours, minutes :: OffsetParts(time, clock, offset, sign, h, m, hours, minutes)
  {
    if ParseZone(time) == Some((clock, offset)) {
      LastSignIs(time);
      var i := LastSign(time).value;
      var rest := time[i + 1..];
      var (h, m) := SplitOnce(rest, ':').value;
      SplitOnceParts(rest, ':');
      assert time == time[..i] + [time[i]] + rest;
      var hours, minutes := ParseInt(h).value, ParseInt(m).value;
      NoSignIn(time, i, h, m);
      ReadsInteger(h, hours);
      ReadsInteger(m, minutes);
      UnsignedDenotes(h, hours);
      UnsignedDenotes(m, minutes);
      assert OffsetParts(time, clock, offset, time[i], h, m, hours, minutes);
    }
    if sign, h, m, hours, minutes :| OffsetParts(time, clock, offset, sign, h, m, hours, minutes) {
      OffsetIsRead(time, clock, offset, sign, h, m, hours, minutes);
    }
  }

  lemma NoSignIn(time: string, i: nat, h: string, m: string)
    requires i < |time| && time[i + 1..] == h + [':'] + m && forall k :: i < k < |time| ==> !Sign(time[k])
    ensures (forall k :: 0 <= k < |h| ==> !Sign(h[k])) && (forall k :: 0 <= k < |m| ==> !Sign(m[k]))
  {
    forall k | 0 <= k < |h| ensures !Sign(h[k]) { assert time[i + 1 + k] == time[i + 1..][k] == h[k]; }
    forall k | 0 <= k < |m| ensures !Sign(m[k]) {
      assert time[i + 1 + (|h| + 1 + k)] == time[i + 1..][|h| + 1 + k] == m[k];
    }
  }

  lemma OffsetIsRead(time: string, clock: string, offset: int, sign: char, h: string, m: string, hours: int,
                     minutes: int)
    requires OffsetParts(time, clock, offset, sign, h, m, hours, minutes)
    ensures ParseZone(time) == Some((clock, offset))
  {
    DigitsRead(h, hours);
    DigitsRead(m, minutes);
    assert forall c :: c in h + [':'] + m ==> !Sign(c) && c != 'Z';
    hide ParseInt, SplitOnce, LastSign, OnlyDigits, DigitsValue;
    SignPosition(clock, sign, h + [':'] + m);
    SplitOnceAt(h, ':', m);
  }

  lemma DigitsRead(s: string, n: int)
    requires s != "" && OnlyDigits(s) && n == DigitsValue(s) && (Fits64(n * 3600) || Fits64(n * 60))
    ensures ParseInt(s) == Some(n) && ':' !in s
  {
    NonNegative(s);
    assert s[0] in s && !Sign(s[0]);
    ReadsInteger(s, n);
  }

  lemma {:induction false} NonNegative(s: string)
    requires OnlyDigits(s)
    ensures (forall c :: c in s ==> IsDigit(c)) && DigitsValue(s) >= 0
    decreases |s|
  {
    if s != "" {
      var front, last := s[..|s| - 1], s[|s| - 1];
      assert s == front + [last] && last in s;
      forall c | c in front ensures '0' <= c <= '9' { assert c in s; }
      NonNegative(front);
    }
  }

  lemma EndsInDigit(time: string, clock: string, offset: int, sign: char, h: string, m: string, hours: int,
                    minutes: int)
    requires OffsetParts(time, clock, offset, sign, h, m, hours, minutes)
    ensures time != "" && '0' <= time[|time| - 1] <= '9'
  {
    assert time[|time| - 1] == m[|m| - 1] && m[|m| - 1] in m;
  }

  lemma ReadsZone(time: string, clock: string, offset: int)
    ensures ParseZone(time) == Some((clock, offset)) <==> ZoneText(time, clock, offset)
  {
    forall sign, h, m, hours, minutes | OffsetParts(time, clock, offset, sign, h, m, hours, minutes)
      ensures time != "" && time[|time| - 1] != 'Z'
    {
      EndsInDigit(time, clock, offset, sign, h, m, hours, minutes);
    }
    if time != "" && time[|time| - 1] == 'Z' {
      assert time == time[..|time| - 1] + "Z";
      if time == clock + "Z" { assert time[..|time| - 1] == clock; }
    } else {
      ReadsOffset(time, clock, offset);
    }
  }

  // ----- Whole timestamps -----

  /** A date, 'T', a clock and a zone, the sums within 64 bits. */
  ghost predicate TimestampParts(s: string, t: int, date: string, clock: string, zone: string, d: Date, hour: int,
                                 minute: int, second: int, millis: int, offset: int) {
    && s == date + ['T'] + zone && 'T' !in date && DateText(date, d)
    && ZoneText(zone, clock, offset) && ClockText(clock, hour, minute, second, millis)
    && Fits64(DayNumber(d) * 86400) && Fits64(hour * 3600) && Fits64(minute * 60)
    && Fits64((DayNumber(d) * 86400 + hour * 3600 + minute * 60 + second - offset) * 1000)
    && t == (DayNumber(d) * 86400 + hour * 3600 + minute * 60 + second - offset) * 1000 + millis
  }

  /** A string is read as an instant exactly when it has such parts; anything else is rejected. */
  lemma ReadsExactly(s: string, t: int)
    ensures ParseTimestamp(Some(s)) == Some(t) <==>
            exists date, clock, zone, d, hour, minute, second, millis, offset ::
              TimestampParts(s, t, date, clock, zone, d, hour, minute, second, millis, offset)
    ensures ParseTimestamp(None) == None
  {
    hide SplitOnce, ParseDate, ParseZone, ParseClock, DateText, ZoneText, ClockText, DayNumber;
    if ParseTimestamp(Some(s)) == Some(t) {
      SplitOnceParts(s, 'T');
      var (date, zone) := SplitOnce(s, 'T').value;
      var d := ParseDate(date).value;
      var (clock, offset) := ParseZone(zone).value;
      var (hour, minute, second, millis) := ParseClock(clock).value;
      ReadsDate(date, d);
      ReadsZone(zone, clock, offset);
      ReadsClock(clock, hour, minute, second, millis);
      assert TimestampParts(s, t, date, clock, zone, d, hour, minute, second, millis, offset);
    }
    if date, clock, zone, d, hour, minute, second, millis, offset :|
      TimestampParts(s, t, date, clock, zone, d, hour, minute, second, millis, offset)
    {
      SplitOnceAt(date, 'T', zone);
      ReadsDate(date, d);
      ReadsZone(zone, clock, offset);
      ReadsClock(clock, hour, minute, second, millis);
    }
  }
}
