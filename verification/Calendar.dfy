/**
 The UTC calendar behind the timestamps: seconds into date and time of day, and the nineteen
 characters that write them.
 */
module Calendar {
  import opened TextOrder
  import opened Timestamps

  predicate Leap(y: nat) {
    y % 4 == 0 && (y % 100 != 0 || y % 400 == 0)
  }

  function YearLength(y: nat): nat {
    if Leap(y) then 366 else 365
  }

  function DaysBeforeYear(y: nat): nat {
    if y == 0 then 0 else DaysBeforeYear(y - 1) + YearLength(y - 1)
  }

  lemma QuarterStep(y: nat)
    ensures (y + 4) / 4 - (y + 3) / 4 == (if y % 4 == 0 then 1 else 0)
  {
  }

  lemma CenturyStep(y: nat)
    ensures (y + 100) / 100 - (y + 99) / 100 == (if y % 100 == 0 then 1 else 0)
  {
  }

  lemma CenturiesAreQuarters(y: nat)
    ensures y % 100 == 0 ==> y % 4 == 0
  {
    if y % 100 == 0 {
      FourDivides(25 * (y / 100));
      assert y == 4 * (25 * (y / 100));
    }
  }

  lemma FourDivides(n: nat)
    ensures 4 * n % 4 == 0
  {
  }

  lemma CycleStep(y: nat)
    ensures (y + 400) / 400 - (y + 399) / 400 == (if y % 400 == 0 then 1 else 0)
    ensures y % 400 == 0 ==> y % 100 == 0
  {
    var q, r := y / 400, y % 400;
    assert y == 400 * q + r && r < 400;
    if r == 0 {
      assert y == 100 * (4 * q);
    }
  }

  /** The Gregorian count of leap days, in closed form. */
  lemma {:induction false} GregorianDays(y: nat)
    ensures DaysBeforeYear(y) == 365 * y + (y + 3) / 4 - (y + 99) / 100 + (y + 399) / 400
  {
    if y > 0 {
      GregorianDays(y - 1);
      QuarterStep(y - 1);
      CenturyStep(y - 1);
      CenturiesAreQuarters(y - 1);
      CycleStep(y - 1);
    }
  }

  function MonthLength(y: nat, m: nat): nat
    requires 1 <= m <= 12
  {
    if m == 2 then (if Leap(y) then 29 else 28)
    else if m == 4 || m == 6 || m == 9 || m == 11 then 30
    else 31
  }

  function DaysBeforeMonth(y: nat, m: nat): nat
    requires 1 <= m <= 13
  {
    if m == 1 then 0 else DaysBeforeMonth(y, m - 1) + MonthLength(y, m - 1)
  }

  lemma MonthsFillTheYear(y: nat)
    ensures DaysBeforeMonth(y, 13) == YearLength(y)
  {
    var feb := if Leap(y) then 29 else 28;
    assert DaysBeforeMonth(y, 1) == 0 && DaysBeforeMonth(y, 2) == 31;
    assert DaysBeforeMonth(y, 3) == 31 + feb;
    assert DaysBeforeMonth(y, 5) == 92 + feb;
    assert DaysBeforeMonth(y, 7) == 153 + feb;
    assert DaysBeforeMonth(y, 9) == 215 + feb;
    assert DaysBeforeMonth(y, 11) == 276 + feb;
  }

  /** The days before a month in closed form: from March on, five months of 153 days over and over. */
  lemma MonthsInClosedForm(y: nat, m: nat)
    requires 1 <= m <= 13
    ensures DaysBeforeMonth(y, m) ==
              if m <= 2 then 31 * (m - 1) else 59 + (if Leap(y) then 1 else 0) + (153 * (m - 3) + 2) / 5
  {
    if m > 1 {
      MonthsInClosedForm(y, m - 1);
      hide Leap;
    }
  }

  /** The year, from `y` on, that holds day `d`. */
  function YearFrom(d: nat, y: nat): (r: nat)
    requires DaysBeforeYear(y) <= d
    ensures DaysBeforeYear(r) <= d < DaysBeforeYear(r + 1)
    decreases d - DaysBeforeYear(y)
  {
    if d < DaysBeforeYear(y + 1) then y else YearFrom(d, y + 1)
  }

  /** The month, from `m` on, that holds day `d` of year `y`. */
  function MonthFrom(y: nat, d: nat, m: nat): (r: nat)
    requires 1 <= m <= 12 && DaysBeforeMonth(y, m) <= d < YearLength(y)
    ensures 1 <= r <= 12 && DaysBeforeMonth(y, r) <= d < DaysBeforeMonth(y, r + 1)
    decreases 12 - m
  {
    if d < DaysBeforeMonth(y, m + 1) then m
    else MonthsFillTheYear(y); MonthFrom(y, d, m + 1)
  }

  lemma YearsGrow(y: nat, z: nat)
    requires y < z
    ensures DaysBeforeYear(y + 1) <= DaysBeforeYear(z)
    decreases z
  {
    if y + 1 < z { YearsGrow(y, z - 1); }
  }

  lemma MonthsGrow(y: nat, m: nat, k: nat)
    requires 1 <= m < k <= 13
    ensures DaysBeforeMonth(y, m + 1) <= DaysBeforeMonth(y, k)
    decreases k
  {
    if m + 1 < k { MonthsGrow(y, m, k - 1); }
  }

  /** Calendar date and time of day of a second, as the fields a timestamp writes. */
  datatype Civil = Civil(year: nat, month: nat, day: nat, hour: nat, minute: nat, second: nat)

  function CivilOf(sec: nat): (c: Civil)
    ensures 1 <= c.month <= 12 && c.day < MonthLength(c.year, c.month)
    ensures sec / DAY_SECONDS == DaysBeforeYear(c.year) + DaysBeforeMonth(c.year, c.month) + c.day
    ensures sec % DAY_SECONDS == c.hour * 3600 + c.minute * 60 + c.second
    ensures c.hour < 24 && c.minute < 60 && c.second < 60
    ensures DaysBeforeYear(c.year) <= sec / DAY_SECONDS < DaysBeforeYear(c.year + 1)
  {
    var d, r := sec / DAY_SECONDS, sec % DAY_SECONDS;
    var y := YearFrom(d, 0);
    var dy := d - DaysBeforeYear(y);
    var m := MonthFrom(y, dy, 1);
    Civil(y, m, dy - DaysBeforeMonth(y, m), r / 3600, r / 60 % 60, r % 60)
  }

  /** The fields of a date that exists and a time of day; days of the month count from 0 here. */
  predicate Proper(c: Civil) {
    && 1 <= c.month <= 12 && c.day < MonthLength(c.year, c.month)
    && c.hour < 24 && c.minute < 60 && c.second < 60
  }

  /** The second that a date and time of day stand for. */
  function SecondsOf(c: Civil): nat
    requires Proper(c)
  {
    (DaysBeforeYear(c.year) + DaysBeforeMonth(c.year, c.month) + c.day) * DAY_SECONDS
    + c.hour * 3600 + c.minute * 60 + c.second
  }

  lemma DayAndTime(day: nat, time: nat)
    requires time < DAY_SECONDS
    ensures (day * DAY_SECONDS + time) / DAY_SECONDS == day && (day * DAY_SECONDS + time) % DAY_SECONDS == time
  {
  }

  lemma SameDate(a: Civil, b: Civil)
    requires Proper(a) && Proper(b)
    requires DaysBeforeYear(a.year) + DaysBeforeMonth(a.year, a.month) + a.day
             == DaysBeforeYear(b.year) + DaysBeforeMonth(b.year, b.month) + b.day
    ensures a.year == b.year && a.month == b.month && a.day == b.day
  {
    hide DaysBeforeYear, YearLength;
    WithinTheYear(a);
    WithinTheYear(b);
    if a.year < b.year { YearsGrow(a.year, b.year); }
    if b.year < a.year { YearsGrow(b.year, a.year); }
    if a.month < b.month { MonthsGrow(a.year, a.month, b.month); }
    if b.month < a.month { MonthsGrow(a.year, b.month, a.month); }
  }

  lemma WithinTheYear(c: Civil)
    requires Proper(c)
    ensures DaysBeforeMonth(c.year, c.month) + c.day < YearLength(c.year)
    ensures DaysBeforeYear(c.year + 1) == DaysBeforeYear(c.year) + YearLength(c.year)
  {
    MonthsFillTheYear(c.year);
    if c.month < 12 { MonthsGrow(c.year, c.month, 13); }
  }

  lemma SameTime(a: Civil, b: Civil)
    requires a.minute < 60 && a.second < 60 && b.minute < 60 && b.second < 60
    requires a.hour * 3600 + a.minute * 60 + a.second == b.hour * 3600 + b.minute * 60 + b.second
    ensures a.hour == b.hour && a.minute == b.minute && a.second == b.second
  {
  }

  lemma ReadingIs(c: Civil, sec: nat)
    requires Proper(c)
    requires sec / DAY_SECONDS == DaysBeforeYear(c.year) + DaysBeforeMonth(c.year, c.month) + c.day
    requires sec % DAY_SECONDS == c.hour * 3600 + c.minute * 60 + c.second
    ensures CivilOf(sec) == c
  {
    hide CivilOf, DaysBeforeYear, DaysBeforeMonth;
    SameDate(c, CivilOf(sec));
    SameTime(c, CivilOf(sec));
  }

  /** Every date and time of day is the reading of the second it stands for. */
  lemma CivilRoundTrip(c: Civil)
    requires Proper(c)
    ensures CivilOf(SecondsOf(c)) == c
  {
    hide CivilOf, DaysBeforeYear, DaysBeforeMonth;
    DayAndTime(DaysBeforeYear(c.year) + DaysBeforeMonth(c.year, c.month) + c.day,
               c.hour * 3600 + c.minute * 60 + c.second);
    ReadingIs(c, SecondsOf(c));
  }

  /** The day after a date, by the months of the calendar. */
  function DayAfter(c: Civil): (r: Civil)
    requires Proper(c)
    ensures Proper(r)
  {
    if c.day + 1 < MonthLength(c.year, c.month) then c.(day := c.day + 1)
    else if c.month < 12 then c.(month := c.month + 1, day := 0)
    else c.(year := c.year + 1, month := 1, day := 0)
  }

  /** A day later the reading is the next date of the calendar. */
  lemma NextDay(sec: nat)
    ensures CivilOf(sec + DAY_SECONDS) == DayAfter(CivilOf(sec))
  {
    hide CivilOf, DaysBeforeYear, DaysBeforeMonth, DayAfter;
    var c := CivilOf(sec);
    DayAfterCounts(c);
    NextDayOf(sec);
    ReadingIs(DayAfter(c), sec + DAY_SECONDS);
  }

  lemma NextDayOf(sec: nat)
    ensures (sec + DAY_SECONDS) / DAY_SECONDS == sec / DAY_SECONDS + 1
    ensures (sec + DAY_SECONDS) % DAY_SECONDS == sec % DAY_SECONDS
  {
  }

  lemma DayAfterCounts(c: Civil)
    requires Proper(c)
    ensures var d := DayAfter(c);
            && DaysBeforeYear(d.year) + DaysBeforeMonth(d.year, d.month) + d.day
               == DaysBeforeYear(c.year) + DaysBeforeMonth(c.year, c.month) + c.day + 1
            && d.hour == c.hour && d.minute == c.minute && d.second == c.second
  {
    MonthsFillTheYear(c.year);
  }

  lemma StartOfYear(y: nat)
    ensures CivilOf((365 * y + (y + 3) / 4 - (y + 99) / 100 + (y + 399) / 400) * DAY_SECONDS) == Civil(y, 1, 0, 0, 0, 0)
  {
    GregorianDays(y);
    hide DaysBeforeYear, CivilOf;
    CivilRoundTrip(Civil(y, 1, 0, 0, 0, 0));
  }

  /** The clock's epoch is midnight of 1 January 1970. */
  lemma Epoch()
    ensures CivilOf(EPOCH_SECONDS) == Civil(1970, 1, 0, 0, 0, 0)
  {
    hide CivilOf, MonthLength, DaysBeforeMonth, DaysBeforeYear;
    StartOfYear(1970);
  }

  // ---------------------------------------------------------------- the text

  function DateText(c: Civil): (s: string)
    ensures |s| == 10
  {
    Pad(c.year, 4) + ("-" + (Pad(c.month, 2) + ("-" + Pad(c.day + 1, 2))))
  }

  function TimeText(c: Civil): (s: string)
    ensures |s| == 8
  {
    Pad(c.hour, 2) + (":" + (Pad(c.minute, 2) + (":" + Pad(c.second, 2))))
  }

  /** Date and time of day to the second: nineteen characters in the four-digit years. */
  function Stamp(sec: nat): (s: string)
    ensures |s| == 19
  {
    DateText(CivilOf(sec)) + ("T" + TimeText(CivilOf(sec)))
  }

  /** The field of a timestamp from `i` to `j`, as a number. */
  predicate FieldReads(s: string, i: nat, j: nat, n: nat) {
    i <= j <= |s| && Digits(s[i..j]) && NumberIn(s[i..j]) == n
  }

  /** The three fields of a text, apart from the separators between them. */
  lemma ThreeFields(a: string, b: string, c: string, sep: string)
    requires |sep| == 1
    ensures var s, i, j := a + (sep + (b + (sep + c))), |a|, |a| + 1 + |b|;
            && s[..i] == a && s[i] == sep[0] && s[i + 1..j] == b && s[j] == sep[0] && s[j + 1..] == c
  {
  }

  lemma YearReads(n: nat)
    requires n < 10_000
    ensures Digits(Pad(n, 4)) && NumberIn(Pad(n, 4)) == n
  {
    Pow10Values();
    hide Pad, NumberIn, Pow10;
    PadReads(n, 4);
  }

  lemma PairReads(n: nat)
    requires n < 100
    ensures Digits(Pad(n, 2)) && NumberIn(Pad(n, 2)) == n
  {
    Pow10Values();
    hide Pad, NumberIn, Pow10;
    PadReads(n, 2);
  }

  lemma DateReads(c: Civil)
    requires c.year < 10_000 && c.month < 100 && c.day < 99
    ensures var s := DateText(c);
            && FieldReads(s, 0, 4, c.year) && FieldReads(s, 5, 7, c.month) && FieldReads(s, 8, 10, c.day + 1)
            && s[4] == '-' && s[7] == '-'
  {
    hide Pad, NumberIn, Digits;
    YearReads(c.year);
    PairReads(c.month);
    PairReads(c.day + 1);
    ThreeFields(Pad(c.year, 4), Pad(c.month, 2), Pad(c.day + 1, 2), "-");
    var s := DateText(c);
    assert s[0..4] == s[..4] && s[8..10] == s[8..];
  }

  lemma TimeReads(c: Civil)
    requires c.hour < 24 && c.minute < 60 && c.second < 60
    ensures var s := TimeText(c);
            && FieldReads(s, 0, 2, c.hour) && FieldReads(s, 3, 5, c.minute) && FieldReads(s, 6, 8, c.second)
            && s[2] == ':' && s[5] == ':'
  {
    hide Pad, NumberIn, Digits;
    PairReads(c.hour);
    PairReads(c.minute);
    PairReads(c.second);
    ThreeFields(Pad(c.hour, 2), Pad(c.minute, 2), Pad(c.second, 2), ":");
    var s := TimeText(c);
    assert s[0..2] == s[..2] && s[6..8] == s[6..];
  }

  /** In a four-digit year the fields of the text read back as the date, days counted from 1, and the time of day. */
  lemma StampReads(sec: nat)
    requires sec < END_SECONDS
    ensures var s, c := Stamp(sec), CivilOf(sec);
            && s[..10] == DateText(c) && s[10] == 'T' && s[11..] == TimeText(c)
            && FieldReads(s[..10], 0, 4, c.year) && FieldReads(s[..10], 5, 7, c.month)
            && FieldReads(s[..10], 8, 10, c.day + 1)
            && FieldReads(s[11..], 0, 2, c.hour) && FieldReads(s[11..], 3, 5, c.minute)
            && FieldReads(s[11..], 6, 8, c.second)
            && s[4] == '-' && s[7] == '-' && s[13] == ':' && s[16] == ':'
  {
    hide CivilOf, DateText, TimeText, FieldReads;
    DayBounds(sec);
    DateReads(CivilOf(sec));
    TimeReads(CivilOf(sec));
    var s, c := Stamp(sec), CivilOf(sec);
    assert s[..10] == DateText(c) && s[11..] == TimeText(c);
  }

  /** A row text: the nineteen characters of its second, the fraction unless it is zero, and a 'Z'. */
  lemma RowReads(t: nat)
    ensures var s := Rfc3339(Stamp).row(t);
            && |s| >= 20 && s[..19] == Stamp(t / 1_000_000_000) && s[|s| - 1] == 'Z'
            && (t % 1_000_000_000 == 0 <==> |s| == 20)
            && (t % 1_000_000_000 != 0 ==>
                  && 22 <= |s| <= 30 && s[19] == '.' && s[|s| - 2] != '0'
                  && Digits(s[20..|s| - 1]) && NumberIn(s[20..|s| - 1]) * Pow10(30 - |s|) == t % 1_000_000_000)
  {
    FractionReads(t);
    hide Stamp, FractionDigits, NumberIn, Pow10;
    var s, d := Rfc3339(Stamp).row(t), FractionDigits(t);
    assert s[..19] == Stamp(t / 1_000_000_000);
    if t % 1_000_000_000 != 0 {
      assert s[20..|s| - 1] == d;
    }
  }

  /** A cutoff text: the second and a 'Z', the fraction dropped. */
  lemma CutoffReads(t: nat)
    ensures var s := Rfc3339(Stamp).cutoff(t);
            |s| == 20 && s[..19] == Stamp(t / 1_000_000_000) && s[19] == 'Z'
  {
    hide Stamp;
  }

  lemma TwoDigits()
    ensures Pad(0, 2) == "00" && Pad(1, 2) == "01"
  {
  }

  lemma FourDigits()
    ensures Pad(1970, 4) == "1970"
  {
    assert Pad(19, 2) == "19";
    assert Pad(197, 3) == "197";
  }

  /** The epoch is written as it should be. */
  lemma EpochText()
    ensures Stamp(EPOCH_SECONDS) == "1970-01-01T00:00:00"
  {
    Epoch();
    TwoDigits();
    FourDigits();
    hide CivilOf, Pad;
  }

  // ---------------------------------------------------------------- order of whole seconds

  /** The two fields on either side of a separator are compared in turn. */
  lemma FieldOrder(n: nat, m: nat, w: nat, sep: string, s: string, t: string)
    requires n < Pow10(w) && m < Pow10(w)
    ensures Less(Pad(n, w) + (sep + s), Pad(m, w) + (sep + t)) <==> n < m || (n == m && Less(s, t))
  {
    PadOrder(n, m, w);
    LessConcat(Pad(n, w), Pad(m, w), sep + s, sep + t);
    LessConcat(sep, sep, s, t);
    LessIsStrict(sep, sep);
  }

  lemma TimeOrder(a: Civil, b: Civil)
    requires a.hour < 24 && a.minute < 60 && a.second < 60
    requires b.hour < 24 && b.minute < 60 && b.second < 60
    ensures Less(TimeText(a), TimeText(b)) <==>
            a.hour * 3600 + a.minute * 60 + a.second < b.hour * 3600 + b.minute * 60 + b.second
  {
    Pow10Values();
    hide Less, Pad, Pow10;
    FieldOrder(a.hour, b.hour, 2, ":", Pad(a.minute, 2) + (":" + Pad(a.second, 2)),
               Pad(b.minute, 2) + (":" + Pad(b.second, 2)));
    FieldOrder(a.minute, b.minute, 2, ":", Pad(a.second, 2), Pad(b.second, 2));
    PadOrder(a.second, b.second, 2);
  }

  /** A second before the start of year `end` is read in an earlier year. */
  lemma YearBound(sec: nat, end: nat)
    requires sec / DAY_SECONDS < 365 * end + (end + 3) / 4 - (end + 99) / 100 + (end + 399) / 400
    ensures CivilOf(sec).year < end && CivilOf(sec).day < 31
  {
    GregorianDays(end);
    assert DaysBeforeYear(end) <= DaysBeforeYear(end + 1);
    hide DaysBeforeYear, CivilOf;
    var y := CivilOf(sec).year;
    if y > end {
      YearsGrow(end, y);
    }
  }

  lemma DayBounds(sec: nat)
    requires sec < END_SECONDS
    ensures CivilOf(sec).year < 10_000 && CivilOf(sec).day < 31
  {
    hide CivilOf;
    YearBound(sec, 10_000);
  }

  /** Year, month and day decide the date text, in that order. */
  lemma DateFieldOrder(a: Civil, b: Civil)
    requires a.year < 10_000 && a.month < 100 && a.day < 99
    requires b.year < 10_000 && b.month < 100 && b.day < 99
    ensures Less(DateText(a), DateText(b)) <==>
            a.year < b.year || (a.year == b.year && (a.month < b.month || (a.month == b.month && a.day < b.day)))
  {
    Pow10Values();
    hide Less, Pad, Pow10;
    FieldOrder(a.year, b.year, 4, "-", Pad(a.month, 2) + ("-" + Pad(a.day + 1, 2)),
               Pad(b.month, 2) + ("-" + Pad(b.day + 1, 2)));
    FieldOrder(a.month, b.month, 2, "-", Pad(a.day + 1, 2), Pad(b.day + 1, 2));
    PadOrder(a.day + 1, b.day + 1, 2);
  }

  lemma DateOrder(s: nat, t: nat)
    requires s < END_SECONDS && t < END_SECONDS
    requires s / DAY_SECONDS < t / DAY_SECONDS
    ensures Less(DateText(CivilOf(s)), DateText(CivilOf(t)))
  {
    var a, b := CivilOf(s), CivilOf(t);
    DayBounds(s);
    DayBounds(t);
    DateFieldOrder(a, b);
    if b.year < a.year {
      YearsGrow(b.year, a.year);
    } else if a.year == b.year && b.month < a.month {
      MonthsGrow(a.year, b.month, a.month);
    }
  }

  lemma StampLess(s: nat, t: nat)
    requires s < t < END_SECONDS
    ensures Less(Stamp(s), Stamp(t))
  {
    var a, b := CivilOf(s), CivilOf(t);
    LessConcat(DateText(a), DateText(b), "T" + TimeText(a), "T" + TimeText(b));
    LessConcat("T", "T", TimeText(a), TimeText(b));
    if s / DAY_SECONDS < t / DAY_SECONDS {
      DateOrder(s, t);
    } else {
      SameDay(s, t);
      TimeOrder(a, b);
    }
  }

  lemma SameDay(s: nat, t: nat)
    requires s / DAY_SECONDS == t / DAY_SECONDS
    ensures DateText(CivilOf(s)) == DateText(CivilOf(t))
  {
    hide YearFrom, MonthFrom, DaysBeforeYear, DaysBeforeMonth, MonthLength, Pad;
  }

  /** Whole-second text is ordered as the seconds are: equal widths, RFC 3339 section 5.1. */
  lemma StampOrder(s: nat, t: nat)
    requires s < END_SECONDS && t < END_SECONDS
    ensures Less(Stamp(s), Stamp(t)) <==> s < t
    ensures Stamp(s) == Stamp(t) <==> s == t
  {
    LessIsStrict(Stamp(s), Stamp(t));
    if s < t { StampLess(s, t); }
    if t < s { StampLess(t, s); }
  }

  /** The timestamps of the code: RFC 3339 over this calendar compares as the broker's proofs need. */
  lemma UtcIsFaithful()
    ensures Faithful(Rfc3339(Stamp))
  {
    forall s: nat, t: nat | s < END_SECONDS && t < END_SECONDS
      ensures (Less(Stamp(s), Stamp(t)) <==> s < t) && (Stamp(s) == Stamp(t) <==> s == t)
    {
      StampOrder(s, t);
    }
    Rfc3339IsFaithful(Stamp);
  }
}
