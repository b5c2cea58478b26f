/**
 * The `since` argument of download-data.py: `datetime.strptime(since,
 * '%Y-%m-%d')` and the `isoformat()` of the resulting midnight datetime.
 * `%Y` takes exactly four digits, `%m` one or two digits naming a month,
 * and `%d` one or two digits naming a day or a space followed by one
 * digit; the whole text must be consumed, and the fields must name a day
 * of the proleptic Gregorian calendar between the years 1 and 9999.
 */
module SinceDate {
  import opened Wrappers
  import opened Decimal
  import opened Text

  datatype Date = Date(year: nat, month: nat, day: nat)

  predicate IsLeapYear(y: nat)
  {
    y % 4 == 0 && (y % 100 != 0 || y % 400 == 0)
  }

  function DaysInMonth(y: nat, m: nat): nat
    requires 1 <= m <= 12
  {
    if m == 2 then (if IsLeapYear(y) then 29 else 28)
    else if m == 4 || m == 6 || m == 9 || m == 11 then 30
    else 31
  }

  /** The dates `datetime` can represent. */
  predicate ValidDate(d: Date)
  {
    1 <= d.year <= 9999 && 1 <= d.month <= 12 && 1 <= d.day <= DaysInMonth(d.year, d.month)
  }

  /** The text `%Y` matches: four decimal digits. */
  predicate YearField(s: string)
  {
    |s| == 4 && AllDigits(s)
  }

  /** The text `%m` matches: `1[0-2]`, `0[1-9]` or `[1-9]`. */
  predicate MonthField(s: string)
  {
    1 <= |s| <= 2 && AllDigits(s) && 1 <= StringToNat(s) <= 12
  }

  /** The text `%d` matches: `3[01]`, `[12][0-9]`, `0[1-9]`, `[1-9]` or a space and `[1-9]`. */
  predicate DayField(s: string)
  {
    (1 <= |s| <= 2 && AllDigits(s) && 1 <= StringToNat(s) <= 31)
    || (|s| == 2 && s[0] == ' ' && IsDigit(s[1]) && s[1] != '0')
  }

  function DayValue(s: string): nat
    requires DayField(s)
  {
    if s[0] == ' ' then DigitValue(s[1]) else StringToNat(s)
  }

  /**
   * `datetime.strptime(s, '%Y-%m-%d')`, or `None` where it raises
   * `ValueError`. The fields contain no `-`, so the text matches the
   * format exactly when its `-`-separated pieces are three matching fields.
   */
  function ParseDate(s: string): (r: Option<Date>)
    ensures r.Some? ==> ValidDate(r.value)
  {
    var p := Split(s, '-');
    if |p| == 3 && YearField(p[0]) && MonthField(p[1]) && DayField(p[2]) then
      var d := Date(StringToNat(p[0]), StringToNat(p[1]), DayValue(p[2]));
      if ValidDate(d) then Some(d) else None
    else None
  }

  function Pow10(w: nat): nat
  {
    if w == 0 then 1 else 10 * Pow10(w - 1)
  }

  /** The `w` lowest decimal digits of `n`, zero-padded: `'%0*d' % (w, n)` for `n < 10^w`. */
  function Padded(n: nat, w: nat): (s: string)
    ensures |s| == w && AllDigits(s)
  {
    if w == 0 then "" else Padded(n / 10, w - 1) + [Digit(n % 10)]
  }

  lemma {:induction false} PaddedValue(n: nat, w: nat)
    requires n < Pow10(w)
    ensures StringToNat(Padded(n, w)) == n
  {
    if w > 0 {
      var s := Padded(n, w);
      assert s[..|s| - 1] == Padded(n / 10, w - 1);
      PaddedValue(n / 10, w - 1);
    }
  }

  lemma {:induction false} PaddedOfValue(s: string)
    requires AllDigits(s)
    ensures Padded(StringToNat(s), |s|) == s
  {
    if s != [] {
      var init := s[..|s| - 1];
      assert AllDigits(init);
      PaddedOfValue(init);
      var n := StringToNat(s);
      assert n / 10 == StringToNat(init) && n % 10 == DigitValue(s[|s| - 1]);
      assert s == init + [s[|s| - 1]];
    }
  }

  /** `date.isoformat()`: `YYYY-MM-DD`, every field zero-padded. */
  function DateText(d: Date): string
  {
    Padded(d.year, 4) + "-" + Padded(d.month, 2) + "-" + Padded(d.day, 2)
  }

  /** `datetime.isoformat()` for the midnight `strptime` returns. */
  function IsoFormat(d: Date): string
  {
    DateText(d) + "T00:00:00"
  }

  lemma DashFree(s: string)
    requires AllDigits(s)
    ensures '-' !in s
  {
  }

  lemma SplitDate(s: string, y: string, m: string, d: string)
    requires '-' !in y && '-' !in m && '-' !in d
    requires s == y + "-" + m + "-" + d
    ensures Split(s, '-') == [y, m, d]
  {
    assert [y, m, d][1..] == [m, d] && [m, d][1..] == [d];
    assert Join([d], '-') == d;
    assert Join([m, d], '-') == m + "-" + d;
    assert Join([y, m, d], '-') == y + "-" + (m + "-" + d);
    assert Join([y, m, d], '-') == s;
    SplitJoin([y, m, d], '-');
  }

  /** Every date `datetime` can represent parses back from its ISO text. */
  lemma ParseDateText(d: Date)
    requires ValidDate(d)
    ensures ParseDate(DateText(d)) == Some(d)
  {
    var y, m, dd := Padded(d.year, 4), Padded(d.month, 2), Padded(d.day, 2);
    DashFree(y);
    DashFree(m);
    DashFree(dd);
    SplitDate(DateText(d), y, m, dd);
    assert d.year < Pow10(4) && d.month < Pow10(2) && d.day < Pow10(2);
    PaddedValue(d.year, 4);
    PaddedValue(d.month, 2);
    PaddedValue(d.day, 2);
    assert YearField(y) && MonthField(m);
    assert IsDigit(dd[0]) && DayField(dd) && DayValue(dd) == d.day;
  }

  /** A zero-padded date is its own ISO text, so the query repeats it. */
  lemma PaddedDateText(s: string)
    requires ParseDate(s).Some?
    requires |s| == 10 && s[8] != ' '
    ensures DateText(ParseDate(s).value) == s
  {
    var p := Split(s, '-');
    var y, m, dd := p[0], p[1], p[2];
    assert |p| == 3 && YearField(y) && MonthField(m) && DayField(dd);
    JoinText(s, p);
    assert s == y + "-" + m + "-" + dd;
    assert |m| == 2 && |dd| == 2;
    assert s[8] == dd[0];
    assert AllDigits(dd) && DayValue(dd) == StringToNat(dd);
    var date := ParseDate(s).value;
    assert date == Date(StringToNat(y), StringToNat(m), StringToNat(dd));
    PaddedOfValue(y);
    PaddedOfValue(m);
    PaddedOfValue(dd);
  }

  lemma JoinText(s: string, p: seq<string>)
    requires p == Split(s, '-') && |p| == 3
    ensures s == p[0] + "-" + p[1] + "-" + p[2]
  {
    JoinSplit(s, '-');
    assert p[1..] == [p[1], p[2]] && [p[1], p[2]][1..] == [p[2]];
    assert Join([p[2]], '-') == p[2];
    assert Join([p[1], p[2]], '-') == p[1] + "-" + p[2];
    assert s == p[0] + "-" + (p[1] + "-" + p[2]);
  }

  lemma YearValue(s: string)
    requires YearField(s)
    ensures StringToNat(s) == 1000 * DigitValue(s[0]) + 100 * DigitValue(s[1]) + 10 * DigitValue(s[2]) + DigitValue(s[3])
  {
    var s3, s2, s1 := s[..3], s[..2], s[..1];
    assert s3[..2] == s2 && s2[..1] == s1 && s1[..0] == [];
    assert StringToNat(s1) == DigitValue(s[0]);
    assert StringToNat(s2) == 10 * DigitValue(s[0]) + DigitValue(s[1]);
    assert StringToNat(s3) == 10 * StringToNat(s2) + DigitValue(s[2]);
  }

  lemma TwoDigitValue(s: string)
    requires |s| == 2 && AllDigits(s)
    ensures StringToNat(s) == 10 * DigitValue(s[0]) + DigitValue(s[1])
  {
    var s1 := s[..1];
    assert s1[..0] == [] && s1[0] == s[0];
    assert StringToNat(s1) == DigitValue(s[0]);
  }

  /** The outcome of parsing three dash-separated fields. */
  lemma ParseFields(y: string, m: string, d: string)
    requires YearField(y) && MonthField(m) && DayField(d)
    ensures ParseDate(y + "-" + m + "-" + d) ==
      var date := Date(StringToNat(y), StringToNat(m), DayValue(d));
      if ValidDate(date) then Some(date) else None
  {
    DashFree(y);
    DashFree(m);
    assert '-' !in d by {
      if d[0] == ' ' {
        assert d == [' ', d[1]];
      } else {
        DashFree(d);
      }
    }
    SplitDate(y + "-" + m + "-" + d, y, m, d);
  }

  /** `strptime` accepts unpadded fields. */
  lemma ParseUnpadded()
    ensures ParseDate("2021-1-5") == Some(Date(2021, 1, 5))
  {
    var y, m, d := "2021", "1", "5";
    assert "2021-1-5" == y + "-" + m + "-" + d;
    YearValue(y);
    assert StringToNat(m) == 1 by { assert m[..0] == []; }
    assert StringToNat(d) == 5 by { assert d[..0] == []; }
    ParseFields(y, m, d);
  }

  /** `datetime` checks the day against the month and leap years. */
  lemma ParseLeapDay()
    ensures ParseDate("2021-02-29") == None
    ensures ParseDate("2024-02-29") == Some(Date(2024, 2, 29))
  {
    YearValue("2021");
    YearValue("2024");
    LeapDay("2021", 2021);
    LeapDay("2024", 2024);
    assert "2021-02-29" == "2021" + "-" + "02" + "-" + "29";
    assert "2024-02-29" == "2024" + "-" + "02" + "-" + "29";
  }

  lemma LeapDay(y: string, year: nat)
    requires YearField(y) && StringToNat(y) == year && 1 <= year <= 9999
    ensures ParseDate(y + "-" + "02" + "-" + "29") == if IsLeapYear(year) then Some(Date(year, 2, 29)) else None
  {
    var m, d := "02", "29";
    TwoDigitValue(m);
    TwoDigitValue(d);
    assert MonthField(m) && DayField(d);
    ParseFields(y, m, d);
  }
}
