/** The due-date check of the task store, `datetime.strptime(due_date,
    "%Y-%m-%d")`, modelled as: the text is a four-digit year, a one- or
    two-digit month and a one- or two-digit day, separated by `-`, that
    together name a real date of the proleptic Gregorian calendar between
    the years 1 and 9999. Two forms `strptime` also accepts are refused
    here: a day written as a space and one digit, and non-ASCII digits. */
module Dates {
  import opened Wrappers

  datatype Date = Date(year: int, month: int, day: int)

  /** Bounds of Python's `datetime.date`. */
  const MinYear: int := 1
  const MaxYear: int := 9999

  /** The Gregorian leap-year rule. */
  predicate IsLeapYear(y: int)
  {
    y % 4 == 0 && (y % 100 != 0 || y % 400 == 0)
  }

  function DaysInMonth(y: int, m: int): (n: int)
    requires 1 <= m <= 12
    ensures 28 <= n <= 31
    ensures m == 2 ==> (n == 29 <==> IsLeapYear(y))
  {
    if m == 2 then (if IsLeapYear(y) then 29 else 28)
    else if m == 4 || m == 6 || m == 9 || m == 11 then 30
    else 31
  }

  /** A day that exists in the calendar and in the range `datetime` accepts. */
  predicate IsValidDate(d: Date)
  {
    MinYear <= d.year <= MaxYear &&
    1 <= d.month <= 12 &&
    1 <= d.day <= DaysInMonth(d.year, d.month)
  }

  predicate IsDigit(c: char)
  {
    '0' <= c <= '9'
  }

  predicate AllDigits(s: string)
  {
    forall i :: 0 <= i < |s| ==> IsDigit(s[i])
  }

  function DigitValue(c: char): nat
    requires IsDigit(c)
  {
    c as int - '0' as int
  }

  /** The decimal number written by the digits `s`, most significant first. */
  function DigitsValue(s: string): nat
    requires AllDigits(s)
  {
    if s == [] then 0
    else DigitsValue(s[..|s| - 1]) * 10 + DigitValue(s[|s| - 1])
  }

  /** The position of the first `-` in `s`, or `|s|` when there is none. */
  function FirstDash(s: string): (k: nat)
    ensures k <= |s|
    ensures forall i :: 0 <= i < k ==> s[i] != '-'
    ensures k < |s| ==> s[k] == '-'
  {
    if s == [] || s[0] == '-' then 0 else 1 + FirstDash(s[1..])
  }

  /** A numeric field of between `minLen` and `maxLen` digits. */
  predicate IsField(s: string, minLen: nat, maxLen: nat)
  {
    minLen <= |s| <= maxLen && AllDigits(s)
  }

  /** `strptime(s, "%Y-%m-%d")`: the date `s` names, or `None` when the
      text is refused (`strptime` raises `ValueError`; for the two forms
      named at the top of this module the model refuses where `strptime`
      accepts). */
  function ParseDate(s: string): (r: Option<Date>)
    ensures r.Some? ==> IsValidDate(r.value)
    ensures r.Some? ==> 8 <= |s| <= 10 && s[4] == '-' && AllDigits(s[..4])
  {
    var i := FirstDash(s);
    if i == |s| then None
    else
      var yearText, rest := s[..i], s[i + 1..];
      var j := FirstDash(rest);
      if j == |rest| then None
      else
        var monthText, dayText := rest[..j], rest[j + 1..];
        if IsField(yearText, 4, 4) && IsField(monthText, 1, 2) && IsField(dayText, 1, 2) then
          var d := Date(DigitsValue(yearText), DigitsValue(monthText), DigitsValue(dayText));
          if IsValidDate(d) then Some(d) else None
        else None
  }

  function Pow10(n: nat): nat
  {
    if n == 0 then 1 else 10 * Pow10(n - 1)
  }

  /** `n` written with exactly `width` decimal digits, padded with zeros. */
  function Pad(n: nat, width: nat): (s: string)
    requires n < Pow10(width)
    ensures |s| == width && AllDigits(s) && DigitsValue(s) == n
  {
    if width == 0 then ""
    else
      var last := ('0' as int + n % 10) as char;
      var s := Pad(n / 10, width - 1) + [last];
      assert s[..|s| - 1] == Pad(n / 10, width - 1);
      s
  }

  /** The canonical `YYYY-MM-DD` text of a date. */
  function FormatDate(d: Date): (s: string)
    requires IsValidDate(d)
    ensures |s| == 10 && s[4] == '-' && s[7] == '-'
  {
    Pad(d.year, 4) + "-" + Pad(d.month, 2) + "-" + Pad(d.day, 2)
  }

  lemma FirstDashAfterDigits(a: string, b: string)
    requires AllDigits(a)
    ensures FirstDash(a + "-" + b) == |a|
  {
    var s := a + "-" + b;
    assert s[|a|] == '-';
    assert forall i :: 0 <= i < |a| ==> s[i] == a[i];
  }

  /** Parsing text made of three digit groups joined by `-` comes down to
      the field lengths and the calendar check. */
  lemma ParseDigitGroups(y: string, m: string, dd: string)
    requires AllDigits(y) && AllDigits(m) && AllDigits(dd)
    ensures ParseDate(y + "-" + m + "-" + dd) ==
            if IsField(y, 4, 4) && IsField(m, 1, 2) && IsField(dd, 1, 2)
               && IsValidDate(Date(DigitsValue(y), DigitsValue(m), DigitsValue(dd)))
            then Some(Date(DigitsValue(y), DigitsValue(m), DigitsValue(dd)))
            else None
  {
    var s := y + "-" + m + "-" + dd;
    var rest := m + "-" + dd;
    assert s == y + "-" + rest;
    FirstDashAfterDigits(y, rest);
    assert s[..|y|] == y && s[|y| + 1..] == rest;
    FirstDashAfterDigits(m, dd);
    assert rest[..|m|] == m && rest[|m| + 1..] == dd;
  }

  /** Every valid date is accepted in its canonical form, and parsing gives
      the same date back. */
  lemma ParseFormatRoundTrip(d: Date)
    requires IsValidDate(d)
    ensures ParseDate(FormatDate(d)) == Some(d)
  {
    ParseDigitGroups(Pad(d.year, 4), Pad(d.month, 2), Pad(d.day, 2));
  }

  /** A date written in canonical form is accepted exactly when it is a
      real date: out-of-range months and days are rejected. */
  lemma CanonicalAcceptedIffValid(d: Date)
    requires 0 <= d.year <= MaxYear && 0 <= d.month <= 99 && 0 <= d.day <= 99
    ensures ParseDate(Pad(d.year, 4) + "-" + Pad(d.month, 2) + "-" + Pad(d.day, 2)).Some?
            <==> IsValidDate(d)
  {
    ParseDigitGroups(Pad(d.year, 4), Pad(d.month, 2), Pad(d.day, 2));
  }

  /** The value of a digit string, written out positionally. */
  lemma DigitsValueOfShort(s: string)
    requires AllDigits(s) && 1 <= |s| <= 4
    ensures |s| == 1 ==> DigitsValue(s) == DigitValue(s[0])
    ensures |s| == 2 ==> DigitsValue(s) == 10 * DigitValue(s[0]) + DigitValue(s[1])
    ensures |s| == 4 ==> DigitsValue(s) == 1000 * DigitValue(s[0]) + 100 * DigitValue(s[1])
                                           + 10 * DigitValue(s[2]) + DigitValue(s[3])
  {
  }

  /** Parsing three concrete digit groups joined by `-`. */
  lemma ParseShortGroups(y: string, m: string, dd: string)
    requires AllDigits(y) && AllDigits(m) && AllDigits(dd)
    requires |y| == 4 && 1 <= |m| <= 2 && 1 <= |dd| <= 2
    ensures ParseDate(y + "-" + m + "-" + dd) ==
            if IsValidDate(Date(DigitsValue(y), DigitsValue(m), DigitsValue(dd)))
            then Some(Date(DigitsValue(y), DigitsValue(m), DigitsValue(dd)))
            else None
  {
    ParseDigitGroups(y, m, dd);
  }

  lemma RejectsMonthThirteen()
    ensures ParseDate("2024-13-01") == None
  {
    ParseShortGroups("2024", "13", "01");
    DigitsValueOfShort("2024");
    DigitsValueOfShort("13");
    DigitsValueOfShort("01");
    assert "2024" + "-" + "13" + "-" + "01" == "2024-13-01";
  }

  lemma AcceptsOneDigitFields()
    ensures ParseDate("2024-7-5") == Some(Date(2024, 7, 5))
  {
    DigitsValueOfShort("2024");
    DigitsValueOfShort("7");
    DigitsValueOfShort("5");
    assert DigitsValue("2024") == 2024;
    assert DigitsValue("7") == 7 && DigitsValue("5") == 5;
    assert IsValidDate(Date(2024, 7, 5));
    ParseShortGroups("2024", "7", "5");
    assert "2024" + "-" + "7" + "-" + "5" == "2024-7-5";
  }

  lemma AcceptsJulyFifteenth()
    ensures ParseDate("2024-07-15") == Some(Date(2024, 7, 15))
  {
    DigitsValueOfShort("2024");
    DigitsValueOfShort("07");
    DigitsValueOfShort("15");
    assert DigitsValue("2024") == 2024 && DigitsValue("07") == 7 && DigitsValue("15") == 15;
    assert IsValidDate(Date(2024, 7, 15));
    ParseShortGroups("2024", "07", "15");
    assert "2024" + "-" + "07" + "-" + "15" == "2024-07-15";
  }

  lemma RejectsFebruaryThirtieth()
    ensures ParseDate("2024-02-30") == None
  {
    DigitsValueOfShort("2024");
    DigitsValueOfShort("02");
    DigitsValueOfShort("30");
    assert DigitsValue("2024") == 2024 && DigitsValue("02") == 2 && DigitsValue("30") == 30;
    assert !IsValidDate(Date(2024, 2, 30));
    ParseShortGroups("2024", "02", "30");
    assert "2024" + "-" + "02" + "-" + "30" == "2024-02-30";
  }

  lemma RejectsLeapDayIn2023()
    ensures ParseDate("2023-02-29") == None
  {
    DigitsValueOfShort("2023");
    DigitsValueOfShort("02");
    DigitsValueOfShort("29");
    assert DigitsValue("2023") == 2023 && DigitsValue("02") == 2 && DigitsValue("29") == 29;
    assert !IsValidDate(Date(2023, 2, 29));
    ParseShortGroups("2023", "02", "29");
    assert "2023" + "-" + "02" + "-" + "29" == "2023-02-29";
  }

  lemma RejectsLeapDayIn1900()
    ensures ParseDate("1900-02-29") == None
  {
    DigitsValueOfShort("1900");
    DigitsValueOfShort("02");
    DigitsValueOfShort("29");
    assert DigitsValue("1900") == 1900 && DigitsValue("02") == 2 && DigitsValue("29") == 29;
    assert !IsValidDate(Date(1900, 2, 29));
    ParseShortGroups("1900", "02", "29");
    assert "1900" + "-" + "02" + "-" + "29" == "1900-02-29";
  }

  lemma AcceptsLeapDayIn2024()
    ensures ParseDate("2024-02-29") == Some(Date(2024, 2, 29))
  {
    DigitsValueOfShort("2024");
    DigitsValueOfShort("02");
    DigitsValueOfShort("29");
    assert DigitsValue("2024") == 2024 && DigitsValue("02") == 2 && DigitsValue("29") == 29;
    assert IsValidDate(Date(2024, 2, 29));
    ParseShortGroups("2024", "02", "29");
    assert "2024" + "-" + "02" + "-" + "29" == "2024-02-29";
  }

  lemma AcceptsLeapDayIn2000()
    ensures ParseDate("2000-02-29") == Some(Date(2000, 2, 29))
  {
    DigitsValueOfShort("2000");
    DigitsValueOfShort("02");
    DigitsValueOfShort("29");
    assert DigitsValue("2000") == 2000 && DigitsValue("02") == 2 && DigitsValue("29") == 29;
    assert IsValidDate(Date(2000, 2, 29));
    ParseShortGroups("2000", "02", "29");
    assert "2000" + "-" + "02" + "-" + "29" == "2000-02-29";
  }

  /** Any character other than `-` after the year is refused. */
  lemma RejectsSlashes()
    ensures ParseDate("2024/01/01") == None
  {
    assert "2024/01/01"[4] == '/';
  }

  /** The converse of `ParseDigitGroups`: accepted text is exactly a
      four-digit year, a one- or two-digit month and a one- or two-digit
      day joined by `-`, and the date returned is the one those digits
      write. */
  lemma ParseDateAccepted(s: string)
    requires ParseDate(s).Some?
    ensures exists y, m, dd :: s == y + "-" + m + "-" + dd
              && IsField(y, 4, 4) && IsField(m, 1, 2) && IsField(dd, 1, 2)
              && ParseDate(s).value == Date(DigitsValue(y), DigitsValue(m), DigitsValue(dd))
  {
    var i := FirstDash(s);
    var yearText, rest := s[..i], s[i + 1..];
    var j := FirstDash(rest);
    var monthText, dayText := rest[..j], rest[j + 1..];
    assert rest == monthText + "-" + dayText;
    assert s == yearText + "-" + monthText + "-" + dayText;
  }

  /** Text that is a four-digit year, a one- or two-digit month and a one-
      or two-digit day joined by `-`, naming a real date. */
  ghost predicate IsDateText(s: string)
  {
    exists y, m, dd :: s == y + "-" + m + "-" + dd
      && IsField(y, 4, 4) && IsField(m, 1, 2) && IsField(dd, 1, 2)
      && IsValidDate(Date(DigitsValue(y), DigitsValue(m), DigitsValue(dd)))
  }

  /** `ParseDate` accepts exactly the date texts. */
  lemma ParseDateIffDateText(s: string)
    ensures ParseDate(s).Some? <==> IsDateText(s)
  {
    if ParseDate(s).Some? {
      ParseDateAccepted(s);
    }
    if IsDateText(s) {
      var y, m, dd :| s == y + "-" + m + "-" + dd
        && IsField(y, 4, 4) && IsField(m, 1, 2) && IsField(dd, 1, 2)
        && IsValidDate(Date(DigitsValue(y), DigitsValue(m), DigitsValue(dd)));
      ParseDigitGroups(y, m, dd);
    }
  }
}
