/** The calendar widget's date logic: `YYYY-MM-DD` formatting, the rule that
    disables past or future days by string comparison with today, marking by
    membership, month stepping and the month grid. Today's date, the number of
    days in the month and the weekday of its first day are inputs. */
module CalendarView {
  import opened Common

  /** The month shown: `currentMonth`'s full year and 0-based month. */
  datatype MonthCursor = MonthCursor(year: int, month: int)

  /** A month as `Date.getMonth()` gives it, 0 to 11. */
  predicate ValidCursor(c: MonthCursor)
  {
    0 <= c.month < 12
  }

  /** Months counted from January of year 0. */
  function MonthIndex(c: MonthCursor): int
  {
    c.year * 12 + c.month
  }

  /** `new Date(year, month)`: a month outside 0..11 rolls into the neighbouring years. */
  function MakeMonth(year: int, month: int): (c: MonthCursor)
    ensures ValidCursor(c)
    ensures MonthIndex(c) == year * 12 + month
  {
    MonthCursor(year + month / 12, month % 12)
  }

  /** Two valid cursors with the same month count are the same month. */
  lemma MonthIndexInjective(a: MonthCursor, b: MonthCursor)
    requires ValidCursor(a) && ValidCursor(b)
    requires MonthIndex(a) == MonthIndex(b)
    ensures a == b
  {
  }

  /** `prevMonth`: one month back, December of the previous year after January. */
  function PrevMonth(c: MonthCursor): (r: MonthCursor)
    requires ValidCursor(c)
    ensures ValidCursor(r)
    ensures MonthIndex(r) == MonthIndex(c) - 1
    ensures c.month == 0 ==> r == MonthCursor(c.year - 1, 11)
    ensures c.month > 0 ==> r == MonthCursor(c.year, c.month - 1)
  {
    var r := MakeMonth(c.year, c.month - 1);
    MonthIndexInjective(r, if c.month == 0 then MonthCursor(c.year - 1, 11) else MonthCursor(c.year, c.month - 1));
    r
  }

  /** `nextMonth`: one month forward, January of the next year after December. */
  function NextMonth(c: MonthCursor): (r: MonthCursor)
    requires ValidCursor(c)
    ensures ValidCursor(r)
    ensures MonthIndex(r) == MonthIndex(c) + 1
    ensures c.month == 11 ==> r == MonthCursor(c.year + 1, 0)
    ensures c.month < 11 ==> r == MonthCursor(c.year, c.month + 1)
  {
    var r := MakeMonth(c.year, c.month + 1);
    MonthIndexInjective(r, if c.month == 11 then MonthCursor(c.year + 1, 0) else MonthCursor(c.year, c.month + 1));
    r
  }

  /** Stepping forward then back, or back then forward, returns to the same month. */
  lemma StepsAreInverse(c: MonthCursor)
    requires ValidCursor(c)
    ensures PrevMonth(NextMonth(c)) == c
    ensures NextMonth(PrevMonth(c)) == c
  {
    MonthIndexInjective(PrevMonth(NextMonth(c)), c);
    MonthIndexInjective(NextMonth(PrevMonth(c)), c);
  }

  // ---------------------------------------------------------------- decimal text

  predicate IsDigit(c: char)
  {
    '0' <= c <= '9'
  }

  predicate AllDigits(s: string)
  {
    forall i :: 0 <= i < |s| ==> IsDigit(s[i])
  }

  function DigitChar(d: int): (c: char)
    requires 0 <= d <= 9
    ensures IsDigit(c)
  {
    ('0' as int + d) as char
  }

  function DigitValue(c: char): (d: int)
    requires IsDigit(c)
    ensures 0 <= d <= 9
  {
    c as int - '0' as int
  }

  /** `String(n)` for a non-negative integer: its decimal digits, no leading zeros. */
  function NatToDecimal(n: nat): (s: string)
    ensures |s| >= 1 && AllDigits(s)
    ensures n >= 1 ==> s[0] != '0'
  {
    if n < 10 then [DigitChar(n)] else NatToDecimal(n / 10) + [DigitChar(n % 10)]
  }

  /** `String(n)` for any integer: the digits of `n`, after a '-' when `n` is
      negative; they read back as the magnitude of `n`. */
  function IntToDecimal(n: int): (s: string)
    ensures |s| >= 1
    ensures n >= 0 ==> AllDigits(s) && DecimalValue(s) == n
    ensures n < 0 ==> |s| >= 2 && s[0] == '-' && AllDigits(s[1..]) && DecimalValue(s[1..]) == -n
    ensures n > 0 ==> s[0] != '0'
    ensures n < 0 ==> s[1] != '0'
  {
    if n < 0 then
      var digits := NatToDecimal(-n);
      DecimalRoundTrip(-n);
      assert ("-" + digits)[1..] == digits;
      "-" + digits
    else
      DecimalRoundTrip(n);
      NatToDecimal(n)
  }

  /** `s.padStart(2, '0')`: `s` itself when it has two characters or more,
      else `s` after enough '0's to make two. */
  function PadStart2(s: string): (r: string)
    ensures |r| == if |s| >= 2 then |s| else 2
  {
    if |s| >= 2 then s else if |s| == 1 then "0" + s else "00"
  }

  /** The padded text ends with the original text, and only '0's come before it. */
  lemma PadStart2Layout(s: string)
    ensures var r := PadStart2(s);
            && r[|r| - |s|..] == s
            && forall i :: 0 <= i < |r| - |s| ==> r[i] == '0'
  {
    var r := PadStart2(s);
    if |s| == 1 {
      assert r == "0" + s;
    }
  }

  /** The number a string of digits denotes. */
  function DecimalValue(s: string): int
    requires AllDigits(s)
  {
    if |s| == 0 then 0 else DecimalValue(s[..|s| - 1]) * 10 + DigitValue(s[|s| - 1])
  }

  /** Reading back the decimal text of `n` gives `n`. */
  lemma {:induction false} DecimalRoundTrip(n: nat)
    ensures DecimalValue(NatToDecimal(n)) == n
  {
    if n >= 10 {
      DecimalRoundTrip(n / 10);
      var s := NatToDecimal(n);
      assert s[..|s| - 1] == NatToDecimal(n / 10);
    } else {
      assert DecimalValue(NatToDecimal(n)) == DecimalValue([]) * 10 + DigitValue(DigitChar(n));
    }
  }

  /** Numbers below 100 have at most two digits, four-digit years have four. */
  lemma DecimalLength(n: nat)
    ensures n < 10 ==> |NatToDecimal(n)| == 1
    ensures 10 <= n < 100 ==> |NatToDecimal(n)| == 2
    ensures 100 <= n < 1000 ==> |NatToDecimal(n)| == 3
    ensures 1000 <= n < 10000 ==> |NatToDecimal(n)| == 4
  {
    if n >= 10 {
      var q := n / 10;
      assert n == 10 * q + n % 10;
      DecimalLength(q);
    }
  }

  /** A number below 100, padded to two characters, is two digits denoting it. */
  lemma {:induction false} PaddedTwoDigits(n: nat)
    requires n < 100
    ensures var s := PadStart2(IntToDecimal(n)); |s| == 2 && AllDigits(s) && DecimalValue(s) == n
  {
    DecimalLength(n);
    DecimalRoundTrip(n);
    var t := NatToDecimal(n);
    var s := PadStart2(t);
    if n < 10 {
      assert s == ['0'] + t;
      assert s[..1] == ['0'];
      assert DecimalValue(['0']) == 0;
      assert t == [DigitChar(n)];
      assert DecimalValue(s) == DecimalValue(s[..1]) * 10 + DigitValue(s[1]);
    }
  }

  /** `formatDate(day)`: year, then the 1-based month and the day each padded
      to two digits, joined by '-'; six characters longer than the year's text. */
  function FormatDate(c: MonthCursor, day: int): (s: string)
    ensures ValidCursor(c) && 0 <= day < 100 ==> |s| == |IntToDecimal(c.year)| + 6
  {
    if ValidCursor(c) && 0 <= day < 100 then
      PaddedTwoDigits(c.month + 1);
      PaddedTwoDigits(day);
      IntToDecimal(c.year) + "-" + PadStart2(IntToDecimal(c.month + 1)) + "-" + PadStart2(IntToDecimal(day))
    else
      IntToDecimal(c.year) + "-" + PadStart2(IntToDecimal(c.month + 1)) + "-" + PadStart2(IntToDecimal(day))
  }

  /** Three fields joined by '-' with two-character last fields: each field
      sits at a fixed distance from the end of the first. */
  lemma JoinedLayout(y: string, m: string, d: string)
    requires |m| == 2 && |d| == 2
    ensures var s := y + "-" + m + "-" + d;
            && |s| == |y| + 6 && s[..|y|] == y && s[|y|] == '-' && s[|y| + 3] == '-'
            && s[|y| + 1..|y| + 3] == m && s[|y| + 4..] == d
  {
  }

  /** The parts of a formatted date of a four-digit year. */
  predicate FourDigitYear(c: MonthCursor)
  {
    1000 <= c.year <= 9999
  }

  /** For a four-digit year the text is `YYYY-MM-DD`: ten characters, '-' at
      positions 4 and 7, and the digit groups read back as the year, the
      1-based month and the day. */
  lemma FormatDateFields(c: MonthCursor, day: int)
    requires FourDigitYear(c) && ValidCursor(c) && 0 <= day < 100
    ensures var s := FormatDate(c, day);
            && |s| == 10 && s[4] == '-' && s[7] == '-'
            && AllDigits(s[..4]) && AllDigits(s[5..7]) && AllDigits(s[8..])
            && DecimalValue(s[..4]) == c.year
            && DecimalValue(s[5..7]) == c.month + 1
            && DecimalValue(s[8..]) == day
  {
    DecimalLength(c.year);
    PaddedTwoDigits(c.month + 1);
    PaddedTwoDigits(day);
    JoinedFourDigitYear(IntToDecimal(c.year), PadStart2(IntToDecimal(c.month + 1)), PadStart2(IntToDecimal(day)), c, day);
  }

  /** Four year digits, two month digits and two day digits joined by '-'
      sit at fixed positions and read back as the fields. */
  lemma JoinedFourDigitYear(y: string, m: string, e: string, c: MonthCursor, day: int)
    requires |y| == 4 && AllDigits(y) && DecimalValue(y) == c.year
    requires |m| == 2 && AllDigits(m) && DecimalValue(m) == c.month + 1
    requires |e| == 2 && AllDigits(e) && DecimalValue(e) == day
    ensures var s := y + "-" + m + "-" + e;
            && |s| == 10 && s[4] == '-' && s[7] == '-'
            && AllDigits(s[..4]) && AllDigits(s[5..7]) && AllDigits(s[8..])
            && DecimalValue(s[..4]) == c.year
            && DecimalValue(s[5..7]) == c.month + 1
            && DecimalValue(s[8..]) == day
  {
    JoinedLayout(y, m, e);
  }


  /** Reads an integer's text back: digits after an optional '-', else None. */
  function ParseInt(s: string): Option<int>
  {
    if |s| >= 2 && s[0] == '-' && AllDigits(s[1..]) then Some(-DecimalValue(s[1..]))
    else if |s| >= 1 && AllDigits(s) then Some(DecimalValue(s))
    else None
  }

  /** Reading back the text of any integer gives the integer. */
  lemma IntToDecimalRoundTrip(n: int)
    ensures ParseInt(IntToDecimal(n)) == Some(n)
  {
    if n >= 0 {
      assert IsDigit(IntToDecimal(n)[0]);
    }
  }

  /** Reads a formatted date back into the month shown and the day: the year's
      text before the last six characters, then the month and the day as two
      digits each, all separated by '-'; None for any other text. */
  function ParseDate(s: string): Option<(MonthCursor, int)>
  {
    if |s| < 7 || s[|s| - 6] != '-' || s[|s| - 3] != '-' then None
    else if !AllDigits(s[|s| - 5..|s| - 3]) || !AllDigits(s[|s| - 2..]) then None
    else match ParseInt(s[..|s| - 6])
      case None => None
      case Some(y) => Some((MonthCursor(y, DecimalValue(s[|s| - 5..|s| - 3]) - 1), DecimalValue(s[|s| - 2..])))
  }

  /** A year's text, then a month and a day as two digits each, joined by '-',
      read back as that year, month and day. */
  lemma ParseJoined(y: string, m: string, e: string, c: MonthCursor, day: int)
    requires ParseInt(y) == Some(c.year)
    requires |m| == 2 && AllDigits(m) && DecimalValue(m) == c.month + 1
    requires |e| == 2 && AllDigits(e) && DecimalValue(e) == day
    ensures ParseDate(y + "-" + m + "-" + e) == Some((c, day))
  {
    JoinedLayout(y, m, e);
  }

  /** Reading a formatted date back gives the month and the day, in any year. */
  lemma FormatDateRoundTrip(c: MonthCursor, day: int)
    requires ValidCursor(c) && 0 <= day < 100
    ensures ParseDate(FormatDate(c, day)) == Some((c, day))
  {
    IntToDecimalRoundTrip(c.year);
    PaddedTwoDigits(c.month + 1);
    PaddedTwoDigits(day);
    ParseJoined(IntToDecimal(c.year), PadStart2(IntToDecimal(c.month + 1)), PadStart2(IntToDecimal(day)), c, day);
  }

  /** Different days, or different months, format differently, in any year. */
  lemma FormatDateInjective(c1: MonthCursor, d1: int, c2: MonthCursor, d2: int)
    requires ValidCursor(c1) && 0 <= d1 < 100
    requires ValidCursor(c2) && 0 <= d2 < 100
    ensures FormatDate(c1, d1) == FormatDate(c2, d2) <==> c1 == c2 && d1 == d2
  {
    if FormatDate(c1, d1) == FormatDate(c2, d2) {
      FormatDateRoundTrip(c1, d1);
      FormatDateRoundTrip(c2, d2);
    }
  }

  // ---------------------------------------------------------------- string order

  /** JavaScript's `<` on strings: character by character, a proper prefix first. */
  function LexLess(a: string, b: string): bool
  {
    if |a| == 0 then |b| > 0
    else if |b| == 0 then false
    else if a[0] != b[0] then a[0] < b[0]
    else LexLess(a[1..], b[1..])
  }

  /** A proper prefix comes before the longer string, never after it. */
  lemma {:induction false} LexLessPrefix(a: string, b: string)
    requires |a| < |b| && a == b[..|a|]
    ensures LexLess(a, b) && !LexLess(b, a)
  {
    if |a| > 0 {
      assert a[1..] == b[1..][..|a| - 1];
      LexLessPrefix(a[1..], b[1..]);
    }
  }

  /** No string is before itself. */
  lemma {:induction false} LexLessIrreflexive(a: string)
    ensures !LexLess(a, a)
  {
    if |a| > 0 {
      LexLessIrreflexive(a[1..]);
    }
  }

  /** Comparing two strings split after equally long heads: the heads decide
      unless they are equal, and then the tails decide. */
  lemma {:induction false} LexLessConcat(a1: string, a2: string, b1: string, b2: string)
    requires |a1| == |b1|
    ensures LexLess(a1 + a2, b1 + b2) == if a1 == b1 then LexLess(a2, b2) else LexLess(a1, b1)
  {
    if |a1| > 0 {
      assert (a1 + a2)[0] == a1[0] && (b1 + b2)[0] == b1[0];
      assert (a1 + a2)[1..] == a1[1..] + a2;
      assert (b1 + b2)[1..] == b1[1..] + b2;
      LexLessConcat(a1[1..], a2, b1[1..], b2);
      if a1[0] == b1[0] {
        assert a1 == b1 <==> a1[1..] == b1[1..] by {
          assert a1 == [a1[0]] + a1[1..];
          assert b1 == [b1[0]] + b1[1..];
        }
      }
    } else {
      assert a1 + a2 == a2 && b1 + b2 == b2;
    }
  }

  /** A number times ten plus a digit determines the number and the digit. */
  lemma LastDigitSplit(x: int, d: int, y: int, e: int)
    requires 0 <= d <= 9 && 0 <= e <= 9
    requires x * 10 + d == y * 10 + e
    ensures x == y && d == e
  {
  }

  /** Equally long digit strings that denote the same number are equal. */
  lemma {:induction false} DigitsInjective(a: string, b: string)
    requires |a| == |b| && AllDigits(a) && AllDigits(b)
    requires DecimalValue(a) == DecimalValue(b)
    ensures a == b
  {
    if |a| > 0 {
      var n := |a| - 1;
      var a', b' := a[..n], b[..n];
      assert DecimalValue(a) == DecimalValue(a') * 10 + DigitValue(a[n]);
      assert DecimalValue(b) == DecimalValue(b') * 10 + DigitValue(b[n]);
      LastDigitSplit(DecimalValue(a'), DigitValue(a[n]), DecimalValue(b'), DigitValue(b[n]));
      DigitsInjective(a', b');
      forall i | 0 <= i < |a| ensures a[i] == b[i] {
        if i < n {
          assert a[i] == a'[i] && b[i] == b'[i];
        }
      }
    }
  }

  /** On equally long digit strings, string order is numeric order. */
  lemma {:induction false} LexLessDigits(a: string, b: string)
    requires |a| == |b| && AllDigits(a) && AllDigits(b)
    ensures LexLess(a, b) <==> DecimalValue(a) < DecimalValue(b)
  {
    if |a| == 0 {
    } else {
      var n := |a| - 1;
      var a', b' := a[..n], b[..n];
      LexLessDigits(a', b');
      assert a == a' + [a[n]] && b == b' + [b[n]];
      LexLessConcat(a', [a[n]], b', [b[n]]);
      assert DecimalValue(a) == DecimalValue(a') * 10 + DigitValue(a[n]);
      assert DecimalValue(b) == DecimalValue(b') * 10 + DigitValue(b[n]);
      if a' == b' {
        assert LexLess([a[n]], [b[n]]) <==> a[n] < b[n];
      } else {
        if DecimalValue(a') == DecimalValue(b') {
          DigitsInjective(a', b');
        }
      }
    }
  }

  /** Days in chronological order: month count first, then the day. */
  function DayKey(c: MonthCursor, day: int): int
  {
    MonthIndex(c) * 100 + day
  }

  /** Chronological order of days is year, then month, then day. */
  lemma DayKeyOrder(c1: MonthCursor, d1: int, c2: MonthCursor, d2: int)
    requires ValidCursor(c1) && 0 <= d1 < 100
    requires ValidCursor(c2) && 0 <= d2 < 100
    ensures DayKey(c1, d1) < DayKey(c2, d2) <==>
              if c1.year != c2.year then c1.year < c2.year
              else if c1.month != c2.month then c1.month < c2.month
              else d1 < d2
  {
  }

  /** Comparing texts made of three dash-separated fields, the first two of
      matching lengths: field by field, the first field that differs decides. */
  lemma LexLessFields(y1: string, m1: string, e1: string, y2: string, m2: string, e2: string)
    requires |y1| == |y2| && |m1| == |m2|
    ensures LexLess(y1 + "-" + m1 + "-" + e1, y2 + "-" + m2 + "-" + e2) ==
              if y1 != y2 then LexLess(y1, y2)
              else if m1 != m2 then LexLess(m1, m2)
              else LexLess(e1, e2)
  {
    assert y1 + "-" + m1 + "-" + e1 == y1 + ("-" + m1 + "-" + e1);
    assert y2 + "-" + m2 + "-" + e2 == y2 + ("-" + m2 + "-" + e2);
    LexLessConcat(y1, "-" + m1 + "-" + e1, y2, "-" + m2 + "-" + e2);
    assert "-" + m1 + "-" + e1 == "-" + (m1 + ("-" + e1));
    assert "-" + m2 + "-" + e2 == "-" + (m2 + ("-" + e2));
    LexLessConcat("-", m1 + ("-" + e1), "-", m2 + ("-" + e2));
    LexLessConcat(m1, "-" + e1, m2, "-" + e2);
    LexLessConcat("-", e1, "-", e2);
  }

  /** Four-digit years: the texts have four characters, are equal exactly when
      the years are, and compare as strings as the years compare as numbers. */
  lemma YearTextOrder(c1: MonthCursor, c2: MonthCursor)
    requires FourDigitYear(c1) && FourDigitYear(c2)
    ensures |IntToDecimal(c1.year)| == 4 && |IntToDecimal(c2.year)| == 4
    ensures IntToDecimal(c1.year) == IntToDecimal(c2.year) <==> c1.year == c2.year
    ensures LexLess(IntToDecimal(c1.year), IntToDecimal(c2.year)) <==> c1.year < c2.year
  {
    DecimalLength(c1.year);
    DecimalLength(c2.year);
    LexLessDigits(IntToDecimal(c1.year), IntToDecimal(c2.year));
  }

  /** The 1-based month texts of two valid cursors: two characters each, equal
      exactly when the months are, and in string order as the months are. */
  lemma MonthTextOrder(c1: MonthCursor, c2: MonthCursor)
    requires ValidCursor(c1) && ValidCursor(c2)
    ensures |PadStart2(IntToDecimal(c1.month + 1))| == 2 && |PadStart2(IntToDecimal(c2.month + 1))| == 2
    ensures PadStart2(IntToDecimal(c1.month + 1)) == PadStart2(IntToDecimal(c2.month + 1)) <==> c1.month == c2.month
    ensures LexLess(PadStart2(IntToDecimal(c1.month + 1)), PadStart2(IntToDecimal(c2.month + 1))) <==> c1.month < c2.month
  {
    TwoDigitTextOrder(c1.month + 1, c2.month + 1);
  }

  /** Numbers below 100, padded to two digits: the texts have two characters,
      are equal exactly when the numbers are, and compare as strings as the
      numbers compare. */
  lemma TwoDigitTextOrder(a: int, b: int)
    requires 0 <= a < 100 && 0 <= b < 100
    ensures |PadStart2(IntToDecimal(a))| == 2 && |PadStart2(IntToDecimal(b))| == 2
    ensures PadStart2(IntToDecimal(a)) == PadStart2(IntToDecimal(b)) <==> a == b
    ensures LexLess(PadStart2(IntToDecimal(a)), PadStart2(IntToDecimal(b))) <==> a < b
  {
    PaddedTwoDigits(a);
    PaddedTwoDigits(b);
    LexLessDigits(PadStart2(IntToDecimal(a)), PadStart2(IntToDecimal(b)));
  }

  /** Two texts joined from year, month and day fields, the first two of
      matching lengths, whose fields are equal and ordered exactly as the
      year, month and day they stand for: their string order is
      chronological order. */
  lemma DatesInDayOrder(s1: string, y1: string, m1: string, e1: string,
                        s2: string, y2: string, m2: string, e2: string,
                        c1: MonthCursor, d1: int, c2: MonthCursor, d2: int)
    requires ValidCursor(c1) && 0 <= d1 < 100 && ValidCursor(c2) && 0 <= d2 < 100
    requires s1 == y1 + "-" + m1 + "-" + e1 && s2 == y2 + "-" + m2 + "-" + e2
    requires |y1| == |y2| && |m1| == |m2|
    requires (y1 == y2 <==> c1.year == c2.year) && (LexLess(y1, y2) <==> c1.year < c2.year)
    requires (m1 == m2 <==> c1.month == c2.month) && (LexLess(m1, m2) <==> c1.month < c2.month)
    requires (e1 == e2 <==> d1 == d2) && (LexLess(e1, e2) <==> d1 < d2)
    ensures LexLess(s1, s2) <==> DayKey(c1, d1) < DayKey(c2, d2)
  {
    LexLessFields(y1, m1, e1, y2, m2, e2);
    DayKeyOrder(c1, d1, c2, d2);
  }

  /** For four-digit years, comparing formatted dates as strings agrees with
      comparing the dates themselves. */
  lemma DateStringOrder(c1: MonthCursor, d1: int, c2: MonthCursor, d2: int)
    requires FourDigitYear(c1) && ValidCursor(c1) && 0 <= d1 < 100
    requires FourDigitYear(c2) && ValidCursor(c2) && 0 <= d2 < 100
    ensures LexLess(FormatDate(c1, d1), FormatDate(c2, d2)) <==> DayKey(c1, d1) < DayKey(c2, d2)
  {
    YearTextOrder(c1, c2);
    MonthTextOrder(c1, c2);
    TwoDigitTextOrder(d1, d2);
    DatesInDayOrder(FormatDate(c1, d1), IntToDecimal(c1.year), PadStart2(IntToDecimal(c1.month + 1)), PadStart2(IntToDecimal(d1)),
                    FormatDate(c2, d2), IntToDecimal(c2.year), PadStart2(IntToDecimal(c2.month + 1)), PadStart2(IntToDecimal(d2)),
                    c1, d1, c2, d2);
  }

  // ---------------------------------------------------------------- day states

  /** `isDisabled`: with `allowFuture` the days before today are disabled,
      otherwise the days after today. Today itself is never disabled. */
  predicate IsDisabled(dateStr: string, today: string, allowFuture: bool)
    ensures IsDisabled(dateStr, today, allowFuture) ==> dateStr != today
  {
    LexLessIrreflexive(today);
    if allowFuture then LexLess(dateStr, today) else LexLess(today, dateStr)
  }

  /** For four-digit years the rule disables exactly the earlier days (with
      `allowFuture`) or exactly the later days (without). */
  lemma DisabledDays(c: MonthCursor, day: int, t: MonthCursor, tday: int, allowFuture: bool)
    requires FourDigitYear(c) && ValidCursor(c) && 0 <= day < 100
    requires FourDigitYear(t) && ValidCursor(t) && 0 <= tday < 100
    ensures IsDisabled(FormatDate(c, day), FormatDate(t, tday), allowFuture)
            <==> if allowFuture then DayKey(c, day) < DayKey(t, tday) else DayKey(t, tday) < DayKey(c, day)
  {
    DateStringOrder(c, day, t, tday);
    DateStringOrder(t, tday, c, day);
  }

  /** Clicking a day: `onSelectDate(dateStr)` is called, giving Some(dateStr),
      unless the day is disabled. */
  function ClickDay(dateStr: string, today: string, allowFuture: bool): (selected: Option<string>)
    ensures selected.None? <==> IsDisabled(dateStr, today, allowFuture)
    ensures selected.Some? ==> selected.value == dateStr
  {
    if IsDisabled(dateStr, today, allowFuture) then None else Some(dateStr)
  }

  /** `isSelected`: membership in `selectedDates` in multi-select mode, else equality with `selectedDate`. */
  predicate IsSelected(c: MonthCursor, day: int, multiSelect: bool, selectedDates: seq<string>, selectedDate: Option<string>)
  {
    if multiSelect then FormatDate(c, day) in selectedDates
    else selectedDate == Some(FormatDate(c, day))
  }

  /** `hasAttendance`, `isExam` and `isHoliday`: membership of the day's date in the given list. */
  predicate IsMarked(c: MonthCursor, day: int, dates: seq<string>)
  {
    FormatDate(c, day) in dates
  }

  /** `isToday`: the day, month and year all match today's, so the day is
      today's day of today's month. */
  predicate IsToday(c: MonthCursor, day: int, today: MonthCursor, todayDay: int)
    ensures IsToday(c, day, today, todayDay) <==> c == today && day == todayDay
  {
    day == todayDay && c.month == today.month && c.year == today.year
  }

  /** In single-select mode at most one day of the month is selected. */
  lemma SingleSelectionIsOneDay(c: MonthCursor, d1: int, d2: int, selectedDate: Option<string>)
    requires ValidCursor(c) && 0 <= d1 < 100 && 0 <= d2 < 100
    requires IsSelected(c, d1, false, [], selectedDate) && IsSelected(c, d2, false, [], selectedDate)
    ensures d1 == d2
  {
    FormatDateInjective(c, d1, c, d2);
  }

  /** A listed date marks exactly its own day: a day is marked by a one-date
      list exactly when it is that date. */
  lemma MarkIsItsOwnDay(c: MonthCursor, day: int, listed: MonthCursor, listedDay: int)
    requires ValidCursor(c) && 0 <= day < 100
    requires ValidCursor(listed) && 0 <= listedDay < 100
    ensures IsMarked(c, day, [FormatDate(listed, listedDay)]) <==> c == listed && day == listedDay
  {
    FormatDateInjective(c, day, listed, listedDay);
  }

  /** The today outline and the today string of the disabled rule pick the same
      day, when both describe the same calendar date. */
  lemma TodayMatchesTodayString(c: MonthCursor, day: int, today: MonthCursor, todayDay: int)
    requires ValidCursor(c) && 0 <= day < 100
    requires ValidCursor(today) && 0 <= todayDay < 100
    ensures IsToday(c, day, today, todayDay) <==> FormatDate(c, day) == FormatDate(today, todayDay)
  {
    FormatDateInjective(c, day, today, todayDay);
  }

  // ---------------------------------------------------------------- grid

  datatype GridCell = Blank | DayCell(day: int)

  /** The month grid: `firstDayOfMonth` blank cells, then the days 1 to `daysInMonth`. */
  function MonthGrid(firstDayOfMonth: nat, daysInMonth: nat): (cells: seq<GridCell>)
    ensures |cells| == firstDayOfMonth + daysInMonth
    ensures forall i :: 0 <= i < firstDayOfMonth ==> cells[i] == Blank
    ensures forall i :: firstDayOfMonth <= i < |cells| ==> cells[i] == DayCell(i - firstDayOfMonth + 1)
  {
    seq(firstDayOfMonth, _ => Blank) + seq(daysInMonth, i => DayCell(i + 1))
  }

  /** Every day of the month has exactly one cell, `firstDayOfMonth + day - 1`
      places from the start of the grid. */
  lemma {:induction false} GridDayCell(firstDayOfMonth: nat, daysInMonth: nat, day: int)
    requires 1 <= day <= daysInMonth
    ensures var cells := MonthGrid(firstDayOfMonth, daysInMonth);
            && cells[firstDayOfMonth + day - 1] == DayCell(day)
            && (forall i :: 0 <= i < |cells| && cells[i] == DayCell(day) ==> i == firstDayOfMonth + day - 1)
  {
  }
}
