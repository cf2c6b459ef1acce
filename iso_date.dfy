/** Calendar dates as text: `date.isoformat()` / `strftime('%Y-%m-%d')`, the
    extended complete representation YYYY-MM-DD of ISO 8601:2004 section
    4.1.2.2, and the part of `datetime.fromisoformat` that reads it, with an
    optional time of day after a one-character separator. */
module IsoDate {
  import opened Wrappers
  import opened Calendar
  import Lex

  predicate IsDigit(c: char)
  {
    '0' <= c <= '9'
  }

  predicate AllDigits(s: string)
  {
    forall i | 0 <= i < |s| :: IsDigit(s[i])
  }

  function DigitValue(c: char): (n: int)
    requires IsDigit(c)
    ensures 0 <= n <= 9
  {
    c as int - '0' as int
  }

  function DigitChar(n: int): (c: char)
    requires 0 <= n <= 9
    ensures IsDigit(c) && DigitValue(c) == n
  {
    (n + '0' as int) as char
  }

  /** Two decimal digits, zero-padded. */
  function Pad2(n: int): (s: string)
    requires 0 <= n < 100
    ensures |s| == 2 && AllDigits(s)
  {
    [DigitChar(n / 10), DigitChar(n % 10)]
  }

  /** Four decimal digits, zero-padded, as `%04d`. */
  function Pad4(n: int): (s: string)
    requires 0 <= n < 10000
    ensures |s| == 4 && AllDigits(s)
  {
    Pad2(n / 100) + Pad2(n % 100)
  }

  function Value2(s: string): (n: int)
    requires |s| == 2 && AllDigits(s)
    ensures 0 <= n < 100
  {
    10 * DigitValue(s[0]) + DigitValue(s[1])
  }

  function Value4(s: string): (n: int)
    requires |s| == 4 && AllDigits(s)
    ensures 0 <= n < 10000
  {
    100 * Value2(s[..2]) + Value2(s[2..])
  }

  lemma Pad2Value(n: int)
    requires 0 <= n < 100
    ensures Value2(Pad2(n)) == n
  {
  }

  lemma Value2Pad(s: string)
    requires |s| == 2 && AllDigits(s)
    ensures Pad2(Value2(s)) == s
  {
    var n := Value2(s);
    assert n / 10 == DigitValue(s[0]) && n % 10 == DigitValue(s[1]);
    assert DigitChar(DigitValue(s[0])) == s[0];
    assert DigitChar(DigitValue(s[1])) == s[1];
  }

  lemma Pad4Value(n: int)
    requires 0 <= n < 10000
    ensures Value4(Pad4(n)) == n
  {
    var s := Pad4(n);
    assert s[..2] == Pad2(n / 100) && s[2..] == Pad2(n % 100);
    Pad2Value(n / 100);
    Pad2Value(n % 100);
  }

  lemma Value4Pad(s: string)
    requires |s| == 4 && AllDigits(s)
    ensures Pad4(Value4(s)) == s
  {
    var hi, lo := Value2(s[..2]), Value2(s[2..]);
    assert Value4(s) / 100 == hi && Value4(s) % 100 == lo;
    Value2Pad(s[..2]);
    Value2Pad(s[2..]);
    assert s == s[..2] + s[2..];
  }

  /** `date.isoformat()`, equally `strftime('%Y-%m-%d')` for years from 1000 on. */
  function FormatDate(d: Date): (s: string)
    requires InRange(d)
    ensures |s| == 10 && s[4] == '-' && s[7] == '-'
  {
    Pad4(d.year) + "-" + Pad2(d.month) + "-" + Pad2(d.day)
  }

  /** Text with the shape DDDD-DD-DD. */
  predicate DateShaped(s: string)
  {
    |s| == 10 && s[4] == '-' && s[7] == '-'
    && AllDigits(s[..4]) && AllDigits(s[5..7]) && AllDigits(s[8..])
  }

  /** `date.fromisoformat` on exactly YYYY-MM-DD: digits in place, the month
      1 to 12, the day within the month, the year 1 to 9999. */
  function ParseDate(s: string): (r: Option<Date>)
    ensures r.Some? ==> InRange(r.value)
  {
    if !DateShaped(s) then None
    else
      var d := Date(Value4(s[..4]), Value2(s[5..7]), Value2(s[8..]));
      if InRange(d) then Some(d) else None
  }

  /** Reading back a formatted date gives the date. */
  lemma ParseFormat(d: Date)
    requires InRange(d)
    ensures ParseDate(FormatDate(d)) == Some(d)
  {
    var s := FormatDate(d);
    assert s[..4] == Pad4(d.year);
    assert s[5..7] == Pad2(d.month);
    assert s[8..] == Pad2(d.day);
    Pad4Value(d.year);
    Pad2Value(d.month);
    Pad2Value(d.day);
  }

  /** Text that parses as a date is the formatting of that date: there is one
      spelling of each date. */
  lemma FormatParse(s: string)
    requires ParseDate(s).Some?
    ensures FormatDate(ParseDate(s).value) == s
  {
    Value4Pad(s[..4]);
    Value2Pad(s[5..7]);
    Value2Pad(s[8..]);
    assert s == s[..4] + "-" + s[5..7] + "-" + s[8..];
  }

  /** Different dates are formatted differently. */
  lemma FormatInjective(d: Date, e: Date)
    requires InRange(d) && InRange(e) && FormatDate(d) == FormatDate(e)
    ensures d == e
  {
    ParseFormat(d);
    ParseFormat(e);
  }

  predicate TwoDigitsBelow(s: string, bound: int)
  {
    |s| == 2 && AllDigits(s) && Value2(s) < bound
  }

  /** The time part `fromisoformat` accepts here: HH, HH:MM or HH:MM:SS with
      hour below 24 and minute and second below 60. */
  predicate ValidTime(t: string)
  {
    && |t| in {2, 5, 8}
    && TwoDigitsBelow(t[..2], 24)
    && (|t| >= 5 ==> t[2] == ':' && TwoDigitsBelow(t[3..5], 60))
    && (|t| == 8 ==> t[5] == ':' && TwoDigitsBelow(t[6..8], 60))
  }

  /** `datetime.fromisoformat(s).date()`: a date, optionally followed by any
      one separator character and a time. `None` stands for `ValueError`. */
  function ParseDateTime(s: string): (r: Option<Date>)
    ensures r.Some? ==> InRange(r.value)
  {
    if |s| <= 10 then ParseDate(s)
    else if ValidTime(s[11..]) then ParseDate(s[..10])
    else None
  }

  /** The due-date rewrite in `Task.__post_init__`:
      `datetime.fromisoformat(s).date().isoformat()`. */
  function NormalizeDueDate(s: string): (r: Option<string>)
    ensures r.Some? <==> ParseDateTime(s).Some?
    ensures r.Some? ==> ParseDate(r.value) == ParseDateTime(s)
  {
    match ParseDateTime(s)
    case None => None
    case Some(d) =>
      ParseFormat(d);
      Some(FormatDate(d))
  }

  /** A successful normalisation keeps exactly the first ten characters, and
      those are a valid date. */
  lemma NormalizeKeepsDatePart(s: string)
    requires NormalizeDueDate(s).Some?
    ensures |s| >= 10 && ParseDate(s[..10]).Some?
    ensures NormalizeDueDate(s) == Some(s[..10])
  {
    if |s| <= 10 {
      assert s[..10] == s;
    }
    FormatParse(s[..10]);
  }

  /** A due date already in YYYY-MM-DD form comes out unchanged, and only such
      a date does. */
  lemma NormalizeFixesCanonical(s: string)
    ensures NormalizeDueDate(s) == Some(s) <==> ParseDate(s).Some?
  {
    if ParseDate(s).Some? {
      FormatParse(s);
    }
    if NormalizeDueDate(s) == Some(s) {
      NormalizeKeepsDatePart(s);
      assert s[..10] == s;
    }
  }

  /** Normalising twice is normalising once. */
  lemma NormalizeIdempotent(s: string)
    requires NormalizeDueDate(s).Some?
    ensures NormalizeDueDate(NormalizeDueDate(s).value) == NormalizeDueDate(s)
  {
    NormalizeKeepsDatePart(s);
    NormalizeFixesCanonical(s[..10]);
  }

  /** A date-time string is truncated to its date part, whatever the separator. */
  lemma NormalizeTruncatesTime(d: Date, sep: char, t: string)
    requires InRange(d) && ValidTime(t)
    ensures NormalizeDueDate(FormatDate(d) + [sep] + t) == Some(FormatDate(d))
  {
    var s := FormatDate(d) + [sep] + t;
    assert s[..10] == FormatDate(d) && s[11..] == t;
    ParseFormat(d);
  }

  /** Zero-padded two-digit numbers compare as text as they do as numbers,
      whatever follows them. */
  lemma Pad2Less(a: int, b: int, x: string, y: string)
    requires 0 <= a < b < 100
    ensures Lex.Less(Pad2(a) + x, Pad2(b) + y)
  {
    var s, t := Pad2(a) + x, Pad2(b) + y;
    assert s[0] == DigitChar(a / 10) && t[0] == DigitChar(b / 10);
    if a / 10 == b / 10 {
      assert s[1..] == [DigitChar(a % 10)] + x;
      assert t[1..] == [DigitChar(b % 10)] + y;
    }
  }

  lemma Pad4Less(a: int, b: int, x: string, y: string)
    requires 0 <= a < b < 10000
    ensures Lex.Less(Pad4(a) + x, Pad4(b) + y)
  {
    assert Pad4(a) + x == Pad2(a / 100) + (Pad2(a % 100) + x);
    assert Pad4(b) + y == Pad2(b / 100) + (Pad2(b % 100) + y);
    if a / 100 < b / 100 {
      Pad2Less(a / 100, b / 100, Pad2(a % 100) + x, Pad2(b % 100) + y);
    } else {
      Pad2Less(a % 100, b % 100, x, y);
      Lex.LessCommonPrefix(Pad2(a / 100), Pad2(a % 100) + x, Pad2(b % 100) + y);
    }
  }

  /** Formatted dates sort as text in calendar order, across month and year
      ends alike. */
  lemma FormatDateOrder(d: Date, e: Date)
    requires InRange(d) && InRange(e) && Before(d, e)
    ensures Lex.Less(FormatDate(d), FormatDate(e))
  {
    var restD := "-" + Pad2(d.month) + "-" + Pad2(d.day);
    var restE := "-" + Pad2(e.month) + "-" + Pad2(e.day);
    assert FormatDate(d) == Pad4(d.year) + restD;
    assert FormatDate(e) == Pad4(e.year) + restE;
    if d.year < e.year {
      Pad4Less(d.year, e.year, restD, restE);
    } else {
      var dayD, dayE := "-" + Pad2(d.day), "-" + Pad2(e.day);
      var p := Pad4(d.year) + "-";
      assert FormatDate(d) == p + (Pad2(d.month) + dayD);
      assert FormatDate(e) == p + (Pad2(e.month) + dayE);
      if d.month < e.month {
        Pad2Less(d.month, e.month, dayD, dayE);
      } else {
        var q := Pad2(d.month) + "-";
        assert Pad2(d.month) + dayD == q + Pad2(d.day);
        assert Pad2(e.month) + dayE == q + Pad2(e.day);
        Pad2Less(d.day, e.day, [], []);
        assert Pad2(d.day) + [] == Pad2(d.day) && Pad2(e.day) + [] == Pad2(e.day);
        Lex.LessCommonPrefix(q, Pad2(d.day), Pad2(e.day));
      }
      Lex.LessCommonPrefix(p, Pad2(d.month) + dayD, Pad2(e.month) + dayE);
    }
  }

  lemma FormatExamples()
    ensures FormatDate(Date(2025, 1, 1)) == "2025-01-01"
    ensures FormatDate(Date(2024, 12, 31)) == "2024-12-31"
  {
  }
}
