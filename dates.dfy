/** The date keys of the download trend store: `datetime.strptime(key, "%m-%d-%y")`
    and `date.strftime("%m-%d-%y")`, and the chronological order of the parsed dates. */
module Dates {
  import opened Common

  /** A calendar day as `%m-%d-%y` describes it: month, day of month, two-digit year. */
  datatype Date = Date(month: nat, day: nat, yy: nat)

  /** The full year `%y` stands for: 00-68 are 2000-2068, 69-99 are 1969-1999. */
  function Year(d: Date): nat {
    if d.yy <= 68 then 2000 + d.yy else 1900 + d.yy
  }

  predicate IsLeap(y: int) {
    y % 4 == 0 && (y % 100 != 0 || y % 400 == 0)
  }

  function DaysInMonth(y: int, m: nat): nat {
    if m == 2 then (if IsLeap(y) then 29 else 28)
    else if m == 4 || m == 6 || m == 9 || m == 11 then 30
    else 31
  }

  /** A day that `datetime` can represent. */
  predicate ValidDate(d: Date) {
    d.yy < 100 && 1 <= d.month <= 12 && 1 <= d.day <= DaysInMonth(Year(d), d.month)
  }

  /** `a < b` on the parsed `datetime` values: by year, then month, then day. */
  predicate Precedes(a: Date, b: Date) {
    Year(a) < Year(b) ||
    (Year(a) == Year(b) && (a.month < b.month || (a.month == b.month && a.day < b.day)))
  }

  /** An integer sort key for `Precedes`. */
  function Ordinal(d: Date): int {
    Year(d) * 10000 + d.month * 100 + d.day
  }

  /** Sorting by `Ordinal` is sorting `datetime` values: the key orders valid dates
      exactly as `Precedes` does and tells distinct dates apart. */
  lemma OrdinalOrder(a: Date, b: Date)
    requires ValidDate(a) && ValidDate(b)
    ensures Precedes(a, b) <==> Ordinal(a) < Ordinal(b)
    ensures a == b <==> Ordinal(a) == Ordinal(b)
  {
    if Ordinal(a) == Ordinal(b) {
      assert Year(a) == Year(b);
      assert a.yy == b.yy;
    }
  }

  predicate IsDigit(c: char) {
    '0' <= c <= '9'
  }

  function DigitValue(c: char): nat
    requires IsDigit(c)
  {
    (c as int) - ('0' as int)
  }

  function DigitChar(n: nat): char
    requires n < 10
  {
    (('0' as int) + n) as char
  }

  /** `%02d`. */
  function TwoDigits(n: nat): string
    requires n < 100
  {
    [DigitChar(n / 10), DigitChar(n % 10)]
  }

  /** `%m` reads `1[0-2]|0[1-9]|[1-9]`. */
  function MonthToken(t: string): Option<nat> {
    if |t| == 1 && '1' <= t[0] <= '9' then Some(DigitValue(t[0]))
    else if |t| == 2 && ((t[0] == '0' && '1' <= t[1] <= '9') || (t[0] == '1' && '0' <= t[1] <= '2'))
    then Some(10 * DigitValue(t[0]) + DigitValue(t[1]))
    else None
  }

  /** `%d` reads `3[01]|[12]\d|0[1-9]|[1-9]| [1-9]`. */
  function DayToken(t: string): Option<nat> {
    if |t| == 1 && '1' <= t[0] <= '9' then Some(DigitValue(t[0]))
    else if |t| == 2 && t[0] == ' ' && '1' <= t[1] <= '9' then Some(DigitValue(t[1]))
    else if |t| == 2 && IsDigit(t[1]) &&
            ((t[0] == '0' && t[1] != '0') || t[0] == '1' || t[0] == '2' || (t[0] == '3' && t[1] <= '1'))
    then Some(10 * DigitValue(t[0]) + DigitValue(t[1]))
    else None
  }

  /** `%y` reads exactly two digits. */
  function YearToken(t: string): Option<nat> {
    if |t| == 2 && IsDigit(t[0]) && IsDigit(t[1]) then Some(10 * DigitValue(t[0]) + DigitValue(t[1]))
    else None
  }

  /** The first position at or after `from` holding `c`. */
  function Find(s: string, c: char, from: nat): (r: Option<nat>)
    decreases |s| - from
    ensures r.Some? ==> from <= r.value < |s| && s[r.value] == c
    ensures r.Some? ==> forall k :: from <= k < r.value ==> s[k] != c
    ensures r.None? ==> forall k :: from <= k < |s| ==> s[k] != c
  {
    if from >= |s| then None else if s[from] == c then Some(from) else Find(s, c, from + 1)
  }

  /** `datetime.strptime(s, "%m-%d-%y")`; `None` where it raises `ValueError`. None of
      the three fields can contain `-`, so each one ends at the next `-`, and the
      whole string must be consumed. */
  function Parse(s: string): (r: Option<Date>)
    ensures r.Some? ==> ValidDate(r.value)
  {
    match Find(s, '-', 0)
    case None => None
    case Some(i) =>
      match Find(s, '-', i + 1)
      case None => None
      case Some(j) =>
        var m, d, y := MonthToken(s[..i]), DayToken(s[i + 1..j]), YearToken(s[j + 1..]);
        if m.None? || d.None? || y.None? then None
        else
          var date := Date(m.value, d.value, y.value);
          if ValidDate(date) then Some(date) else None
  }

  /** `date.strftime("%m-%d-%y")`: zero-padded month, day and `year % 100`. */
  function Format(d: Date): (s: string)
    requires ValidDate(d)
    ensures |s| == 8
  {
    TwoDigits(d.month) + "-" + TwoDigits(d.day) + "-" + TwoDigits(d.yy)
  }

  /** The shape `strftime` produces: `DD-DD-DD` with ASCII digits. */
  predicate ZeroPadded(s: string) {
    |s| == 8 && IsDigit(s[0]) && IsDigit(s[1]) && s[2] == '-' &&
    IsDigit(s[3]) && IsDigit(s[4]) && s[5] == '-' && IsDigit(s[6]) && IsDigit(s[7])
  }

  /** A key that `strftime` gives back unchanged after `strptime`. */
  predicate IsCanonical(s: string) {
    var r := Parse(s);
    r.Some? && Format(r.value) == s
  }

  lemma TwoDigitsValue(n: nat)
    requires n < 100
    ensures IsDigit(TwoDigits(n)[0]) && IsDigit(TwoDigits(n)[1])
    ensures 10 * DigitValue(TwoDigits(n)[0]) + DigitValue(TwoDigits(n)[1]) == n
  {
  }

  /** Formatting a date and parsing it back gives the same date. */
  lemma ParseFormat(d: Date)
    requires ValidDate(d)
    ensures Parse(Format(d)) == Some(d)
  {
    var s := Format(d);
    TwoDigitsValue(d.month);
    TwoDigitsValue(d.day);
    TwoDigitsValue(d.yy);
    assert s[0] != '-' && s[1] != '-' && s[2] == '-';
    assert Find(s, '-', 0) == Some(2);
    assert s[3] != '-' && s[4] != '-' && s[5] == '-';
    assert Find(s, '-', 3) == Some(5);
    assert s[..2] == TwoDigits(d.month);
    assert s[3..5] == TwoDigits(d.day);
    assert s[6..] == TwoDigits(d.yy);
    assert MonthToken(s[..2]) == Some(d.month);
    assert DayToken(s[3..5]) == Some(d.day);
    assert YearToken(s[6..]) == Some(d.yy);
  }

  /** For a zero-padded key that parses, formatting the parsed date yields the key. */
  lemma FormatParse(s: string)
    requires ZeroPadded(s) && Parse(s).Some?
    ensures Format(Parse(s).value) == s
  {
    assert Find(s, '-', 0) == Some(2);
    assert Find(s, '-', 3) == Some(5);
    var d := Parse(s).value;
    TwoDigitsValue(d.month);
    TwoDigitsValue(d.day);
    TwoDigitsValue(d.yy);
    var f := Format(d);
    assert f[..2] == TwoDigits(d.month) && f[3..5] == TwoDigits(d.day) && f[6..] == TwoDigits(d.yy);
    assert f[0] == s[0] && f[1] == s[1];
    assert f[3] == s[3] && f[4] == s[4];
    assert f[6] == s[6] && f[7] == s[7];
  }

  /** The keys that survive a parse/format round trip are exactly the zero-padded ones
      that parse. */
  lemma CanonicalIff(s: string)
    ensures IsCanonical(s) <==> ZeroPadded(s) && Parse(s).Some?
  {
    if ZeroPadded(s) && Parse(s).Some? {
      FormatParse(s);
    }
    if IsCanonical(s) {
      var d := Parse(s).value;
      TwoDigitsValue(d.month);
      TwoDigitsValue(d.day);
      TwoDigitsValue(d.yy);
    }
  }

  /** Every formatted date is canonical. */
  lemma FormatCanonical(d: Date)
    requires ValidDate(d)
    ensures IsCanonical(Format(d))
  {
    ParseFormat(d);
  }

  /** Distinct valid dates format differently. */
  lemma FormatInjective(a: Date, b: Date)
    requires ValidDate(a) && ValidDate(b) && Format(a) == Format(b)
    ensures a == b
  {
    ParseFormat(a);
    ParseFormat(b);
  }

  /** `strptime` also accepts unpadded fields, which `strftime` then pads: `"1-2-24"`
      reads as 2 January 2024 but is written back as `"01-02-24"`. */
  lemma UnpaddedKeyExample()
    ensures Parse("1-2-24") == Some(Date(1, 2, 24))
    ensures Format(Date(1, 2, 24)) == "01-02-24"
    ensures !IsCanonical("1-2-24")
  {
    assert Find("1-2-24", '-', 0) == Some(1);
    assert Find("1-2-24", '-', 2) == Some(3);
    assert "1-2-24"[..1] == "1" && "1-2-24"[2..3] == "2" && "1-2-24"[4..] == "24";
  }

  /** The order is chronological, not lexical: `"12-31-99"` (1999) precedes `"01-01-00"`
      (2000), and `"12-02-23"` precedes `"02-03-24"`. */
  lemma ChronologicalExample()
    ensures Parse("12-31-99") == Some(Date(12, 31, 99))
    ensures Parse("01-01-00") == Some(Date(1, 1, 0))
    ensures Precedes(Date(12, 31, 99), Date(1, 1, 0))
    ensures Precedes(Date(12, 2, 23), Date(2, 3, 24))
  {
    assert Find("12-31-99", '-', 0) == Some(2);
    assert Find("12-31-99", '-', 3) == Some(5);
    assert "12-31-99"[..2] == "12" && "12-31-99"[3..5] == "31" && "12-31-99"[6..] == "99";
    assert Find("01-01-00", '-', 0) == Some(2);
    assert Find("01-01-00", '-', 3) == Some(5);
    assert "01-01-00"[..2] == "01" && "01-01-00"[3..5] == "01" && "01-01-00"[6..] == "00";
  }

  /** `datetime` rejects days that do not exist: 29 February only in leap years. */
  lemma DayOfMonthExample()
    ensures ValidDate(Date(2, 29, 24)) && !ValidDate(Date(2, 29, 23)) && !ValidDate(Date(2, 30, 24))
    ensures !ValidDate(Date(4, 31, 24))
  {
  }
}
