/** Calendar facts the merge engine relies on: month names, the day/month token written in
    week headings, and the weekday arithmetic that finds the last Friday. */
module Dates {
  import opened Basics
  import opened Text

  /** `ConfluenceService.MONTH_NAMES`; `strftime('%B')` in an English locale gives these. */
  const MonthNames: seq<string> :=
    ["January", "February", "March", "April", "May", "June",
     "July", "August", "September", "October", "November", "December"]

  lemma MonthNamesDistinct()
    ensures |MonthNames| == 12
    ensures forall i, j :: 0 <= i < j < 12 ==> MonthNames[i] != MonthNames[j]
  {
  }

  function IndexFrom(name: string, k: nat): (i: int)
    requires k <= 12
    ensures i == -1 || (k <= i < 12 && MonthNames[i] == name)
    decreases 12 - k
  {
    if k == 12 then -1 else if MonthNames[k] == name then k else IndexFrom(name, k + 1)
  }

  lemma IndexFromMissing(name: string, k: nat)
    requires k <= 12
    ensures IndexFrom(name, k) == -1 <==> forall j :: k <= j < 12 ==> MonthNames[j] != name
    decreases 12 - k
  {
    if k < 12 {
      IndexFromMissing(name, k + 1);
    }
  }

  /** The sort key of `regenerate_ordered_content`: `MONTH_NAMES.index(m)`, or -1 for a key
      that is not a month name. */
  function MonthIndex(name: string): (i: int)
    ensures -1 <= i < 12
    ensures 0 <= i ==> MonthNames[i] == name
    ensures i == -1 <==> name !in MonthNames
  {
    IndexFromMissing(name, 0);
    IndexFrom(name, 0)
  }

  /** `name in MONTH_NAMES`, written through the index so that proofs need not unfold the list. */
  predicate IsMonthName(name: string)
    ensures IsMonthName(name) <==> name in MonthNames
  {
    MonthIndex(name) >= 0
  }

  lemma MonthIndexOfName(i: nat)
    requires i < 12
    ensures MonthIndex(MonthNames[i]) == i
  {
    MonthNamesDistinct();
  }

  /** A week-ending date without its year, ordered as `datetime` values of one year are. */
  datatype MonthDay = MonthDay(month: int, day: int)

  predicate Before(a: MonthDay, b: MonthDay) {
    a.month < b.month || (a.month == b.month && a.day < b.day)
  }

  function DaysInMonth(month: int, leapYear: bool): int
    requires 1 <= month <= 12
  {
    if month == 2 then (if leapYear then 29 else 28)
    else if month == 4 || month == 6 || month == 9 || month == 11 then 30
    else 31
  }

  /** `datetime.now().replace(day=d, month=m)` succeeds exactly for these pairs; the year of the
      clock enters only through whether it is a leap year. */
  predicate ValidDate(d: MonthDay, leapYear: bool) {
    1 <= d.month <= 12 && 1 <= d.day <= DaysInMonth(d.month, leapYear)
  }

  /** The `D/M` token of a week heading: `f"{d:02d}/{m:02d}"` when padded, `f"{d}/{m}"` otherwise. */
  function FormatWeekDate(day: nat, month: nat, padded: bool): string {
    if padded then Pad2(day) + "/" + Pad2(month) else ShowNat(day) + "/" + ShowNat(month)
  }

  /** `day, month = week_end_date.split('/')` followed by `int(day)`, `int(month)`; `None` where
      Python raises. Returns `(day, month)`. */
  function ParseWeekDate(s: string): Option<(nat, nat)> {
    match Find(s, "/")
    case None => None
    case Some(p) =>
      var dayPart, monthPart := s[..p], s[p + 1..];
      if |dayPart| > 0 && |monthPart| > 0 && AllDigits(dayPart) && AllDigits(monthPart)
      then Some((ParseNat(dayPart), ParseNat(monthPart)))
      else None
  }

  function DigitsOf(n: nat, padded: bool): (r: string)
    ensures |r| > 0 && AllDigits(r)
  {
    if padded then Pad2(n) else ShowNat(n)
  }

  lemma ParseDigitsOf(n: nat, padded: bool)
    ensures ParseNat(DigitsOf(n, padded)) == n
  {
    if padded { ParsePad2(n); } else { ParseShowNat(n); }
  }

  /** Reading back the token written for a date gives the date, in either format. */
  lemma ParseFormatWeekDate(day: nat, month: nat, padded: bool)
    ensures ParseWeekDate(FormatWeekDate(day, month, padded)) == Some((day, month))
  {
    var x, y := DigitsOf(day, padded), DigitsOf(month, padded);
    var s := x + "/" + y;
    assert s == FormatWeekDate(day, month, padded);
    assert s[|x|..|x| + 1] == "/";
    forall q | 0 <= q < |x| ensures !PrefixAt(s, q, "/") {
      assert s[q] == x[q];
      assert s[q..q + 1][0] == s[q];
    }
    FindIs(s, "/", |x|);
    assert s[..|x|] == x;
    assert s[|x| + 1..] == y;
    ParseDigitsOf(day, padded);
    ParseDigitsOf(month, padded);
  }

  /** `s` splits at `p` into exactly two non-empty digit strings, as `split('/')` into a day and a
      month that `int` accepts. */
  predicate SplitsAt(s: string, p: int) {
    0 < p < |s| - 1 && s[p] == '/' && AllDigits(s[..p]) && AllDigits(s[p + 1..])
  }

  /** A week-ending date parses exactly when it is two digit strings around one `/`, and then it
      gives their values: any other shape makes Python raise. */
  lemma ParseWeekDateSplits(s: string)
    ensures ParseWeekDate(s).Some? <==> exists p :: SplitsAt(s, p)
    ensures forall p :: SplitsAt(s, p) ==> ParseWeekDate(s) == Some((ParseNat(s[..p]), ParseNat(s[p + 1..])))
  {
    if ParseWeekDate(s).Some? {
      var p := Find(s, "/").value;
      assert s[p..p + 1][0] == s[p];
      assert SplitsAt(s, p);
    }
    forall p | SplitsAt(s, p)
      ensures ParseWeekDate(s) == Some((ParseNat(s[..p]), ParseNat(s[p + 1..])))
    {
      assert PrefixAt(s, p, "/");
      forall q | 0 <= q < p ensures !PrefixAt(s, q, "/") {
        assert s[..p][q] == s[q];
        assert s[q..q + 1][0] == s[q];
      }
      FindIs(s, "/", p);
    }
  }

  /** A day and a month below 100 are written the same padded and unpadded exactly when both
      have two digits; otherwise the padded token is the longer one. */
  lemma PaddedFormsAgree(day: nat, month: nat)
    requires day < 100 && month < 100
    ensures |FormatWeekDate(day, month, true)| == 5
    ensures FormatWeekDate(day, month, true) == FormatWeekDate(day, month, false) <==> day >= 10 && month >= 10
  {
  }

  // ---------------------------------------------------------------------------
  // DateUtils.get_last_friday

  /** `date.weekday()` of a proleptic Gregorian ordinal (`date.toordinal()`, where ordinal 1 is
      Monday 1 January of year 1): 0 is Monday, 4 is Friday. */
  function Weekday(ordinal: int): int {
    (ordinal + 6) % 7
  }

  /** The weekday `v` days after a Monday, for any integer `v`; Python's `%` and Dafny's agree
      for the positive divisor 7. */
  function WrapWeekday(v: int): int {
    v % 7
  }

  /** `(day_of_week + 3) % 7 or 7`: how many days lie between a date and the last Friday
      strictly before it. */
  function DaysBackToFriday(weekday: int): (delta: int)
    requires 0 <= weekday < 7
    ensures 1 <= delta <= 7
    ensures WrapWeekday(weekday - delta) == 4
    ensures forall v :: weekday - delta < v < weekday ==> WrapWeekday(v) != 4
  {
    if (weekday + 3) % 7 == 0 then 7 else (weekday + 3) % 7
  }

  /** `get_last_friday(date)`: the latest Friday strictly before `date`, as an ordinal. It is a
      Friday, lies within the seven days before `date`, and no Friday lies between the two. */
  function LastFriday(ordinal: int): (r: int)
    ensures Weekday(r) == 4
    ensures ordinal - 7 <= r < ordinal
    ensures forall x :: r < x < ordinal ==> Weekday(x) != 4
  {
    var w := Weekday(ordinal);
    var delta := DaysBackToFriday(w);
    WeekdayShift(ordinal, w, delta);
    ordinal - delta
  }

  /** The weekday of a day up to `delta` days before `ordinal` is `WrapWeekday` of the step back. */
  lemma WeekdayShift(ordinal: int, w: int, delta: int)
    requires w == Weekday(ordinal) && 1 <= delta <= 7
    ensures forall x :: ordinal - delta <= x < ordinal ==> Weekday(x) == WrapWeekday(w - (ordinal - x))
  {
    forall x | ordinal - delta <= x < ordinal ensures Weekday(x) == WrapWeekday(w - (ordinal - x)) {
      assert x + 6 == (w - (ordinal - x)) + 7 * ((ordinal + 6) / 7);
    }
  }
}
