/** `_detect_date_format`'s pattern `<h2>w/e (\d{1}/\d{1,2}|\d{1,2}/\d{1})</h2>`. */
module Detect {
  import opened Text
  import opened Dates
  import opened Markup

  /** A `D/M` token with a one-digit day or month, closed by `</h2>`, starts at `j`:
      `D/D`, `D/DD` (first alternative) or `DD/D` (second alternative). */
  predicate ShortDateAt(s: string, j: nat) {
    || (j + 8 <= |s| && IsDigit(s[j]) && s[j + 1] == '/' && IsDigit(s[j + 2])
        && PrefixAt(s, j + 3, "</h2>"))
    || (j + 9 <= |s| && IsDigit(s[j]) && s[j + 1] == '/' && IsDigit(s[j + 2]) && IsDigit(s[j + 3])
        && PrefixAt(s, j + 4, "</h2>"))
    || (j + 9 <= |s| && IsDigit(s[j]) && IsDigit(s[j + 1]) && s[j + 2] == '/' && IsDigit(s[j + 3])
        && PrefixAt(s, j + 4, "</h2>"))
  }

  predicate UnpaddedHeadingAt(s: string, i: nat) {
    PrefixAt(s, i, "<h2>w/e ") && ShortDateAt(s, i + 8)
  }

  /** `self._unpadded_date_pattern.search(content)` succeeds. */
  predicate UsesUnpaddedDates(s: string) {
    exists i :: 0 <= i < |s| && UnpaddedHeadingAt(s, i)
  }

  /** The heading of a `x/y` token with one- or two-digit parts is seen as unpadded exactly
      when one of the parts has a single digit. */
  lemma ShortTokenHeading(x: string, y: string)
    requires 1 <= |x| <= 2 && 1 <= |y| <= 2 && AllDigits(x) && AllDigits(y)
    ensures UnpaddedHeadingAt("<h2>w/e " + x + "/" + y + "</h2>", 0) <==> |x| == 1 || |y| == 1
  {
    var h := "<h2>w/e " + x + "/" + y + "</h2>";
    assert h[..8] == "<h2>w/e ";
    assert IsDigit(h[8]) && h[8] == x[0];
    var n := 9 + |x| + |y|;
    assert |h| == n + 5;
    assert h[n..n + 5] == "</h2>";
    if |x| == 1 {
      assert h[9] == '/' && h[10] == y[0];
      if |y| == 1 {
        assert ShortDateAt(h, 8);
      } else {
        assert h[11] == y[1];
        assert ShortDateAt(h, 8);
      }
    } else {
      assert h[9] == x[1] && h[10] == '/' && h[11] == y[0];
      if |y| == 1 {
        assert ShortDateAt(h, 8);
      } else {
        assert h[12] == y[1] && IsDigit(h[12]);
        assert !PrefixAt(h, 12, "</h2>") by { assert h[12..17][0] == h[12]; }
        assert !ShortDateAt(h, 8);
      }
    }
  }

  /** A heading the engine writes for a date of at most two-digit day and month is seen as
      unpadded exactly when it is written unpadded and the day or the month has one digit. */
  lemma DetectWrittenHeading(day: nat, month: nat, padded: bool)
    requires day < 100 && month < 100
    ensures UnpaddedHeadingAt(WeekHeading(FormatWeekDate(day, month, padded)), 0)
            <==> !padded && (day < 10 || month < 10)
  {
    var x, y := DigitsOf(day, padded), DigitsOf(month, padded);
    assert WeekHeading(FormatWeekDate(day, month, padded)) == "<h2>w/e " + x + "/" + y + "</h2>";
    ShortTokenHeading(x, y);
  }

  /** An unpadded heading found inside a text `h` is found at the same place in any page that
      holds `h`. */
  lemma UnpaddedHeadingInside(s: string, i: nat, h: string, j: nat)
    requires PrefixAt(s, i, h) && UnpaddedHeadingAt(h, j)
    ensures UnpaddedHeadingAt(s, i + j)
  {
    forall x | j <= x < |h| ensures s[i + x] == h[x] {
      assert s[i..i + |h|][x] == s[i + x];
    }
    forall t: string, k: nat | j <= k && PrefixAt(h, k, t) ensures PrefixAt(s, i + k, t) {
      assert s[i + k..i + k + |t|] == s[i..i + |h|][k..k + |t|];
    }
  }

  /** A page holding a heading written unpadded with a one-digit day or month is detected as
      using unpadded dates, whatever surrounds it. */
  lemma WrittenHeadingIsDetected(s: string, i: nat, day: nat, month: nat)
    requires day < 100 && month < 100 && (day < 10 || month < 10)
    requires PrefixAt(s, i, WeekHeading(FormatWeekDate(day, month, false)))
    ensures UsesUnpaddedDates(s)
  {
    var h := WeekHeading(FormatWeekDate(day, month, false));
    DetectWrittenHeading(day, month, false);
    UnpaddedHeadingInside(s, i, h, 0);
    assert i < |s|;
  }
}
