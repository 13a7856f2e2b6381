/** `_add_new_week`: where a week the month section does not have yet is inserted. The
    existing weeks are read from the zero-padded headings `<h2>w/e DD/MM</h2>` only. */
module NewWeek {
  import opened Basics
  import opened Text
  import opened Dates
  import opened Markup
  import opened Locate
  import opened Splice

  /** `t` is an 18-character heading `<h2>w/e DD/MM</h2>`, two digits on each side of the slash. */
  predicate IsPaddedHeading(t: string) {
    |t| == 18
    && t[..8] == "<h2>w/e "
    && IsDigit(t[8]) && IsDigit(t[9]) && t[10] == '/' && IsDigit(t[11]) && IsDigit(t[12])
    && t[13..] == "</h2>"
  }

  /** A match of `<h2>w\/e (\d{2})\/(\d{2})<\/h2>` starts at `i`. */
  predicate PaddedHeadingAt(s: string, i: nat) {
    i + 18 <= |s| && IsPaddedHeading(s[i..i + 18])
  }

  /** The date a padded heading names: `int` of each digit group. */
  function DateOfHeading(t: string): MonthDay
    requires IsPaddedHeading(t)
  {
    MonthDay(ParseNat(t[11..13]), ParseNat(t[8..10]))
  }

  function HeadingDate(s: string, i: nat): MonthDay
    requires PaddedHeadingAt(s, i)
  {
    DateOfHeading(s[i..i + 18])
  }

  /** A week heading the scan kept: its date and the index where its match starts. */
  datatype Week = Week(date: MonthDay, pos: nat)

  /** Two padded headings never overlap: inside one, `<` stands only at offsets 0 and 13,
      and offset 14 holds `/`, not `h`. */
  lemma HeadingsDoNotOverlap(s: string, i: nat, k: nat)
    requires PaddedHeadingAt(s, i) && 0 < k < 18
    ensures !PaddedHeadingAt(s, i + k)
  {
    var t := s[i..i + 18];
    var x := i + k;
    if k == 13 {
      assert s[x + 1] == t[14] == t[13..][1] == '/';
    } else if k == 8 || k == 9 || k == 11 || k == 12 {
      assert IsDigit(s[x]) by { assert s[x] == t[k]; }
    } else if k < 8 {
      assert s[x] == t[..8][k] != '<';
    } else if k == 10 {
      assert s[x] == t[10] == '/';
    } else {
      assert s[x] == t[13..][k - 13] != '<';
    }
    if x + 18 <= |s| {
      assert s[x..x + 18][..8][0] == s[x] && s[x..x + 18][..8][1] == s[x + 1];
    }
  }

  /** `week_pattern.finditer(content)` from index `i`, keeping the headings whose date exists
      in the year (the `try`/`except ... continue`); after a match the scan resumes past it. */
  function WeeksFrom(s: string, i: nat, leapYear: bool): (ws: seq<Week>)
    requires i <= |s|
    ensures forall k :: 0 <= k < |ws| ==>
              i <= ws[k].pos && PaddedHeadingAt(s, ws[k].pos)
              && ws[k].date == HeadingDate(s, ws[k].pos) && ValidDate(ws[k].date, leapYear)
    ensures forall j, k :: 0 <= j < k < |ws| ==> ws[j].pos < ws[k].pos
    decreases |s| - i
  {
    if i + 18 > |s| then []
    else if PaddedHeadingAt(s, i) then
      var rest := WeeksFrom(s, i + 18, leapYear);
      if ValidDate(HeadingDate(s, i), leapYear) then [Week(HeadingDate(s, i), i)] + rest else rest
    else WeeksFrom(s, i + 1, leapYear)
  }

  /** One step of the scan at a heading. */
  lemma WeeksFromAtHeading(s: string, i: nat, leapYear: bool)
    requires PaddedHeadingAt(s, i)
    ensures WeeksFrom(s, i, leapYear)
            == if ValidDate(HeadingDate(s, i), leapYear) then [Week(HeadingDate(s, i), i)] + WeeksFrom(s, i + 18, leapYear)
               else WeeksFrom(s, i + 18, leapYear)
  {
  }

  /** One step of the scan past a position where no heading starts. */
  lemma WeeksFromElsewhere(s: string, i: nat, leapYear: bool)
    requires i + 18 <= |s| && !PaddedHeadingAt(s, i)
    ensures WeeksFrom(s, i, leapYear) == WeeksFrom(s, i + 1, leapYear)
  {
  }

  /** The scan misses no heading: every padded heading at or after `i` with a real date is
      kept, at the index `k` returned. */
  lemma {:induction false} WeeksFromComplete(s: string, i: nat, leapYear: bool, q: nat) returns (k: nat)
    requires i <= q && PaddedHeadingAt(s, q) && ValidDate(HeadingDate(s, q), leapYear)
    ensures k < |WeeksFrom(s, i, leapYear)| && WeeksFrom(s, i, leapYear)[k].pos == q
    decreases |s| - i
  {
    if i == q {
      WeeksFromAtHeading(s, i, leapYear);
      k := 0;
    } else if PaddedHeadingAt(s, i) {
      if q < i + 18 {
        HeadingsDoNotOverlap(s, i, q - i);
        assert false;
      }
      var k' := WeeksFromComplete(s, i + 18, leapYear, q);
      WeeksFromAtHeading(s, i, leapYear);
      k := if ValidDate(HeadingDate(s, i), leapYear) then k' + 1 else k';
    } else {
      assert i + 18 <= q + 18 <= |s|;
      WeeksFromElsewhere(s, i, leapYear);
      k := WeeksFromComplete(s, i + 1, leapYear, q);
    }
  }

  /** The week `sorted(weeks, key=date, reverse=True)` followed by "first with `date <
      new_week_date`" selects, as an index into `ws` (in document order): the latest date
      before `nd` and, since the sort is stable, the first such week among equal dates. */
  function LatestEarlier(ws: seq<Week>, nd: MonthDay): (r: Option<nat>)
    ensures r.None? <==> forall j :: 0 <= j < |ws| ==> !Before(ws[j].date, nd)
    ensures r.Some? ==> r.value < |ws| && Before(ws[r.value].date, nd)
    ensures r.Some? ==> forall j :: 0 <= j < |ws| && Before(ws[j].date, nd) ==> !Before(ws[r.value].date, ws[j].date)
    ensures r.Some? ==> forall j :: 0 <= j < r.value && Before(ws[j].date, nd) ==> Before(ws[j].date, ws[r.value].date)
    decreases |ws|
  {
    if |ws| == 0 then None
    else
      var r := LatestEarlier(ws[..|ws| - 1], nd);
      var last := ws[|ws| - 1];
      if !Before(last.date, nd) then r
      else if r.None? || Before(ws[r.value].date, last.date) then Some(|ws| - 1)
      else r
  }

  /** `content.find('</h1>') + 5`; when there is no `</h1>`, `find` gives -1 and the slice
      index 4 is clamped to the length of the content. */
  function DefaultPos(content: string): (pos: nat)
    ensures pos <= |content|
    ensures Contains(content, "</h1>") ==> pos >= 5 && PrefixAt(content, pos - 5, "</h1>")
    ensures Contains(content, "</h1>") ==> pos == Find(content, "</h1>").value + 5
    ensures !Contains(content, "</h1>") ==> pos == if |content| < 4 then |content| else 4
  {
    match Find(content, "</h1>")
    case Some(p) => p + 5
    case None => if |content| < 4 then |content| else 4
  }

  /** Where the new week goes: before the latest earlier week, else after the month heading. */
  function InsertPos(content: string, nd: MonthDay, leapYear: bool): (pos: nat)
    ensures pos <= |content|
  {
    var ws := WeeksFrom(content, 0, leapYear);
    match LatestEarlier(ws, nd)
    case Some(k) => ws[k].pos
    case None => DefaultPos(content)
  }

  /** `_add_new_week(content, week_end_date, formatted_content)`. `Err` where Python raises:
      the date does not split into two integers, or names a day the year does not have. */
  function AddNewWeek(content: string, date: string, formatted: string, name: string, leapYear: bool): (r: Result<string>)
    ensures r.Err? <==> ParseWeekDate(date).None?
                        || !ValidDate(MonthDay(ParseWeekDate(date).value.1, ParseWeekDate(date).value.0), leapYear)
    ensures r.Err? ==> (r.error == MalformedWeekDate <==> ParseWeekDate(date).None?)
    ensures r.Ok? ==> |r.value| == |content| + |NewWeekBlock(date, name, formatted)|
    ensures r.Ok? ==>
              var p := InsertPos(content, MonthDay(ParseWeekDate(date).value.1, ParseWeekDate(date).value.0), leapYear);
              var n := |NewWeekBlock(date, name, formatted)|;
              r.value[..p] == content[..p] && r.value[p..p + n] == NewWeekBlock(date, name, formatted)
              && r.value[p + n..] == content[p..]
  {
    match ParseWeekDate(date)
    case None => Err(MalformedWeekDate)
    case Some((day, month)) =>
      var nd := MonthDay(month, day);
      if !ValidDate(nd, leapYear) then Err(InvalidCalendarDate)
      else
        var pos := InsertPos(content, nd, leapYear);
        Ok(content[..pos] + NewWeekBlock(date, name, formatted) + content[pos..])
  }

  /** The insertion point, characterized without the scan: when a padded heading with a real
      date earlier than `nd` exists, the block goes where the latest such heading starts, and
      no earlier-placed heading carries that same date; otherwise it goes after `</h1>`. */
  lemma InsertPosIsLatestEarlier(content: string, nd: MonthDay, leapYear: bool)
    ensures var pos := InsertPos(content, nd, leapYear);
            (exists q :: 0 <= q <= |content| && PaddedHeadingAt(content, q)
                         && ValidDate(HeadingDate(content, q), leapYear) && Before(HeadingDate(content, q), nd))
            <==>
            (PaddedHeadingAt(content, pos) && ValidDate(HeadingDate(content, pos), leapYear)
             && Before(HeadingDate(content, pos), nd)
             && (forall q :: 0 <= q <= |content| && PaddedHeadingAt(content, q)
                             && ValidDate(HeadingDate(content, q), leapYear) && Before(HeadingDate(content, q), nd)
                             ==> !Before(HeadingDate(content, pos), HeadingDate(content, q))
                                 && (q < pos ==> Before(HeadingDate(content, q), HeadingDate(content, pos)))))
    ensures (forall q :: (0 <= q <= |content| && PaddedHeadingAt(content, q)
                          && ValidDate(HeadingDate(content, q), leapYear)) ==> !Before(HeadingDate(content, q), nd))
            ==> InsertPos(content, nd, leapYear) == DefaultPos(content)
  {
    var ws := WeeksFrom(content, 0, leapYear);
    var pos := InsertPos(content, nd, leapYear);
    var r := LatestEarlier(ws, nd);
    forall q | 0 <= q <= |content| && PaddedHeadingAt(content, q)
               && ValidDate(HeadingDate(content, q), leapYear) && Before(HeadingDate(content, q), nd)
      ensures r.Some?
      ensures r.Some? ==> !Before(HeadingDate(content, pos), HeadingDate(content, q))
                          && (q < pos ==> Before(HeadingDate(content, q), HeadingDate(content, pos)))
    {
      var j := WeeksFromComplete(content, 0, leapYear, q);
      assert Before(ws[j].date, nd);
      if r.Some? && q < pos {
        assert ws[j].pos < ws[r.value].pos;
        assert j < r.value;
      }
    }
  }

  /** The heading `_add_new_week` writes for a padded date is one its own scan recognises,
      and it names that date back. */
  lemma WrittenHeadingIsPadded(day: nat, month: nat)
    requires day < 100 && month < 100
    ensures IsPaddedHeading(WeekHeading(FormatWeekDate(day, month, true)))
    ensures DateOfHeading(WeekHeading(FormatWeekDate(day, month, true))) == MonthDay(month, day)
  {
    var x, y := Pad2(day), Pad2(month);
    var h := WeekHeading(FormatWeekDate(day, month, true));
    assert h == "<h2>w/e " + x + "/" + y + "</h2>";
    assert h[8..10] == x;
    assert h[11..13] == y;
    assert h[..8] == "<h2>w/e ";
    assert h[13..] == "</h2>";
    ParsePad2(day);
    ParsePad2(month);
  }

  /** A heading written unpadded with a one-digit day or month does not start a padded match,
      whatever follows it on the page, so `_add_new_week`'s scan never keeps it and orders a new
      week without it. */
  lemma UnpaddedHeadingIsNotScanned(s: string, i: nat, day: nat, month: nat, leapYear: bool)
    requires day < 10 || month < 10
    requires PrefixAt(s, i, WeekHeading(FormatWeekDate(day, month, false)))
    ensures !PaddedHeadingAt(s, i)
    ensures forall k :: 0 <= k < |WeeksFrom(s, 0, leapYear)| ==> WeeksFrom(s, 0, leapYear)[k].pos != i
  {
    var x, y := ShowNat(day), ShowNat(month);
    var h := WeekHeading(FormatWeekDate(day, month, false));
    assert h == "<h2>w/e " + x + "/" + y + "</h2>";
    if i + 18 <= |s| {
      var t := s[i..i + 18];
      // the offset at which the page's text breaks the padded pattern
      var j := if day < 10 then 9 else if day < 100 then 12 else 10;
      assert j < |h|;
      assert t[j] == s[i + j] == s[i..i + |h|][j] == h[j];
      if day < 10 {
        assert h[9] == '/';
      } else if day < 100 {
        assert h[12] == '<';
      } else {
        assert IsDigit(h[10]);
      }
    }
  }

  /** A heading written for a formatted date contains no line break. */
  lemma WeekHeadingHasNoNewline(day: nat, month: nat, padded: bool)
    ensures '\n' !in WeekHeading(FormatWeekDate(day, month, padded))
  {
    var d := FormatWeekDate(day, month, padded);
    assert forall k :: 0 <= k < |d| ==> d[k] != '\n' by {
      var x, y := DigitsOf(day, padded), DigitsOf(month, padded);
      assert d == x + "/" + y;
    }
  }

  /** The first occurrence of the new heading is the inserted one, when the section did not
      contain it before. */
  lemma InsertedHeadingIsFirst(content: string, pos: nat, date: string, name: string, formatted: string)
    requires pos <= |content| && !Contains(content, WeekHeading(date)) && '\n' !in WeekHeading(date)
    ensures Find(content[..pos] + NewWeekBlock(date, name, formatted) + content[pos..], WeekHeading(date))
            == Some(pos + 1)
  {
    var h := WeekHeading(date);
    var r := content[..pos] + NewWeekBlock(date, name, formatted) + content[pos..];
    ContainsIff(content, h);
    assert r[pos] == '\n';
    forall q | 0 <= q < pos + 1 ensures !PrefixAt(r, q, h) {
      if q + |h| <= pos {
        assert r[q..q + |h|] == content[q..q + |h|];
        assert !PrefixAt(content, q, h);
      } else if q + |h| <= |r| {
        assert r[q..q + |h|][pos - q] == r[pos];
        assert h[pos - q] != '\n';
      }
    }
    assert r[pos + 1..pos + 1 + |h|] == h;
    FindIs(r, h, pos + 1);
  }

  /** The block inserted at `pos`: the week heading right after its leading newline, then the
      user's heading line, with more text after it. */
  lemma NewWeekLayout(content: string, pos: nat, date: string, name: string, formatted: string)
    requires pos <= |content|
    ensures var r := content[..pos] + NewWeekBlock(date, name, formatted) + content[pos..];
            PrefixAt(r, pos + 1 + |WeekHeading(date)|, "\n" + UserHeading(name))
            && pos + 1 + |WeekHeading(date)| + |UserHeading(name)| + 1 < |r|
  {
    var h := WeekHeading(date);
    var line := "\n" + UserHeading(name);
    var rest := "\n" + formatted + "\n" + content[pos..];
    var r := content[..pos] + NewWeekBlock(date, name, formatted) + content[pos..];
    assert r == content[..pos] + "\n" + h + line + rest;
    assert r[pos + 1 + |h|..pos + 1 + |h| + |line|] == line;
  }

  /** After a new week is added in the format the lookup tries first, the lookup reports the
      user as present in that week, so a second identical merge is skipped. */
  lemma AddedWeekIsReported(content: string, day: nat, month: nat, fmt: DateFormat, formatted: string, name: string, leapYear: bool)
    requires !Contains(content, WeekHeading(FormatWeekDate(day, month, FirstTriedPadded(fmt))))
    requires ValidDate(MonthDay(month, day), leapYear) && '<' !in name
    ensures var date := FormatWeekDate(day, month, FirstTriedPadded(fmt));
            var r := AddNewWeek(content, date, formatted, name, leapYear);
            r.Ok? && CheckContentExists(r.value, date, fmt, name) == Ok(Existence(true, true))
  {
    var date := FormatWeekDate(day, month, FirstTriedPadded(fmt));
    ParseFormatWeekDate(day, month, FirstTriedPadded(fmt));
    var pos := InsertPos(content, MonthDay(month, day), leapYear);
    var r := content[..pos] + NewWeekBlock(date, name, formatted) + content[pos..];
    assert AddNewWeek(content, date, formatted, name, leapYear) == Ok(r);
    WeekHeadingHasNoNewline(day, month, FirstTriedPadded(fmt));
    InsertedHeadingIsFirst(content, pos, date, name, formatted);
    NewWeekLayout(content, pos, date, name, formatted);
    UserFoundAfterHeading(r, date, name, pos + 1);
  }
}
