/** The merge itself: `_determine_status_message`, `add_content_to_sections`,
    `prepare_updated_content` and the batch fold of `fill_in_missing_weeks`. */
module Merge {
  import opened Basics
  import opened Text
  import opened Dates
  import opened Markup
  import opened Locate
  import opened Splice
  import opened NewWeek
  import opened Sections
  import opened Extract

  // ---------------------------------------------------------------------------
  // Status

  /** What a merge does, in the priority order `_determine_status_message` checks. */
  datatype Outcome = Replaced | AlreadyExists | AddedToWeek | AddedWeek | AddedMonth

  /** The flags decide the outcome: replace beats skip, skip beats appending to a week,
      appending beats a new week, and a new month comes last. */
  function Classify(userExists: bool, weekExists: bool, monthExists: bool, replace: bool): (o: Outcome)
    ensures o == Replaced <==> userExists && replace
    ensures o == AlreadyExists <==> userExists && !replace
    ensures o == AddedToWeek <==> !userExists && weekExists
    ensures o == AddedWeek <==> !userExists && !weekExists && monthExists
    ensures o == AddedMonth <==> !userExists && !weekExists && !monthExists
  {
    if userExists && replace then Replaced
    else if userExists then AlreadyExists
    else if weekExists then AddedToWeek
    else if monthExists then AddedWeek
    else AddedMonth
  }

  function StatusText(o: Outcome, month: string, date: string): string {
    match o
    case Replaced => "Replaced existing report for week ending " + date + "."
    case AlreadyExists => "Report already exists for week ending " + date + "."
    case AddedToWeek => "Added report to existing week ending " + date + "."
    case AddedWeek => "Added new week ending " + date + "."
    case AddedMonth => "Added new month '" + month + "'."
  }

  /** `_determine_status_message(month, week_end_date, user_exists, week_exists, month_exists, replace)`. */
  function DetermineStatusMessage(month: string, date: string, userExists: bool, weekExists: bool,
                                  monthExists: bool, replace: bool): (r: string)
    ensures userExists && replace ==> r == "Replaced existing report for week ending " + date + "."
    ensures userExists && !replace ==> r == "Report already exists for week ending " + date + "."
    ensures !userExists && weekExists ==> r == "Added report to existing week ending " + date + "."
    ensures !userExists && !weekExists && monthExists ==> r == "Added new week ending " + date + "."
    ensures !userExists && !weekExists && !monthExists ==> r == "Added new month '" + month + "'."
  {
    StatusText(Classify(userExists, weekExists, monthExists, replace), month, date)
  }

  /** The status names the outcome: different outcomes never print the same message. */
  lemma StatusIdentifiesOutcome(o1: Outcome, o2: Outcome, month: string, date: string)
    requires StatusText(o1, month, date) == StatusText(o2, month, date)
    ensures o1 == o2
  {
    StatusOpening(o1, month, date);
    StatusOpening(o2, month, date);
  }

  /** The first eleven characters of each message. */
  lemma StatusOpening(o: Outcome, month: string, date: string)
    ensures |StatusText(o, month, date)| >= 11
    ensures StatusText(o, month, date)[..11]
            == match o
               case Replaced => "Replaced ex"
               case AlreadyExists => "Report alre"
               case AddedToWeek => "Added repor"
               case AddedWeek => "Added new w"
               case AddedMonth => "Added new m"
  {
    var t := StatusText(o, month, date);
    match o
    case Replaced => assert t[..11] == "Replaced existing report for week ending "[..11];
    case AlreadyExists => assert t[..11] == "Report already exists for week ending "[..11];
    case AddedToWeek => assert t[..11] == "Added report to existing week ending "[..11];
    case AddedWeek => assert t[..11] == "Added new week ending "[..11];
    case AddedMonth => assert t[..11] == "Added new month '"[..11];
  }

  // ---------------------------------------------------------------------------
  // add_content_to_sections

  /** `add_content_to_sections(sections, month, week_end_date, formatted_content, replace)` on a
      copy of the map. `Err` where Python raises: the lookup's date does not parse, or the new
      week's date does not exist in the year. */
  function AddContent(sections: SectionMap, month: string, date: string, formatted: string, replace: bool,
                      fmt: DateFormat, name: string, leapYear: bool): (r: Result<SectionMap>)
    requires Valid(sections)
    ensures r.Ok? ==> Valid(r.value) && month in r.value.text
    ensures r.Ok? ==> forall k :: k != month ==> (k in r.value.text <==> k in sections.text)
    ensures r.Ok? ==> forall k :: k != month && k in sections.text ==> r.value.text[k] == sections.text[k]
    ensures r.Ok? ==> r.value.keys == if month in sections.text then sections.keys else sections.keys + [month]
    ensures month !in sections.text ==> r == Ok(Put(sections, month, NewMonthBlock(month, date, name, formatted)))
    ensures r.Err? ==> month in sections.text
  {
    if month !in sections.text then Ok(Put(sections, month, NewMonthBlock(month, date, name, formatted)))
    else
      var section := sections.text[month];
      match CheckContentExists(section, date, fmt, name)
      case Err(e) => Err(e)
      case Ok(ex) =>
        if ex.userExists && replace then Ok(Put(sections, month, ReplaceUserContent(section, date, formatted, name)))
        else if ex.userExists then Ok(sections)
        else if ex.weekExists then Ok(Put(sections, month, AddToExistingWeek(section, date, formatted, name)))
        else
          match AddNewWeek(section, date, formatted, name, leapYear)
          case Err(e) => Err(e)
          case Ok(updated) => Ok(Put(sections, month, updated))
  }

  lemma PutSame(m: SectionMap, k: string)
    requires Valid(m) && k in m.text
    ensures Put(m, k, m.text[k]) == m
  {
  }

  /** The month line of a new month block holds no week heading when the month name has no `<`. */
  lemma MonthLineHasNoWeekHeading(month: string, date: string)
    requires '<' !in month
    ensures !Contains("\n" + MonthHeading(month), WeekHeading(date))
  {
    var s := "\n" + MonthHeading(month);
    var h := WeekHeading(date);
    assert |s| == 10 + |month|;
    assert forall j :: 1 <= j < 5 ==> s[j] == "<h1>"[j - 1];
    assert forall j :: 5 <= j < 5 + |month| ==> s[j] == month[j - 5];
    assert forall j :: 5 + |month| <= j < |s| ==> s[j] == "</h1>"[j - 5 - |month|];
    forall q | 0 <= q <= |s| ensures !PrefixAt(s, q, h) {
      if q == 1 {
        assert s[q + 2] == '1';
      } else if q == 5 + |month| {
        assert s[q + 1] == '/';
      } else if q < |s| {
        assert s[q] != '<';
      }
      NotH2At(s, q);
      if PrefixAt(s, q, h) {
        PrefixOfPrefix(s, q, h, "<h2>");
      }
    }
    ContainsIff(s, h);
  }

  /** A new month block is a new week block written after the month line. */
  lemma NewMonthBlockIsWeekInsertion(month: string, date: string, name: string, formatted: string)
    ensures var s := "\n" + MonthHeading(month);
            NewMonthBlock(month, date, name, formatted) == s[..|s|] + NewWeekBlock(date, name, formatted) + s[|s|..]
  {
  }

  /** Right after a new month block is written, the lookup finds the user in it. */
  lemma NewMonthIsReported(month: string, day: nat, mon: nat, fmt: DateFormat, formatted: string, name: string)
    requires '<' !in month && '<' !in name
    ensures var date := FormatWeekDate(day, mon, FirstTriedPadded(fmt));
            CheckContentExists(NewMonthBlock(month, date, name, formatted), date, fmt, name)
            == Ok(Existence(true, true))
  {
    var date := FormatWeekDate(day, mon, FirstTriedPadded(fmt));
    NewMonthUserInWeek(month, day, mon, FirstTriedPadded(fmt), formatted, name);
    FoundFirstTriedIsReported(NewMonthBlock(month, date, name, formatted), day, mon, fmt, name);
  }

  /** In a new month block the week span of the written date holds the user heading. */
  lemma NewMonthUserInWeek(month: string, day: nat, mon: nat, padded: bool, formatted: string, name: string)
    requires '<' !in month && '<' !in name
    ensures var date := FormatWeekDate(day, mon, padded);
            var r := NewMonthBlock(month, date, name, formatted);
            var m := WeekMatch(r, date);
            m.Some? && Contains(r[m.value.0..m.value.1], UserHeading(name))
  {
    var date := FormatWeekDate(day, mon, padded);
    var s := "\n" + MonthHeading(month);
    var r := NewMonthBlock(month, date, name, formatted);
    MonthLineHasNoWeekHeading(month, date);
    WeekHeadingHasNoNewline(day, mon, padded);
    NewMonthBlockIsWeekInsertion(month, date, name, formatted);
    InsertedHeadingIsFirst(s, |s|, date, name, formatted);
    NewWeekLayout(s, |s|, date, name, formatted);
    UserFoundAfterHeading(r, date, name, |s| + 1);
  }

  /** Without `replace`, merging the same report a second time changes nothing: the first
      merge leaves the user findable in the week (in the format the lookup tries first), or,
      where only the other format's heading existed, leaves the section as it was. */
  lemma AddContentIdempotent(sections: SectionMap, month: string, day: nat, mon: nat, formatted: string,
                             fmt: DateFormat, name: string, leapYear: bool)
    requires Valid(sections) && '<' !in month && '<' !in name
    requires AddContent(sections, month, FormatWeekDate(day, mon, FirstTriedPadded(fmt)), formatted, false, fmt, name, leapYear).Ok?
    ensures var date := FormatWeekDate(day, mon, FirstTriedPadded(fmt));
            var once := AddContent(sections, month, date, formatted, false, fmt, name, leapYear).value;
            AddContent(once, month, date, formatted, false, fmt, name, leapYear) == Ok(once)
  {
    var date := FormatWeekDate(day, mon, FirstTriedPadded(fmt));
    var once := AddContent(sections, month, date, formatted, false, fmt, name, leapYear).value;
    ParseFormatWeekDate(day, mon, FirstTriedPadded(fmt));
    if month !in sections.text {
      NewMonthIsReported(month, day, mon, fmt, formatted, name);
    } else {
      var section := sections.text[month];
      var ex := CheckContentExists(section, date, fmt, name).value;
      if ex.userExists {
      } else if ex.weekExists {
        if Contains(section, WeekHeading(date)) {
          AddedUserIsReported(section, day, mon, fmt, formatted, name);
        } else {
          PutSame(sections, month);
          assert once == sections;
        }
      } else {
        AddedWeekIsReported(section, day, mon, fmt, formatted, name, leapYear);
      }
    }
  }

  /** A July section that starts with its month heading, then an empty `1/7` week, then the
      `01/07` week. */
  predicate JulyLead(s: string) {
    |s| >= 47 && s[..13] == "<h1>July</h1>" && s[13..29] == "<h2>w/e 1/7</h2>"
    && s[29..47] == "<h2>w/e 01/07</h2>"
  }

  /** The restriction of `AddContentIdempotent` to the first-tried format is needed. While the
      format is unset (`post_report` on a fresh object) the date is written padded, `01/07`,
      but looked up unpadded first: in a July section whose empty `1/7` week precedes its
      `01/07` week, the lookup settles on the `1/7` span each time, never sees the user, and
      every merge appends one more entry under `01/07`. */
  lemma AddContentTwiceDiffersWhenUnset(sections: SectionMap, formatted: string, name: string, leapYear: bool)
    requires Valid(sections) && "July" in sections.text && JulyLead(sections.text["July"])
    ensures var once := AddContent(sections, "July", "01/07", formatted, false, Unset, name, leapYear);
            once.Ok? && AddContent(once.value, "July", "01/07", formatted, false, Unset, name, leapYear) != once
  {
    var s0 := sections.text["July"];
    var ub := UserBlock(name, formatted);
    MergeUnderPadded(sections, formatted, name, leapYear);
    var once := Put(sections, "July", s0[..47] + ub + s0[47..]);
    InsertKeepsLead(s0, ub);
    MergeUnderPadded(once, formatted, name, leapYear);
  }

  lemma InsertKeepsLead(s: string, ub: string)
    requires JulyLead(s) && |ub| > 0
    ensures var t := s[..47] + ub + s[47..];
            JulyLead(t) && |t[..47] + ub + t[47..]| != |t|
  {
    var t := s[..47] + ub + s[47..];
    assert t[..47] == s[..47];
    assert t[..13] == s[..13] && t[13..29] == s[13..29] && t[29..47] == s[29..47];
  }

  /** The page `<h1>July</h1><h2>w/e 1/7</h2><h2>w/e 01/07</h2>` is split by
      `extract_month_sections` into one July section, the whole page, which has that shape. */
  lemma ExtractedJulySection(p: string)
    requires p == "<h1>July</h1>" + "<h2>w/e 1/7</h2>" + "<h2>w/e 01/07</h2>"
    ensures var m := MonthSectionsOf(p);
            Valid(m) && "July" in m.text && m.text["July"] == p && JulyLead(p)
  {
    JulyPageParts(p);
    JulyHeadingAtStart(p);
    NoMonthHeadingAfterStart(p);
    MonthSectionsOfSpec(p);
    MonthIndexOfName(6);
    assert IsMonthName("July");
    assert p[0..|p|] == p;
  }

  lemma JulyPageParts(p: string)
    requires p == "<h1>July</h1>" + "<h2>w/e 1/7</h2>" + "<h2>w/e 01/07</h2>"
    ensures |p| == 47 && JulyLead(p)
  {
    var a, b, c := "<h1>July</h1>", "<h2>w/e 1/7</h2>", "<h2>w/e 01/07</h2>";
    var ab := a + b;
    assert |a| == 13 && |b| == 16 && |c| == 18;
    assert p == ab + c && p[..29] == ab && p[29..] == c;
    assert ab[..13] == a && ab[13..] == b;
    SliceOfSlice(p, 0, 29, 13, 29);
  }

  lemma JulyHeadingAtStart(p: string)
    requires |p| >= 13 && p[..13] == "<h1>July</h1>"
    ensures NamedAt(p, 0, "July")
  {
    var lead := p[..13];
    assert p[0..4] == lead[..4] && p[8..13] == lead[8..13] && p[4..8] == lead[4..8];
    assert forall x :: 4 <= x < 8 ==> p[x] == lead[x];
    MonthMatchAtComplete(p, 0, 8);
  }

  /** Past its first character the page holds no `<h1>`, so the July section runs to the end. */
  lemma NoMonthHeadingAfterStart(p: string)
    requires |p| == 47 && JulyLead(p)
    ensures forall y :: 0 < y <= |p| ==> !NamedAt(p, y, "July")
    ensures MonthMatchAt(p, 0).Some? ==> SectionEnd(p, 0) == |p|
  {
    NoH1InMonthLine(p);
    NoH1InWeekLine(p, 13, "<h2>w/e 1/7</h2>");
    NoH1InWeekLine(p, 29, "<h2>w/e 01/07</h2>");
    assert p[46] == p[29..47][17];
    forall x | 0 < x < |p| ensures !StopsAt(p, x, BeforeH1) {
      assert !PrefixAt(p, x, "<h1>");
    }
    forall y | 0 < y <= |p| ensures !NamedAt(p, y, "July") {
      if y < |p| {
        assert !PrefixAt(p, y, "<h1>");
      }
    }
  }

  lemma NoH1InMonthLine(p: string)
    requires |p| >= 13 && p[..13] == "<h1>July</h1>"
    ensures forall y :: 0 < y < 13 ==> !PrefixAt(p, y, "<h1>")
  {
    forall y | 0 < y < 13 ensures !PrefixAt(p, y, "<h1>") {
      if y + 4 <= |p| {
        var k := if y == 8 then 1 else 0;
        assert p[y + k] == p[..13][y + k];
        assert p[y..y + 4][k] == p[y + k];
      }
    }
  }

  /** A week heading holds `<` only where `<h2>` and `</h2>` begin, so no `<h1>` starts in it. */
  lemma NoH1InWeekLine(p: string, o: nat, x: string)
    requires x == "<h2>w/e 1/7</h2>" || x == "<h2>w/e 01/07</h2>"
    requires o + |x| <= |p| && p[o..o + |x|] == x
    ensures forall y :: o <= y < o + |x| ==> !PrefixAt(p, y, "<h1>")
  {
    assert x[1] == 'h' && x[2] == '2' && x[|x| - 4] == '/';
    assert forall j :: 0 < j < |x| && j != |x| - 5 ==> x[j] != '<';
    forall y | o <= y < o + |x| ensures !PrefixAt(p, y, "<h1>") {
      if y + 4 <= |p| {
        var j := y - o;
        var k := if j == 0 then 2 else if j == |x| - 5 then 1 else 0;
        assert x[j + k] != "<h1>"[k];
        assert p[y + k] == x[j + k];
        assert p[y..y + 4][k] == p[y + k];
      }
    }
  }

  /** One merge of the `01/07` report into such a July section, with the format unset. */
  lemma MergeUnderPadded(sections: SectionMap, formatted: string, name: string, leapYear: bool)
    requires Valid(sections) && "July" in sections.text && JulyLead(sections.text["July"])
    ensures var s := sections.text["July"];
            AddContent(sections, "July", "01/07", formatted, false, Unset, name, leapYear)
            == Ok(Put(sections, "July", s[..47] + UserBlock(name, formatted) + s[47..]))
  {
    StuckLookup(sections.text["July"], name);
    AppendUnderPadded(sections.text["July"], formatted, name);
  }

  lemma TokensOfFirstOfJuly()
    ensures FormatWeekDate(1, 7, false) == "1/7" && FormatWeekDate(1, 7, true) == "01/07"
    ensures ParseWeekDate("01/07") == Some((1, 7))
  {
    ParseFormatWeekDate(1, 7, true);
  }

  /** With the format unset, the lookup of `01/07` settles on the empty `1/7` span and misses
      the user. */
  lemma StuckLookup(s: string, name: string)
    requires JulyLead(s)
    ensures CheckContentExists(s, "01/07", Unset, name) == Ok(Existence(true, false))
  {
    TokensOfFirstOfJuly();
    EmptyUnpaddedSpan(s);
    assert MatchedWeek(s, 1, 7, Unset) == Some((13, 29));
    UserNotInUnpaddedHeading(name);
    assert s[13..29] == "<h2>w/e 1/7</h2>";
  }

  /** ... and `_add_to_existing_week` puts the entry under the `01/07` heading. */
  lemma AppendUnderPadded(s: string, formatted: string, name: string)
    requires JulyLead(s)
    ensures AddToExistingWeek(s, "01/07", formatted, name) == s[..47] + UserBlock(name, formatted) + s[47..]
  {
    assert WeekHeading("01/07") == "<h2>w/e 01/07</h2>";
    PaddedHeadingAfterUnpadded(s);
  }

  lemma EmptyUnpaddedSpan(s: string)
    requires JulyLead(s)
    ensures WeekMatch(s, "1/7") == Some((13, 29))
  {
    var lead := s[..29];
    assert lead == "<h1>July</h1><h2>w/e 1/7</h2>" by {
      assert lead[..13] == s[..13] && lead[13..29] == s[13..29];
    }
    var h := WeekHeading("1/7");
    assert h == s[13..29];
    forall q | 0 <= q < 13 ensures !PrefixAt(s, q, h) {
      var k := if q == 0 then 2 else if q == 8 then 1 else 0;
      assert s[q + k] == lead[q + k];
      assert lead[q + k] != h[k];
      assert s[q..q + 16][k] == s[q + k];
    }
    FindIs(s, h, 13);
    assert s[29..33] == s[29..47][..4];
    assert StopsAt(s, 29, BeforeH2);
  }

  /** `"<h2>w/e 1/7</h2>"` holds no `3`, so no user heading. */
  lemma UserNotInUnpaddedHeading(name: string)
    ensures !Contains("<h2>w/e 1/7</h2>", UserHeading(name))
  {
    var h, t := "<h2>w/e 1/7</h2>", UserHeading(name);
    assert t[2] == '3';
    forall q | 0 <= q <= |h| ensures !PrefixAt(h, q, t) {
      if q + |t| <= |h| {
        assert h[q + 2] != t[2];
        assert h[q..q + |t|][2] == h[q + 2];
      }
    }
    ContainsIff(h, t);
  }

  lemma PaddedHeadingAfterUnpadded(s: string)
    requires JulyLead(s)
    ensures Find(s, "<h2>w/e 01/07</h2>") == Some(29)
  {
    var lead := s[..29];
    assert lead == "<h1>July</h1><h2>w/e 1/7</h2>" by {
      assert lead[..13] == s[..13] && lead[13..29] == s[13..29];
    }
    var h2 := s[29..47];
    forall q | 0 <= q < 29 ensures !PrefixAt(s, q, h2) {
      var k := if q == 0 then 2 else if q == 8 then 1 else if q == 13 then 8 else if q == 24 then 1 else 0;
      assert s[q + k] == lead[q + k];
      assert lead[q + k] != h2[k];
      assert s[q..q + 18][k] == s[q + k];
    }
    FindIs(s, h2, 29);
  }

  // ---------------------------------------------------------------------------
  // prepare_updated_content

  /** `week_info`: the month name and the `D/M` token of the week's end. */
  datatype WeekInfo = WeekInfo(month: string, weekEndDate: string)

  /** `prepare_updated_content(current_content, formatted_content, week_info, replace)`,
      returning the new page and the status line. */
  function PrepareUpdated(current: string, formatted: string, info: WeekInfo, replace: bool,
                          fmt: DateFormat, name: string, leapYear: bool): (r: Result<(string, string)>)
    ensures r.Err? ==> r.error == MalformedWeekDate || info.month in MonthSectionsOf(current).text
    ensures ParseWeekDate(info.weekEndDate).None? ==> r == Err(MalformedWeekDate)
  {
    match CheckContentExists(current, info.weekEndDate, fmt, name)
    case Err(e) => Err(e)
    case Ok(ex) =>
      if ex.userExists && !replace then Ok((current, StatusText(AlreadyExists, info.month, info.weekEndDate)))
      else
        var sections := MonthSectionsOf(current);
        match AddContent(sections, info.month, info.weekEndDate, formatted, replace, fmt, name, leapYear)
        case Err(e) => Err(e)
        case Ok(updated) =>
          Ok((Regenerate(updated),
              DetermineStatusMessage(info.month, info.weekEndDate, ex.userExists, ex.weekExists,
                                     info.month in sections.text, replace)))
  }

  /** A report that is already on the page is not merged again without `replace`: the page
      comes back byte for byte, with the "already exists" status. */
  lemma PrepareSkipsExisting(current: string, formatted: string, info: WeekInfo, fmt: DateFormat, name: string, leapYear: bool)
    requires HasWeekForUser(current, info.weekEndDate, fmt, name) == Ok(true)
    ensures PrepareUpdated(current, formatted, info, false, fmt, name, leapYear)
            == Ok((current, "Report already exists for week ending " + info.weekEndDate + "."))
  {
  }

  /** The status line is the one the page-level lookup's flags select, and is never the
      "already exists" line when the page is rewritten; the rewritten page is the regenerated,
      merged section map. */
  lemma PrepareStatusFollowsFlags(current: string, formatted: string, info: WeekInfo, replace: bool,
                                  fmt: DateFormat, name: string, leapYear: bool)
    requires CheckContentExists(current, info.weekEndDate, fmt, name).Ok?
    requires PrepareUpdated(current, formatted, info, replace, fmt, name, leapYear).Ok?
    ensures var ex := CheckContentExists(current, info.weekEndDate, fmt, name).value;
            var sections := MonthSectionsOf(current);
            var (page, status) := PrepareUpdated(current, formatted, info, replace, fmt, name, leapYear).value;
            status == StatusText(Classify(ex.userExists, ex.weekExists, info.month in sections.text, replace),
                                 info.month, info.weekEndDate)
            && (status == StatusText(AlreadyExists, info.month, info.weekEndDate) <==> page == current && ex.userExists && !replace)
  {
    var ex := CheckContentExists(current, info.weekEndDate, fmt, name).value;
    var sections := MonthSectionsOf(current);
    var (page, status) := PrepareUpdated(current, formatted, info, replace, fmt, name, leapYear).value;
    if status == StatusText(AlreadyExists, info.month, info.weekEndDate) {
      StatusIdentifiesOutcome(Classify(ex.userExists, ex.weekExists, info.month in sections.text, replace),
                              AlreadyExists, info.month, info.weekEndDate);
    }
  }

  /** The dual-format lookup can find a week that the exact-string edit then misses: with the
      month's section written unpadded and the report dated padded, the status says the report
      was added to the existing week, yet the dictionary is left as it was, whatever the
      remembered format, the `replace` flag and the year. */
  lemma AlternateFormatWeekIsLeftUnchanged(sections: SectionMap, month: string, day: nat, mon: nat,
                                           formatted: string, replace: bool, fmt: DateFormat, name: string,
                                           leapYear: bool)
    requires Valid(sections) && month in sections.text
    requires Contains(sections.text[month], WeekHeading(FormatWeekDate(day, mon, false)))
    requires !Contains(sections.text[month], WeekHeading(FormatWeekDate(day, mon, true)))
    requires !Contains(sections.text[month], UserHeading(name))
    ensures var date := FormatWeekDate(day, mon, true);
            CheckContentExists(sections.text[month], date, fmt, name) == Ok(Existence(true, false))
            && AddContent(sections, month, date, formatted, replace, fmt, name, leapYear) == Ok(sections)
  {
    var section := sections.text[month];
    var date := FormatWeekDate(day, mon, true);
    ParseFormatWeekDate(day, mon, true);
    var m := WeekMatch(section, FormatWeekDate(day, mon, false)).value;
    ContainsSlice(section, m.0, m.1, UserHeading(name));
    ContainsIff(section, UserHeading(name));
    PutSame(sections, month);
  }

  // ---------------------------------------------------------------------------
  // The batch of fill_in_missing_weeks

  /** One collected week: `{'month', 'week_end_date', 'content'}`. */
  datatype WeekItem = WeekItem(month: string, weekEndDate: string, content: string)

  /** The loop `month_sections = add_content_to_sections(month_sections, ...)` over the items;
      an exception leaves the loop (and the batch) at once. */
  function Fold(sections: SectionMap, items: seq<WeekItem>, replace: bool, fmt: DateFormat, name: string,
                leapYear: bool): (r: Result<SectionMap>)
    requires Valid(sections)
    ensures r.Ok? ==> Valid(r.value)
    decreases |items|
  {
    if |items| == 0 then Ok(sections)
    else
      var it := items[0];
      match AddContent(sections, it.month, it.weekEndDate, it.content, replace, fmt, name, leapYear)
      case Err(e) => Err(e)
      case Ok(next) => Fold(next, items[1..], replace, fmt, name, leapYear)
  }

  /** A month that no item names passes through the batch untouched. */
  lemma {:induction false} FoldFrame(sections: SectionMap, items: seq<WeekItem>, replace: bool, fmt: DateFormat,
                                     name: string, leapYear: bool, k: string)
    requires Valid(sections)
    requires Fold(sections, items, replace, fmt, name, leapYear).Ok?
    requires forall j :: 0 <= j < |items| ==> items[j].month != k
    ensures var r := Fold(sections, items, replace, fmt, name, leapYear).value;
            (k in r.text <==> k in sections.text) && (k in sections.text ==> r.text[k] == sections.text[k])
    decreases |items|
  {
    if |items| > 0 {
      var it := items[0];
      var next := AddContent(sections, it.month, it.weekEndDate, it.content, replace, fmt, name, leapYear).value;
      assert it.month != k;
      assert forall j :: 0 <= j < |items[1..]| ==> items[1..][j].month != k by {
        forall j | 0 <= j < |items[1..]| ensures items[1..][j].month != k {
          assert items[1..][j] == items[j + 1];
        }
      }
      FoldFrame(next, items[1..], replace, fmt, name, leapYear, k);
    }
  }

  /** Every month an item names is in the map after the batch. */
  lemma {:induction false} FoldAddsMonths(sections: SectionMap, items: seq<WeekItem>, replace: bool, fmt: DateFormat,
                                          name: string, leapYear: bool, j: nat)
    requires Valid(sections) && j < |items|
    requires Fold(sections, items, replace, fmt, name, leapYear).Ok?
    ensures items[j].month in Fold(sections, items, replace, fmt, name, leapYear).value.text
    decreases |items|
  {
    var it := items[0];
    var next := AddContent(sections, it.month, it.weekEndDate, it.content, replace, fmt, name, leapYear).value;
    if j > 0 {
      assert items[j] == items[1..][j - 1];
      FoldAddsMonths(next, items[1..], replace, fmt, name, leapYear, j - 1);
    } else {
      FoldKeeps(next, items[1..], replace, fmt, name, leapYear, it.month);
    }
  }

  /** The batch removes no key. */
  lemma {:induction false} FoldKeeps(sections: SectionMap, items: seq<WeekItem>, replace: bool, fmt: DateFormat,
                                     name: string, leapYear: bool, k: string)
    requires Valid(sections) && k in sections.text
    requires Fold(sections, items, replace, fmt, name, leapYear).Ok?
    ensures k in Fold(sections, items, replace, fmt, name, leapYear).value.text
    decreases |items|
  {
    if |items| > 0 {
      var it := items[0];
      var next := AddContent(sections, it.month, it.weekEndDate, it.content, replace, fmt, name, leapYear).value;
      FoldKeeps(next, items[1..], replace, fmt, name, leapYear, k);
    }
  }

  /** What the Toggl fetch gave for one week: the formatted report, no time entries, or an
      exception from the fetch or the formatting, which the first pass catches and logs. */
  datatype Fetched = Records(formatted: string) | NoRecords | FetchFailed

  /** One week of the first pass: its `get_week_info_from_date` and its fetch. */
  datatype Candidate = Candidate(info: WeekInfo, fetched: Fetched)

  function ItemOf(c: Candidate): WeekItem
    requires c.fetched.Records?
  {
    WeekItem(c.info.month, c.info.weekEndDate, c.fetched.formatted)
  }

  /** The decision of the first pass for one week whose `has_week_for_user` gave `reported`
      (lines 761-787): kept when its fetch gave a report, unless the page already holds the
      user's report and `replace` is off. */
  predicate Keep(reported: Result<bool>, c: Candidate, replace: bool)
  {
    reported.Ok? && c.fetched.Records? && !(reported.value && !replace)
  }

  /** The first pass over the weeks in the order they are visited, given each week's
      `has_week_for_user` answer: the first `Err` ends the pass, as that call runs outside
      the `try`. */
  function Select(cands: seq<Candidate>, reports: seq<Result<bool>>, replace: bool): (r: Result<seq<WeekItem>>)
    requires |reports| == |cands|
    ensures r.Ok? ==> |r.value| <= |cands|
  {
    if |cands| == 0 then Ok([])
    else if reports[0].Err? then Err(reports[0].error)
    else
      var rest := Select(cands[1..], reports[1..], replace);
      if rest.Err? then rest
      else if Keep(reports[0], cands[0], replace) then Ok([ItemOf(cands[0])] + rest.value)
      else rest
  }

  /** The first pass of `fill_in_missing_weeks` (lines 753-791) on the page `existing`. */
  function Collect(existing: string, cands: seq<Candidate>, replace: bool, fmt: DateFormat, name: string)
    : (r: Result<seq<WeekItem>>)
    ensures r.Ok? ==> |r.value| <= |cands|
  {
    Select(cands, Reports(existing, cands, fmt, name), replace)
  }

  function Reports(existing: string, cands: seq<Candidate>, fmt: DateFormat, name: string): (r: seq<Result<bool>>)
    ensures |r| == |cands|
  {
    seq(|cands|, j requires 0 <= j < |cands| => HasWeekForUser(existing, cands[j].info.weekEndDate, fmt, name))
  }

  lemma {:induction false} SelectOk(cands: seq<Candidate>, reports: seq<Result<bool>>, replace: bool)
    requires |reports| == |cands|
    ensures Select(cands, reports, replace).Ok? <==> forall j :: 0 <= j < |reports| ==> reports[j].Ok?
  {
    if |cands| > 0 {
      SelectOk(cands[1..], reports[1..], replace);
      assert forall j :: 1 <= j < |reports| ==> reports[j] == reports[1..][j - 1];
    }
  }

  /** The `k`-th selected item is the item of a week `j` that is kept. */
  lemma {:induction false} SelectSound(cands: seq<Candidate>, reports: seq<Result<bool>>, replace: bool, k: nat)
    returns (j: nat)
    requires |reports| == |cands| && Select(cands, reports, replace).Ok?
    requires k < |Select(cands, reports, replace).value|
    ensures j < |cands| && Keep(reports[j], cands[j], replace)
    ensures Select(cands, reports, replace).value[k] == ItemOf(cands[j])
  {
    var rest := Select(cands[1..], reports[1..], replace);
    if Keep(reports[0], cands[0], replace) && k == 0 {
      j := 0;
    } else {
      var i := if Keep(reports[0], cands[0], replace) then k - 1 else k;
      var j' := SelectSound(cands[1..], reports[1..], replace, i);
      assert cands[1..][j'] == cands[j' + 1] && reports[1..][j'] == reports[j' + 1];
      j := j' + 1;
    }
  }

  /** Every week that is kept has its item selected. */
  lemma {:induction false} SelectComplete(cands: seq<Candidate>, reports: seq<Result<bool>>, replace: bool, j: nat)
    requires |reports| == |cands| && Select(cands, reports, replace).Ok?
    requires j < |cands| && Keep(reports[j], cands[j], replace)
    ensures ItemOf(cands[j]) in Select(cands, reports, replace).value
  {
    if j > 0 {
      SelectComplete(cands[1..], reports[1..], replace, j - 1);
      assert cands[1..][j - 1] == cands[j] && reports[1..][j - 1] == reports[j];
    }
  }

  /** The items collected so far in front of what the rest of the pass gives. */
  function Prefixed(items: seq<WeekItem>, r: Result<seq<WeekItem>>): Result<seq<WeekItem>>
  {
    if r.Err? then r else Ok(items + r.value)
  }

  lemma PrefixedEmpty(r: Result<seq<WeekItem>>)
    ensures Prefixed([], r) == r
  {
    if r.Ok? {
      assert [] + r.value == r.value;
    }
  }

  /** One week of the pass, for a loop that has collected `items` before week `i`. */
  lemma SelectAt(cands: seq<Candidate>, reports: seq<Result<bool>>, replace: bool, i: nat, items: seq<WeekItem>)
    requires |reports| == |cands| && i < |cands|
    ensures reports[i].Err? ==> Prefixed(items, Select(cands[i..], reports[i..], replace)) == Err(reports[i].error)
    ensures reports[i].Ok? ==>
              Prefixed(items, Select(cands[i..], reports[i..], replace))
              == Prefixed(if Keep(reports[i], cands[i], replace) then items + [ItemOf(cands[i])] else items,
                          Select(cands[i + 1..], reports[i + 1..], replace))
  {
    assert cands[i..][1..] == cands[i + 1..] && reports[i..][1..] == reports[i + 1..];
    var rest := Select(cands[i + 1..], reports[i + 1..], replace);
    if rest.Ok? && Keep(reports[i], cands[i], replace) {
      assert items + ([ItemOf(cands[i])] + rest.value) == items + [ItemOf(cands[i])] + rest.value;
    }
  }

  /** The first pass fails exactly on a week-ending date that does not parse. */
  lemma CollectOk(existing: string, cands: seq<Candidate>, replace: bool, fmt: DateFormat, name: string)
    ensures Collect(existing, cands, replace, fmt, name).Ok?
            <==> forall j :: 0 <= j < |cands| ==> ParseWeekDate(cands[j].info.weekEndDate).Some?
  {
    var reports := Reports(existing, cands, fmt, name);
    SelectOk(cands, reports, replace);
    assert forall j :: 0 <= j < |cands| ==> reports[j] == HasWeekForUser(existing, cands[j].info.weekEndDate, fmt, name);
  }

  /** Every collected item is the report of a week whose date parses and whose fetch gave
      records, and without `replace` the page does not yet hold the user's report for it. */
  lemma CollectSound(existing: string, cands: seq<Candidate>, replace: bool, fmt: DateFormat, name: string, k: nat)
    returns (j: nat)
    requires Collect(existing, cands, replace, fmt, name).Ok?
    requires k < |Collect(existing, cands, replace, fmt, name).value|
    ensures j < |cands| && cands[j].fetched.Records? && ParseWeekDate(cands[j].info.weekEndDate).Some?
    ensures replace || HasWeekForUser(existing, cands[j].info.weekEndDate, fmt, name) == Ok(false)
    ensures Collect(existing, cands, replace, fmt, name).value[k] == ItemOf(cands[j])
  {
    j := SelectSound(cands, Reports(existing, cands, fmt, name), replace, k);
  }

  /** Every week whose fetch gave records is collected when `replace` is on or the page does not
      yet hold the user's report for it. */
  lemma CollectComplete(existing: string, cands: seq<Candidate>, replace: bool, fmt: DateFormat, name: string, j: nat)
    requires Collect(existing, cands, replace, fmt, name).Ok?
    requires j < |cands| && cands[j].fetched.Records?
    requires replace || HasWeekForUser(existing, cands[j].info.weekEndDate, fmt, name) == Ok(false)
    ensures ItemOf(cands[j]) in Collect(existing, cands, replace, fmt, name).value
  {
    var reports := Reports(existing, cands, fmt, name);
    SelectOk(cands, reports, replace);
    SelectComplete(cands, reports, replace, j);
  }

  /** Without `replace`, no collected week is one where the page already holds the user's report. */
  lemma CollectSkipsReported(existing: string, cands: seq<Candidate>, fmt: DateFormat, name: string)
    requires Collect(existing, cands, false, fmt, name).Ok?
    ensures var items := Collect(existing, cands, false, fmt, name).value;
            forall k :: 0 <= k < |items| ==> HasWeekForUser(existing, items[k].weekEndDate, fmt, name) == Ok(false)
  {
    var items := Collect(existing, cands, false, fmt, name).value;
    forall k | 0 <= k < |items| ensures HasWeekForUser(existing, items[k].weekEndDate, fmt, name) == Ok(false) {
      var j := CollectSound(existing, cands, false, fmt, name, k);
    }
  }

  /** What the batch step of `fill_in_missing_weeks` ends with. */
  datatype BatchOutcome =
    | NothingToUpdate                           // no week was collected
    | Failed(error: Failure)                    // an exception, caught and logged; nothing is saved
    | Updated(content: string, save: bool)      // the final page, and whether it differs from the current one

  /** Lines 796-834 without the fetch and the save: extract once, fold, regenerate once. */
  function Batch(current: string, items: seq<WeekItem>, replace: bool, fmt: DateFormat, name: string,
                 leapYear: bool): (r: BatchOutcome)
    ensures r == NothingToUpdate <==> |items| == 0
    ensures r.Updated? ==> (r.save <==> r.content != current)
  {
    if |items| == 0 then NothingToUpdate
    else
      match Fold(MonthSectionsOf(current), items, replace, fmt, name, leapYear)
      case Err(e) => Failed(e)
      case Ok(m) =>
        var final := Regenerate(m);
        Updated(final, final != current)
  }

  /** A batch of one week is one `add_content_to_sections` on the extracted sections. */
  lemma BatchOfOne(current: string, item: WeekItem, replace: bool, fmt: DateFormat, name: string, leapYear: bool)
    ensures var a := AddContent(MonthSectionsOf(current), item.month, item.weekEndDate, item.content, replace, fmt, name, leapYear);
            Batch(current, [item], replace, fmt, name, leapYear)
            == if a.Err? then Failed(a.error) else Updated(Regenerate(a.value), Regenerate(a.value) != current)
  {
    var a := AddContent(MonthSectionsOf(current), item.month, item.weekEndDate, item.content, replace, fmt, name, leapYear);
    assert [item][1..] == [];
    if a.Ok? {
      assert Fold(MonthSectionsOf(current), [item], replace, fmt, name, leapYear) == Fold(a.value, [], replace, fmt, name, leapYear);
    }
  }

  /** A batch of one week writes the page a single `prepare_updated_content` would, whenever
      that call does not return early. */
  lemma BatchOfOneIsPrepare(current: string, item: WeekItem, replace: bool, fmt: DateFormat, name: string, leapYear: bool)
    requires CheckContentExists(current, item.weekEndDate, fmt, name).Ok?
    requires !(CheckContentExists(current, item.weekEndDate, fmt, name).value.userExists && !replace)
    ensures var p := PrepareUpdated(current, item.content, WeekInfo(item.month, item.weekEndDate), replace, fmt, name, leapYear);
            var b := Batch(current, [item], replace, fmt, name, leapYear);
            (p.Ok? <==> b.Updated?)
            && (p.Ok? ==> b.content == p.value.0 && (b.save <==> p.value.0 != current))
  {
    BatchOfOne(current, item, replace, fmt, name, leapYear);
  }
}
