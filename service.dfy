/** `ConfluenceService` as an object: the display name it writes and the date format it
    detects and remembers, with the merge operations as methods. The page text is handed in;
    fetching and saving it is not part of this model. */
module Service {
  import opened Basics
  import opened Text
  import opened Dates
  import opened Markup
  import opened Detect
  import opened Locate
  import opened Splice
  import opened NewWeek
  import opened Sections
  import opened Extract
  import opened Merge

  /** `display_name or username or 'Andres'`: an absent or empty name falls through. */
  function ChooseDisplayName(username: string, displayName: Option<string>): (r: string)
    ensures |r| > 0
    ensures displayName.Some? && |displayName.value| > 0 ==> r == displayName.value
    ensures (displayName.None? || displayName.value == "") && |username| > 0 ==> r == username
    ensures (displayName.None? || displayName.value == "") && username == "" ==> r == "Andres"
  {
    if displayName.Some? && |displayName.value| > 0 then displayName.value
    else if |username| > 0 then username
    else "Andres"
  }

  /** The `finditer` loop of `_add_new_week` collecting `(date, position)` for every padded
      heading whose date exists in the year. */
  method CollectWeeks(content: string, leapYear: bool) returns (weeks: seq<Week>)
    ensures weeks == WeeksFrom(content, 0, leapYear)
  {
    weeks := [];
    var i := 0;
    while i + 18 <= |content|
      invariant 0 <= i <= |content|
      invariant weeks + WeeksFrom(content, i, leapYear) == WeeksFrom(content, 0, leapYear)
      decreases |content| - i
    {
      if PaddedHeadingAt(content, i) {
        var d := HeadingDate(content, i);
        if ValidDate(d, leapYear) {
          weeks := weeks + [Week(d, i)];
        }
        i := i + 18;
      } else {
        i := i + 1;
      }
    }
    assert weeks + [] == weeks;
  }

  /** The sort by date, newest first, and the search for the first week before `nd`, as one
      pass keeping the latest earlier week seen so far (the first of equal dates). */
  method PickLatestEarlier(weeks: seq<Week>, nd: MonthDay) returns (best: Option<nat>)
    ensures best == LatestEarlier(weeks, nd)
  {
    best := None;
    var k := 0;
    while k < |weeks|
      invariant 0 <= k <= |weeks|
      invariant best == LatestEarlier(weeks[..k], nd)
    {
      assert weeks[..k + 1][..k] == weeks[..k];
      if Before(weeks[k].date, nd) && (best.None? || Before(weeks[best.value].date, weeks[k].date)) {
        best := Some(k);
      }
      k := k + 1;
    }
    assert weeks[..k] == weeks;
  }

  class ConfluenceService {
    const displayName: string
    var dateFormat: DateFormat

    /** `__init__`: no format is known until a page has been read. */
    constructor (username: string, displayNameArg: Option<string>)
      ensures displayName == ChooseDisplayName(username, displayNameArg)
      ensures dateFormat == Unset
    {
      displayName := ChooseDisplayName(username, displayNameArg);
      dateFormat := Unset;
    }

    /** `_detect_date_format(content)`: search for the first heading with a one-digit day or
        month; unpadded if there is one, padded otherwise. */
    method DetectDateFormat(content: string)
      modifies this
      ensures dateFormat == (if UsesUnpaddedDates(content) then Unpadded else Padded)
    {
      var i := 0;
      var found := false;
      while i < |content| && !found
        invariant 0 <= i <= |content|
        invariant found ==> UsesUnpaddedDates(content)
        invariant !found ==> forall j :: 0 <= j < i ==> !UnpaddedHeadingAt(content, j)
        decreases |content| - i, if found then 0 else 1
      {
        if UnpaddedHeadingAt(content, i) {
          found := true;
        } else {
          i := i + 1;
        }
      }
      dateFormat := if found then Unpadded else Padded;
    }

    /** `get_existing_content` on an already fetched page: detection runs only while no
        format is known, so the first page read fixes it. */
    method GetExistingContent(page: string) returns (content: string)
      modifies this
      ensures content == page
      ensures old(dateFormat) != Unset ==> dateFormat == old(dateFormat)
      ensures old(dateFormat) == Unset ==> dateFormat == (if UsesUnpaddedDates(page) then Unpadded else Padded)
    {
      if dateFormat == Unset {
        DetectDateFormat(page);
      }
      content := page;
    }

    /** `has_week_for_user(content, week_end_date)`, the method on the object: it reads the
        object's remembered format and display name and passes them to the pure lookup
        `Locate.HasWeekForUser`, which mirrors the same method with those two made parameters. */
    function HasWeekForUser(content: string, weekEndDate: string): (r: Result<bool>)
      reads this
      ensures r == Locate.HasWeekForUser(content, weekEndDate, dateFormat, displayName)
      ensures r.Ok? <==> ParseWeekDate(weekEndDate).Some?
    {
      Locate.HasWeekForUser(content, weekEndDate, dateFormat, displayName)
    }

    /** `extract_month_sections(content)`: the `finditer` loop filling the dictionary. */
    method ExtractMonthSections(content: string) returns (sections: SectionMap)
      ensures sections == MonthSectionsOf(content)
    {
      sections := Empty();
      var i := 0;
      while i < |content|
        invariant 0 <= i <= |content| && Valid(sections)
        invariant ScanFrom(content, i, sections) == MonthSectionsOf(content)
        decreases |content| - i
      {
        match MonthMatchAt(content, i)
        case None =>
          i := i + 1;
        case Some((name, _)) =>
          var e := SectionEnd(content, i);
          if IsMonthName(name) {
            sections := Put(sections, name, content[i..e]);
          }
          i := e;
      }
    }

    /** `_add_new_week(content, week_end_date, formatted_content)`: collect the padded
        headings, then pick the latest one before the new date (as the stable descending sort
        followed by the first earlier week does). */
    method AddNewWeek(content: string, date: string, formatted: string, leapYear: bool) returns (r: Result<string>)
      ensures r == NewWeek.AddNewWeek(content, date, formatted, displayName, leapYear)
    {
      var parsed := ParseWeekDate(date);
      if parsed.None? {
        return Err(MalformedWeekDate);
      }
      var (day, month) := parsed.value;
      var nd := MonthDay(month, day);
      if !ValidDate(nd, leapYear) {
        return Err(InvalidCalendarDate);
      }
      var weeks := CollectWeeks(content, leapYear);
      var best := PickLatestEarlier(weeks, nd);
      var pos := if best.Some? then weeks[best.value].pos else DefaultPos(content);
      assert pos == InsertPos(content, nd, leapYear);
      r := Ok(content[..pos] + NewWeekBlock(date, displayName, formatted) + content[pos..]);
    }

    /** `add_content_to_sections(sections, month, week_end_date, formatted_content, replace)`. */
    method AddContentToSections(sections: SectionMap, month: string, date: string, formatted: string,
                                replace: bool, leapYear: bool) returns (r: Result<SectionMap>)
      requires Valid(sections)
      ensures r == AddContent(sections, month, date, formatted, replace, dateFormat, displayName, leapYear)
    {
      var updated := sections;
      if month in updated.text {
        var section := updated.text[month];
        var check := CheckContentExists(section, date, dateFormat, displayName);
        if check.Err? {
          return Err(check.error);
        }
        var ex := check.value;
        if ex.userExists && replace {
          updated := Put(updated, month, ReplaceUserContent(section, date, formatted, displayName));
        } else if ex.userExists {
          return Ok(updated);
        } else if ex.weekExists {
          updated := Put(updated, month, AddToExistingWeek(section, date, formatted, displayName));
        } else {
          var added := AddNewWeek(section, date, formatted, leapYear);
          if added.Err? {
            return Err(added.error);
          }
          updated := Put(updated, month, added.value);
        }
      } else {
        updated := Put(updated, month, NewMonthBlock(month, date, displayName, formatted));
      }
      return Ok(updated);
    }

    /** `prepare_updated_content(current_content, formatted_content, week_info, replace)`. */
    method PrepareUpdatedContent(current: string, formatted: string, info: WeekInfo, replace: bool, leapYear: bool)
      returns (r: Result<(string, string)>)
      ensures r == PrepareUpdated(current, formatted, info, replace, dateFormat, displayName, leapYear)
    {
      var check := CheckContentExists(current, info.weekEndDate, dateFormat, displayName);
      if check.Err? {
        return Err(check.error);
      }
      var ex := check.value;
      if ex.userExists && !replace {
        return Ok((current, "Report already exists for week ending " + info.weekEndDate + "."));
      }
      var sections := ExtractMonthSections(current);
      var updated := AddContentToSections(sections, info.month, info.weekEndDate, formatted, replace, leapYear);
      if updated.Err? {
        return Err(updated.error);
      }
      var ordered := Regenerate(updated.value);
      var status := DetermineStatusMessage(info.month, info.weekEndDate, ex.userExists, ex.weekExists,
                                           info.month in sections.text, replace);
      return Ok((ordered, status));
    }

    /** `get_week_info_from_date(date)`: `strftime('%B')` and the `D/M` token, padded unless
        the remembered format is unpadded. */
    function GetWeekInfo(date: MonthDay): (w: WeekInfo)
      reads this
      requires 1 <= date.month <= 12 && 1 <= date.day <= 31
      ensures MonthIndex(w.month) == date.month - 1
      ensures ParseWeekDate(w.weekEndDate) == Some((date.day as nat, date.month as nat))
      ensures w.weekEndDate == FormatWeekDate(date.day, date.month, dateFormat != Unpadded)
    {
      MonthIndexOfName(date.month - 1);
      ParseFormatWeekDate(date.day, date.month, dateFormat != Unpadded);
      WeekInfo(MonthNames[date.month - 1], FormatWeekDate(date.day, date.month, dateFormat != Unpadded))
    }

    /** `post_report(formatted_content, date_range, replace)` on a fetched page: the new page,
        whether it is saved (only when it changed), and the status line. `post_report` does
        not run detection, so on a fresh object the format is still unknown here. */
    method PostReport(page: string, formatted: string, date: MonthDay, replace: bool, leapYear: bool)
      returns (r: Result<(string, bool, string)>)
      requires 1 <= date.month <= 12 && 1 <= date.day <= 31
      ensures var p := PrepareUpdated(page, formatted, GetWeekInfo(date), replace, dateFormat, displayName, leapYear);
              r == if p.Err? then Err(p.error) else Ok((p.value.0, p.value.0 != page, p.value.1))
    {
      var info := GetWeekInfo(date);
      var prepared := PrepareUpdatedContent(page, formatted, info, replace, leapYear);
      if prepared.Err? {
        return Err(prepared.error);
      }
      var (updated, status) := prepared.value;
      return Ok((updated, updated != page, status));
    }

    /** The first pass of `fill_in_missing_weeks` (lines 753-791) over the weeks in the order it
        visits them, each with its `get_week_info_from_date` and what its fetch gave: ask
        `has_week_for_user`, skip a reported week unless `replace` is on, skip a week without
        records or whose fetch raised, and keep the rest. */
    method CollectWeeksToProcess(existing: string, cands: seq<Candidate>, replace: bool)
      returns (r: Result<seq<WeekItem>>)
      ensures r == Collect(existing, cands, replace, dateFormat, displayName)
    {
      ghost var reports := Reports(existing, cands, dateFormat, displayName);
      ghost var all := Select(cands, reports, replace);
      assert all == Collect(existing, cands, replace, dateFormat, displayName);
      var items := [];
      var i := 0;
      assert cands[0..] == cands && reports[0..] == reports;
      PrefixedEmpty(all);
      while i < |cands|
        invariant 0 <= i <= |cands|
        invariant Prefixed(items, Select(cands[i..], reports[i..], replace)) == all
      {
        var reported := HasWeekForUser(existing, cands[i].info.weekEndDate);
        assert reported == reports[i];
        SelectAt(cands, reports, replace, i, items);
        if reported.Err? {
          return Err(reported.error);
        }
        if Keep(reported, cands[i], replace) {
          items := items + [ItemOf(cands[i])];
        }
        i := i + 1;
      }
      assert items + [] == items;
      return Ok(items);
    }

    /** The batch of `fill_in_missing_weeks` (lines 796-834) on a fetched page: extract once,
        fold the collected weeks into the map, regenerate once. */
    method FillInBatch(current: string, items: seq<WeekItem>, replace: bool, leapYear: bool) returns (r: BatchOutcome)
      ensures r == Batch(current, items, replace, dateFormat, displayName, leapYear)
    {
      if |items| == 0 {
        return NothingToUpdate;
      }
      var sections := ExtractMonthSections(current);
      var folded := AddWeeksToSections(sections, items, replace, leapYear);
      if folded.Err? {
        return Failed(folded.error);
      }
      var final := Regenerate(folded.value);
      return Updated(final, final != current);
    }

    /** The loop of `fill_in_missing_weeks` over the collected weeks: each one goes through
        `add_content_to_sections` on the map the previous one produced; the first error ends it. */
    method AddWeeksToSections(sections: SectionMap, items: seq<WeekItem>, replace: bool, leapYear: bool)
      returns (r: Result<SectionMap>)
      requires Valid(sections)
      ensures r == Fold(sections, items, replace, dateFormat, displayName, leapYear)
    {
      var current := sections;
      var j := 0;
      while j < |items|
        invariant 0 <= j <= |items| && Valid(current)
        invariant Fold(current, items[j..], replace, dateFormat, displayName, leapYear)
                  == Fold(sections, items, replace, dateFormat, displayName, leapYear)
      {
        var next := AddContentToSections(current, items[j].month, items[j].weekEndDate, items[j].content,
                                         replace, leapYear);
        FoldStep(current, items, j, replace, dateFormat, displayName, leapYear, next);
        if next.Err? {
          return Err(next.error);
        }
        current := next.value;
        j := j + 1;
      }
      return Ok(current);
    }
  }

  /** One step of `Fold`, the `j`-th item applied to the map the earlier ones produced. */
  lemma FoldStep(current: SectionMap, items: seq<WeekItem>, j: nat, replace: bool, fmt: DateFormat, name: string,
                 leapYear: bool, next: Result<SectionMap>)
    requires Valid(current) && j < |items|
    requires next == AddContent(current, items[j].month, items[j].weekEndDate, items[j].content, replace, fmt, name, leapYear)
    ensures next.Err? ==> Fold(current, items[j..], replace, fmt, name, leapYear) == Err(next.error)
    ensures next.Ok? ==> Valid(next.value)
                         && Fold(current, items[j..], replace, fmt, name, leapYear)
                            == Fold(next.value, items[j + 1..], replace, fmt, name, leapYear)
  {
    ghost var rest := items[j..];
    assert rest[0] == items[j] && rest[1..] == items[j + 1..];
  }
}
