/** `_check_content_exists` and `has_week_for_user`: is there a week section for a date, and
    does the display name head an entry inside that week? */
module Locate {
  import opened Basics
  import opened Text
  import opened Dates
  import opened Markup

  /** `self.date_format`: `None` until `_detect_date_format` runs, then "padded" or "unpadded". */
  datatype DateFormat = Unset | Padded | Unpadded

  datatype Existence = Existence(weekExists: bool, userExists: bool)

  /** The span `[start, end)` of `group(0)` of `<h2>w/e {date}</h2>(.*?)(?=<h2>|$)` found by
      `re.search` with `re.DOTALL`: it starts at the first occurrence of the heading and ends at
      the next `<h2>` or at the end of the text. */
  function WeekMatch(content: string, date: string): (r: Option<(nat, nat)>)
    ensures r.None? <==> !Contains(content, WeekHeading(date))
    ensures r.Some? ==> Find(content, WeekHeading(date)) == Some(r.value.0)
    ensures r.Some? ==> r.value.0 + |WeekHeading(date)| <= r.value.1 <= |content|
    ensures r.Some? ==> StopsAt(content, r.value.1, BeforeH2)
    ensures r.Some? ==> forall x :: r.value.0 + |WeekHeading(date)| <= x < r.value.1 ==> !StopsAt(content, x, BeforeH2)
  {
    match Find(content, WeekHeading(date))
    case None => None
    case Some(p) => Some((p, SpanEnd(content, p + |WeekHeading(date)|, BeforeH2)))
  }

  /** `search_date = padded_date if self.date_format == "padded" else unpadded_date`: the padded
      form is tried first only once detection has chosen it. `get_week_info_from_date` writes
      the padded form unless the format is `Unpadded`, so once a format is known the lookup
      first tries the form the week was written in; while it is unset (as in `post_report` on
      a fresh object) the week is written padded but looked up unpadded first. */
  function FirstTriedPadded(fmt: DateFormat): (r: bool)
    ensures fmt != Unset ==> r == (fmt != Unpadded)
    ensures fmt == Unset ==> !r
  {
    fmt == Padded
  }

  /** The week span the lookup settles on: the heading written in the first-tried format, and
      only when that is absent the heading written in the other one. */
  function MatchedWeek(content: string, day: nat, month: nat, fmt: DateFormat): Option<(nat, nat)> {
    var first := WeekMatch(content, FormatWeekDate(day, month, FirstTriedPadded(fmt)));
    if first.Some? then first else WeekMatch(content, FormatWeekDate(day, month, !FirstTriedPadded(fmt)))
  }

  /** The matched week is absent exactly when neither heading occurs; it is the span of the
      first occurrence of the first-tried heading when that occurs, and otherwise the span of
      the other heading. */
  lemma MatchedWeekPrefersFirstTried(content: string, day: nat, month: nat, fmt: DateFormat)
    ensures var first := WeekHeading(FormatWeekDate(day, month, FirstTriedPadded(fmt)));
            var other := WeekHeading(FormatWeekDate(day, month, !FirstTriedPadded(fmt)));
            var r := MatchedWeek(content, day, month, fmt);
            (r.None? <==> !Contains(content, first) && !Contains(content, other))
            && (Contains(content, first) ==>
                  r == WeekMatch(content, FormatWeekDate(day, month, FirstTriedPadded(fmt)))
                  && r.value.0 == Find(content, first).value)
            && (!Contains(content, first) ==> r == WeekMatch(content, FormatWeekDate(day, month, !FirstTriedPadded(fmt))))
  {
  }

  /** `_check_content_exists(content, week_end_date)`, returning `(week_exists, user_exists)`;
      `Err` where the date does not split into two integers. */
  function CheckContentExists(content: string, weekEndDate: string, fmt: DateFormat, name: string): (r: Result<Existence>)
    ensures r.Ok? <==> ParseWeekDate(weekEndDate).Some?
    ensures r.Err? ==> r.error == MalformedWeekDate
    ensures r.Ok? && r.value.userExists ==> r.value.weekExists
  {
    match ParseWeekDate(weekEndDate)
    case None => Err(MalformedWeekDate)
    case Some((day, month)) =>
      match MatchedWeek(content, day, month, fmt)
      case None => Ok(Existence(false, false))
      case Some((a, b)) => Ok(Existence(true, Contains(content[a..b], UserHeading(name))))
  }

  /** `has_week_for_user`: the user part of the lookup. */
  function HasWeekForUser(content: string, weekEndDate: string, fmt: DateFormat, name: string): (r: Result<bool>)
    ensures r.Ok? <==> ParseWeekDate(weekEndDate).Some?
    ensures r.Ok? && r.value ==> CheckContentExists(content, weekEndDate, fmt, name).value.weekExists
  {
    match CheckContentExists(content, weekEndDate, fmt, name)
    case Err(e) => Err(e)
    case Ok(ex) => Ok(ex.userExists)
  }

  /** Whatever format detection chose, a week is found exactly when its heading is written in
      the padded form or in the unpadded form. */
  lemma WeekFoundInEitherFormat(content: string, weekEndDate: string, fmt: DateFormat, name: string)
    requires ParseWeekDate(weekEndDate).Some?
    ensures var (day, month) := ParseWeekDate(weekEndDate).value;
            CheckContentExists(content, weekEndDate, fmt, name).value.weekExists
            <==> Contains(content, WeekHeading(FormatWeekDate(day, month, true)))
                 || Contains(content, WeekHeading(FormatWeekDate(day, month, false)))
  {
  }

  /** A week written in one format is found when queried in the other: `1/7` for `01/07` and
      `01/07` for `1/7`. */
  lemma FoundAcrossFormats(content: string, day: nat, month: nat, padded: bool, fmt: DateFormat, name: string)
    requires Contains(content, WeekHeading(FormatWeekDate(day, month, !padded)))
    ensures CheckContentExists(content, FormatWeekDate(day, month, padded), fmt, name).Ok?
    ensures CheckContentExists(content, FormatWeekDate(day, month, padded), fmt, name).value.weekExists
  {
    ParseFormatWeekDate(day, month, padded);
    WeekFoundInEitherFormat(content, FormatWeekDate(day, month, padded), fmt, name);
  }

  /** The display name is looked for only inside the matched week: after that week's heading
      and before the next `<h2>` (or the end of the text), never elsewhere on the page. */
  lemma UserSearchedInMatchedWeek(content: string, weekEndDate: string, fmt: DateFormat, name: string)
    requires ParseWeekDate(weekEndDate).Some?
    ensures var (day, month) := ParseWeekDate(weekEndDate).value;
            var m := MatchedWeek(content, day, month, fmt);
            CheckContentExists(content, weekEndDate, fmt, name).value.userExists
            <==> m.Some? && exists q :: m.value.0 <= q && q + |UserHeading(name)| <= m.value.1
                                        && PrefixAt(content, q, UserHeading(name))
  {
    var (day, month) := ParseWeekDate(weekEndDate).value;
    var m := MatchedWeek(content, day, month, fmt);
    if m.Some? {
      ContainsSlice(content, m.value.0, m.value.1, UserHeading(name));
    }
  }

  /** A week span found in the format the lookup tries first, holding the user heading, is
      reported as week and user present. */
  lemma FoundFirstTriedIsReported(content: string, day: nat, month: nat, fmt: DateFormat, name: string)
    requires var m := WeekMatch(content, FormatWeekDate(day, month, FirstTriedPadded(fmt)));
             m.Some? && Contains(content[m.value.0..m.value.1], UserHeading(name))
    ensures CheckContentExists(content, FormatWeekDate(day, month, FirstTriedPadded(fmt)), fmt, name)
            == Ok(Existence(true, true))
  {
    ParseFormatWeekDate(day, month, FirstTriedPadded(fmt));
  }
}
