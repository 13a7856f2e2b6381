# submit-wars merge engine, in Dafny

`submit_wars.py` posts a weekly work report ("WAR") to one Confluence page. The page is
a single piece of text that uses three heading levels. `<h1>` gives a month name.
`<h2>w/e D/M</h2>` gives the week-ending date. `<h3>` gives a person's display name,
and the person's report follows it. `ConfluenceService` merges a new report into this
text. This project models that merge engine and proves what it does.

The engine has these parts:

- It detects whether the page writes dates padded (`07/07`) or unpadded (`7/7`), and
  remembers the answer.
- It looks up whether the week and the user already exist. It tries the remembered format
  first and then the other one.
- It chooses one action: skip, replace, append a user to a week, insert a week into a
  month, or create a month. It also chooses the status line that goes with the action.
- It performs the three textual edits.
- It splits the page into a month-to-text dictionary, then joins the dictionary back
  with months in descending calendar order.
- It runs `fill_in_missing_weeks`: a first pass collects the weeks that need a report,
  then a batch folds them into one dictionary.
- It computes the weekday arithmetic of `DateUtils.get_last_friday`.

How the model is organised:

- The regular expressions are written out as explicit scans over `seq<char>`:
  - `Text` handles search, `str.replace`, and where a lazy `(.*?)(?=...|$)` stops. Without
    `MULTILINE`, Python's `$` also matches just before a final newline.
  - `Detect`, `Locate`, `Extract` and `NewWeek` each handle one pattern.
- A Python dictionary keeps insertion order. The model writes it as `Sections.SectionMap`:
  a key sequence plus a map.
- The object is `Service.ConfluenceService`. It holds the display name and the remembered
  date format, which is one of three values: `Unset` (Python's `None`), `Padded` and
  `Unpadded`.
- The methods with loops are proved equal to the pure functions that specify them:
  - `DetectDateFormat`;
  - `ExtractMonthSections`;
  - the heading scan and the insertion-point search of `_add_new_week`;
  - the batch loop.

  The lemmas are proved about those functions.

Python raises an exception in two cases: the week-ending date does not split into two
integers, or the date does not exist in the current year. In both cases the model
returns `Err`.

Some behaviours may surprise a reader. The model keeps them as the code has them:

- A new month block starts with a line break: `"\n<h1>M</h1>\n..."`.
- A new week goes before the latest *earlier* week. When no existing week is earlier,
  it goes right after `</h1>`. The comment at line 614 says the page is kept newest
  first, but a section whose weeks are all later than the new one gets the new, oldest
  week at its top.
- Merging the same report twice is not always harmless. While the date format is unset,
  the week is written padded but looked up unpadded first, so an empty unpadded week
  heading can hide the user's existing entry (`Merge.AddContentTwiceDiffersWhenUnset`).
- `_replace_user_content` and `_add_to_existing_week` use only the exact date string.
  The lookup, however, accepts either format. So a report can be "added to the existing
  week" while the text stays unchanged (`Merge.AlternateFormatWeekIsLeftUnchanged`).
- `_add_new_week` sees only two-digit padded headings.

## Model

| member | source | states |
|---|---|---|
| Dates.MonthNamesDistinct | submit_wars.py:292-293 | twelve month names, pairwise distinct |
| Dates.MonthIndex | submit_wars.py:634-636 | the sort key: the name's index in the month list, or -1 exactly when the name is not a month |
| Dates.IsMonthName | submit_wars.py:508 | `name in MONTH_NAMES`, as an index test |
| Dates.ParseWeekDateSplits | submit_wars.py:338-340 | `ParseWeekDate` succeeds exactly when the date is two non-empty digit strings around one `/`, and then gives their values |
| Dates.PaddedFormsAgree | submit_wars.py:645-649 | `FormatWeekDate`: for a day and a month below 100 the padded token has five characters, and it equals the unpadded one exactly when both have two digits |
| Dates.ParseFormatWeekDate | submit_wars.py:338-344 | splitting and `int` of the padded or the unpadded token gives back the day and the month |
| Dates.DaysBackToFriday | submit_wars.py:68 | `(weekday + 3) % 7 or 7` lies in 1..7, lands on a Friday, and no Friday lies in between |
| Dates.LastFriday | submit_wars.py:63-71 | `get_last_friday` gives a Friday within the 7 days strictly before the date, and the latest such one |
| Detect.ShortTokenHeading | submit_wars.py:304 | a `x/y` heading matches the unpadded pattern exactly when one part has one digit |
| Detect.DetectWrittenHeading | submit_wars.py:323-332 | a written heading counts as unpadded exactly when written unpadded with a one-digit day or month |
| Detect.WrittenHeadingIsDetected | submit_wars.py:323-332 | `UsesUnpaddedDates` holds of any page that contains a heading written unpadded with a one-digit day or month |
| Locate.WeekMatch | submit_wars.py:349-350 | the week span begins at the first heading of the date, ends at the first `<h2>` or `$` after it, and is absent exactly when the heading is |
| Locate.MatchedWeekPrefersFirstTried | submit_wars.py:347-356 | `MatchedWeek`: no week exactly when neither heading occurs; the span of the first occurrence of the first-tried heading when it occurs, otherwise the span of the other heading |
| Locate.CheckContentExists | submit_wars.py:334-368 | errors exactly on an unparsable date; a found user implies a found week |
| Locate.HasWeekForUser | submit_wars.py:370-373 | the user flag of the lookup; true only where the week exists |
| Locate.WeekFoundInEitherFormat | submit_wars.py:342-359 | the week is found exactly when its padded or its unpadded heading occurs, whatever the remembered format |
| Locate.FoundAcrossFormats | submit_wars.py:352-356 | a week written `1/7` is found when asked for `01/07`, and the reverse |
| Locate.UserSearchedInMatchedWeek | submit_wars.py:361-366 | the user is found exactly when the user heading lies inside the matched week span |
| Splice.UserSpan | submit_wars.py:561-569 | the user entry starts right after the first user heading and ends at the first `<h3>`, `<h2>` or `$` |
| Splice.ReplaceUserContent | submit_wars.py:548-565 | with the week or the user absent, the text is returned unchanged |
| Splice.ReplaceOnlyUserSpan | submit_wars.py:567-578 | when the week heading occurs once, only the user's entry changes and it becomes `"\n" + content` |
| Splice.AddToExistingWeek | submit_wars.py:580-594 | without the exact heading the text is unchanged; otherwise the prefix through the heading, the user block, then the untouched rest |
| Splice.AppendKeepsHeadingPlace | submit_wars.py:592-594 | after the append the week heading is still first found where it was |
| Splice.AddedUserIsInWeek | submit_wars.py:580-594 | after the append the user heading lies inside the week span |
| Splice.AddedUserIsReported | submit_wars.py:580-594 | appending in the first-tried format makes the lookup report week and user present |
| NewWeek.HeadingsDoNotOverlap | submit_wars.py:603 | no two padded headings overlap, so `finditer` loses none |
| NewWeek.WeeksFrom | submit_wars.py:603-612 | the scan keeps padded headings with real dates, in increasing positions |
| NewWeek.WeeksFromComplete | submit_wars.py:606-612 | every padded heading with a real date is kept |
| NewWeek.LatestEarlier | submit_wars.py:617-620 | the week chosen is earlier than the new one and latest among those, and the first such among equal dates; none exactly when no week is earlier |
| NewWeek.DefaultPos | submit_wars.py:615 | just after the first `</h1>`; when there is none, index 4 clamped to the length |
| NewWeek.AddNewWeek | submit_wars.py:596-629 | errors exactly when the date is malformed or not in the year; otherwise the block is inserted at the insertion point and the text on both sides is kept |
| NewWeek.InsertPosIsLatestEarlier | submit_wars.py:603-620 | `InsertPos`: with some earlier week, the block goes at the latest earlier heading and before no equal-dated earlier one; with none, after `</h1>` |
| NewWeek.WrittenHeadingIsPadded | submit_wars.py:622-627 | a heading written padded is one the scan reads back with its own date |
| NewWeek.UnpaddedHeadingIsNotScanned | submit_wars.py:603-612 | on any page, a heading written unpadded with a one-digit day or month starts no padded match, and no week the scan keeps sits at it |
| NewWeek.AddedWeekIsReported | submit_wars.py:596-629 | after a new week is written, the lookup reports week and user present |
| Sections.Put | submit_wars.py:509 | `d[k] = v`: an existing key keeps its place, a new key goes last |
| Sections.MonthsDown | submit_wars.py:633-636 | every month section, strictly descending by month index (December first) |
| Sections.NonMonths | submit_wars.py:633-636 | the sections whose name is not a month, which all share sort key -1 |
| Sections.OrderedKeysArePermutation | submit_wars.py:631-638 | `OrderedKeys`: every section is joined exactly once |
| Sections.OrderedKeysIsStableSort | submit_wars.py:633-636 | `OrderedKeys`: the order is the stable sort by descending month index: later months first, ties in insertion order |
| Sections.OrderedKeysOfSorted | submit_wars.py:631-638 | months already in descending order keep their order |
| Sections.RegenerateOfSorted | submit_wars.py:631-638 | `Regenerate` of a page whose months already stand latest first joins the sections in their dictionary order |
| Sections.RegenerateHoldsEverySection | submit_wars.py:631-638 | `Regenerate` loses no section: each section's text occurs whole in the joined page |
| Extract.MonthMatchAt | submit_wars.py:303 | a match is `<h1>`, a non-empty run of letters, then `</h1>`, and captures those letters |
| Extract.MonthMatchAtComplete | submit_wars.py:303 | every `<h1>`, non-empty run of letters, `</h1>` at a position is matched there, with those letters as the name |
| Extract.NoMatchInsideMatch | submit_wars.py:303 | no month match starts inside another |
| Extract.ScanFromKeys | submit_wars.py:506-510 | the scan stores exactly the month names that have a heading |
| Extract.ScanFromKeeps | submit_wars.py:506-510 | a name with no later heading keeps its text |
| Extract.ScanFromLast | submit_wars.py:506-510 | a repeated month keeps its last section |
| Extract.MonthSectionsOfSpec | submit_wars.py:502-512 | `MonthSectionsOf`: keys are the month names with a heading, each mapped to the section of its last heading |
| Merge.Classify | submit_wars.py:489-500 | the outcome in priority order: replace, already exists, existing week, new week, new month, each in both directions |
| Merge.DetermineStatusMessage | submit_wars.py:489-500 | the exact status line for each combination of flags |
| Merge.StatusIdentifiesOutcome | submit_wars.py:489-500 | different outcomes never give the same status line |
| Merge.AddContent | submit_wars.py:514-546 | only the target month changes, the key order is kept or extended by it, an absent month gets exactly the new-month block, and errors arise only for a present month |
| Merge.NewMonthIsReported | submit_wars.py:536-544 | a new month block makes the lookup report week and user present |
| Merge.AddContentIdempotent | submit_wars.py:514-546 | without `replace`, and for a date written in the format the lookup tries first, merging the same report twice changes nothing the second time |
| Merge.AddContentTwiceDiffersWhenUnset | submit_wars.py:334-368 | with the format unset, a July section that starts with `<h1>July</h1>`, then an empty `1/7` week, then the `01/07` week, gains a second copy of the entry when the `01/07` report is merged again |
| Merge.ExtractedJulySection | submit_wars.py:502-512 | the page `<h1>July</h1><h2>w/e 1/7</h2><h2>w/e 01/07</h2>` splits into one July section, the whole page, which has the shape the previous row needs |
| Merge.PrepareUpdated | submit_wars.py:462-487 | unparsable dates give the parse error; any other error needs the month in the page |
| Merge.PrepareSkipsExisting | submit_wars.py:470-472 | an existing report without `replace` returns the page byte for byte with "Report already exists ..." |
| Merge.PrepareStatusFollowsFlags | submit_wars.py:474-487 | the status is the one the page-level flags select, and it is "already exists" exactly on the early return |
| Merge.AlternateFormatWeekIsLeftUnchanged | submit_wars.py:520-531 | for any valid dictionary holding the month, any remembered format, `replace` flag and year: when the month's section has the week only in the unpadded form and no report of the user, the week is reported as existing without the user, yet the dictionary is left unchanged |
| Merge.FoldFrame | submit_wars.py:806-813 | `Fold`: a month no item names passes through the batch unchanged |
| Merge.FoldAddsMonths | submit_wars.py:806-813 | `Fold`: every month an item names is present after the batch |
| Merge.FoldKeeps | submit_wars.py:806-813 | `Fold`: the batch removes no month |
| Merge.SelectOk | submit_wars.py:753-791 | `Select`: the first pass succeeds exactly when every week's `has_week_for_user` succeeds |
| Merge.SelectSound | submit_wars.py:761-787 | `Select`: each collected item is the item of a visited week that is kept |
| Merge.SelectComplete | submit_wars.py:761-787 | `Select`: every week that is kept has its item collected |
| Merge.SelectAt | submit_wars.py:753-791 | `Select`: one visited week either ends the pass with its error, or appends its item when kept and moves on |
| Merge.CollectOk | submit_wars.py:753-791 | `Collect`: the first pass on a page fails exactly when some week-ending date does not parse |
| Merge.CollectSound | submit_wars.py:761-787 | `Collect`: every collected item comes from a week whose date parses and whose fetch gave records, and, without `replace`, that the page does not yet report for the user |
| Merge.CollectComplete | submit_wars.py:761-787 | `Collect`: every week whose fetch gave records is collected when `replace` is on or the page does not yet report it for the user |
| Merge.CollectSkipsReported | submit_wars.py:761-765 | `Collect`: without `replace`, no collected week is already reported for the user on the page |
| Merge.Batch | submit_wars.py:796-834 | nothing to update exactly when no week was collected; the page is saved exactly when it changed |
| Merge.BatchOfOne | submit_wars.py:803-816 | a batch of one is one `add_content_to_sections` followed by regeneration |
| Merge.BatchOfOneIsPrepare | submit_wars.py:803-816 | a batch of one writes the page that `prepare_updated_content` writes when it does not return early |
| Service.ChooseDisplayName | submit_wars.py:300 | `display_name or username or 'Andres'`: never empty, and the first non-empty choice |
| Service.ConfluenceService.constructor | submit_wars.py:295-301 | the display name as chosen, and no date format yet |
| Service.ConfluenceService.DetectDateFormat | submit_wars.py:323-332 | the format becomes unpadded exactly when some heading matches the unpadded pattern, otherwise padded |
| Service.ConfluenceService.GetExistingContent | submit_wars.py:315-321 | the page is returned; detection runs only while no format is known |
| Service.ConfluenceService.HasWeekForUser | submit_wars.py:370-373 | the lookup with the remembered format and name; it succeeds exactly on a parsable date |
| Service.ConfluenceService.ExtractMonthSections | submit_wars.py:502-512 | the loop builds exactly `MonthSectionsOf` of the page |
| Service.CollectWeeks | submit_wars.py:603-612 | the loop collects exactly the scan `WeeksFrom` |
| Service.PickLatestEarlier | submit_wars.py:615-620 | the loop picks exactly `LatestEarlier` |
| Service.ConfluenceService.AddNewWeek | submit_wars.py:596-629 | equals `NewWeek.AddNewWeek` with the object's display name |
| Service.ConfluenceService.AddContentToSections | submit_wars.py:514-546 | equals `Merge.AddContent` with the object's format and name |
| Service.ConfluenceService.PrepareUpdatedContent | submit_wars.py:462-487 | equals `Merge.PrepareUpdated` with the object's format and name |
| Service.ConfluenceService.GetWeekInfo | submit_wars.py:640-653 | the month name for the month, and a token that parses back to the date, padded unless the format is unpadded |
| Service.ConfluenceService.PostReport | submit_wars.py:375-395 | the prepared page and status; saved exactly when the page changed |
| Service.ConfluenceService.AddWeeksToSections | submit_wars.py:806-813 | the loop equals `Merge.Fold` |
| Service.ConfluenceService.CollectWeeksToProcess | submit_wars.py:753-791 | the loop of the first pass equals `Merge.Collect` with the object's format and name |
| Service.ConfluenceService.FillInBatch | submit_wars.py:796-834 | equals `Merge.Batch` with the object's format and name |
| Locate.FirstTriedPadded | submit_wars.py:347 | the padded form is tried first exactly when the format is `Padded`: once a format is known this is the form `get_week_info_from_date` writes; while it is unset the week is written padded but looked up unpadded first |

## Left out

- HTTP, authentication, page fetch and save, Toggl, configuration, the CLI, logging and the summary printout are left out. They are I/O. `PostReport`, `GetExistingContent` and `FillInBatch` take the fetched page text and return what would be saved.
- The first pass of `fill_in_missing_weeks` (submit_wars.py:753-791) decides which weeks reach the batch. It is modelled as `Merge.Collect` and `CollectWeeksToProcess`. Each visited week comes in as a `Candidate`: its `get_week_info_from_date` and what the Toggl fetch and formatting gave (`Records`, `NoRecords` or `FetchFailed`). The pass skips a week already reported without `replace`, a week without time records and a week whose fetch raised, and collects the rest in visiting order. `Merge.Batch` and `FillInBatch` take those collected items as input.
- `get_all_weeks_in_year`, the reversal into newest-first order and the Toggl fetches themselves are left out: they read the clock and the network. The model takes the weeks already in visiting order, each with its fetch outcome.
- The per-week statistics and the log lines of `fill_in_missing_weeks` are left out. They only count and report; they do not affect the merged text.
- `process_week` is left out. It is the single-week driver of the command line: it fetches the Toggl records for one week, formats them and calls `post_report`, which is modelled as `PostReport`.
- `get_all_weeks_in_year` and `get_current_week_dates` are left out: they are calendar enumeration from the clock.
- `get_week_info_from_date` with no date (`date or get_last_friday()`) is left out: it reads the clock. `get_last_friday` is modelled on day ordinals (`Dates.LastFriday`).
- `strftime` is modelled as an English month name and as integer formatting with or without zero padding. Locale and platform flags are outside the model.
- `int()` accepts surrounding whitespace, a sign, underscores and non-ASCII digits. The model accepts only ASCII digit strings. `\d` in the patterns is also ASCII-only here.
- The display name and the date are spliced unescaped into regular expressions. The model treats them as literal text, so a name containing regex metacharacters is outside it. The lemmas about finding an added user also require that the name has no `<`. `Merge.AddContentIdempotent` and `Merge.NewMonthIsReported` also require that the month name has no `<`. Every caller meets this, because the month comes from `MONTH_NAMES`.
- NewWeek.LatestEarlier: when two existing weeks have the same date, the first in document order is picked. This holds if the clock does not tick during the scan. Each week's date is built from its own `datetime.now()` call, so a tick makes a later-found week compare greater, and then the last one is picked. The tie-break by clock time is not modelled.
- NewWeek.LatestEarlier: the sort followed by a search for the first earlier week is modelled as one selection of the latest earlier week. Its contract states what the sort-then-first scan chooses. The sorted list itself is not built.
- The year enters only as `leapYear`, which decides whether 29 February exists.
- Extract.MonthSectionsOfSpec: the order of the keys that `extract_month_sections` produces (first appearance of each month) is not stated. Regeneration's order depends only on month indices, so the order matters only through `Sections.OrderedKeysIsStableSort`.
- Merge.AddContentIdempotent is stated for `replace` false only. With `replace` true, a second merge rewrites the user's entry again, and the result is not claimed to be equal.
- Merge.AddContentIdempotent is also stated only for a date written in the format the lookup tries first. The promise that merging the same report twice changes nothing does not hold in general. `post_report` never runs format detection, so the format stays unset. The date is then written padded (`01/07`), but `_check_content_exists` looks for the unpadded heading (`1/7`) first. When a July section starts with `<h1>July</h1>`, then an empty `1/7` week, then the `01/07` week, every merge adds one more entry under `01/07`. `Merge.AddContentTwiceDiffersWhenUnset` proves this, and `Merge.ExtractedJulySection` shows that `extract_month_sections` builds such a section from the page `<h1>July</h1><h2>w/e 1/7</h2><h2>w/e 01/07</h2>`. The model keeps the code's behaviour.
- Splice.ReplaceOnlyUserSpan requires the week heading to occur at most once in the section. `str.replace` rewrites every copy of the week's text, and that case is only modelled (`Text.ReplaceAll`), not characterized.
- `format_time_records` and `html.escape` are outside the merge engine and are not modelled.
