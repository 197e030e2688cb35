# ENT CESI timetable to iCalendar — a Dafny model

The program logs into the CESI student portal. It then drives the FullCalendar
week view of the timetable and scrapes four weeks of courses, starting from
the week that contains today. Events that several weeks show are merged into
one copy, and the result is written as an iCalendar file (RFC 5545).

This project models that core and proves properties of it:

- `text.dfy`: Python's `str.strip()` whitespace, `|`-joining and splitting,
  and the code-point order that string comparison uses.
- `sorting.dfy`: a stable sort (insertion sort, as `list.sort` and
  `Array.prototype.sort` are both stable) and its sortedness, permutation and
  stability lemmas.
- `events.dfy`: the event record, the exceptions the core raises, and the
  `(date, start, title)` sort key.
- `ics_text.dfy`: `ics_escape` and `to_ics_dt`.
- `ics_calendar.dfy`: `build_ics`, as a loop that appends each event's content
  lines.
- `time_range.dfy`: `parse_time_range`. The regular expression search is
  written out as a leftmost scan and proved equal to a declarative reading of
  the pattern.
- `week.dfy`: the page script of `get_week_signature`, and
  `week_contains_date`.
- `columns.dfy`: the page script of `get_day_columns` (a loop over the day
  cells), and `date_for_event_by_x`.
- `extract.dfy`: `scrape_events_week` over a page given as data (its day
  cells and its event blocks).
- `store.dfy`: `event_key`, the `all_events_map` merge loop with its `added`
  counter, and the final sort.
- `navigation.dfy`: the browser as a class whose `week` field is the week on
  display. `ensure_current_week_visible` and the week loop of `main` are
  methods on it that click "prev" and "next". Each method is proved equal to
  a pure function, and the properties are proved about those functions.

The browser reads a static page for each week, so a bounded wait succeeds at
once or never. `Browser.WaitSignature` stands for
`wait.until(lambda d: get_week_signature(d))`: it yields the signature, or the
`Timeout` failure when the signature is empty. `Browser.WaitChange` stands for
`wait.until(lambda d: get_week_signature(d) != sig)`: it succeeds exactly when
the displayed signature differs from `sig`, and a `false` result becomes
`Timeout`.

The exceptions the source raises are `Err` values of a `Result`: the
`ValueError` of `parse_time_range` (`FormatError`), the `RuntimeError` of
`get_day_columns` (`LayoutError`) and the `ValueError` of `strptime`
(`TimestampError`).

`parse_time_range` does not check that the start precedes the end:
`"10:00-09:00"` parses to `("10:00", "09:00")`
(`TimeRange.ParsesReversedRange`).

## Model

| member | source | states |
|---|---|---|
| IcsText.EscapeIsSinglePass | main.py:34-41 | `Escape` (`ics_escape`): the four chained replaces, backslash first, equal one left-to-right pass that escapes each character once, so no added backslash is escaped again |
| IcsText.UnescapeEscape | main.py:34-41 | `Escape`: reading the escaped text back as RFC 5545 TEXT gives the original value (escaping is injective and loses nothing) |
| IcsText.EscapeShape | main.py:34-41 | `Escape`: the escaped text holds no raw newline, and every comma and semicolon in it directly follows a backslash |
| IcsText.ToIcsDt | main.py:44-46 | `ToIcsDt` (`to_ics_dt`) succeeds exactly when the date is `YYYY-MM-DD` with year at least 0001, month 01-12 and day 01-31, and the time is `HH:MM` within 00:00-23:59; otherwise the failure carries the combined text |
| IcsText.RejectsYearZero | main.py:44-46 | `ToIcsDt`: year 0000, which `datetime` does not have, gives the timestamp error |
| IcsText.ToIcsDtRoundTrip | main.py:44-46 | `ToIcsDt`: a valid date and time give a 15-character `YYYYMMDDTHHMMSS` token with seconds `00` that reads back as the same date and time |
| IcsCalendar.EventBlock | main.py:59-76 | `EventLines` (one loop iteration of `build_ics`): for an event with valid times, the SUMMARY value unescapes to the title, the DTSTART and DTEND tokens read back as (date, start) and (date, end), and a LOCATION line appears exactly when the stripped location is non-empty and unescapes to it |
| IcsCalendar.EventLinesOk | main.py:59-62 | `EventLines`: an event's lines are produced exactly when both of its timestamps parse |
| IcsCalendar.IcsLinesShape | main.py:49-78 | `IcsLines` (the `lines` list of `build_ics`): the calendar succeeds exactly when every event's timestamps parse; it then opens with the six header lines, ends with END:VCALENDAR and has 7 + 6·n lines plus one per located event |
| IcsCalendar.NoLineFeedInLines | main.py:49-78 | `IcsLines`: with line-feed-free uids, no content line contains a line feed, so each CRLF ends exactly one line |
| IcsCalendar.RenderTerminatesEveryLine | main.py:79 | `Render`: joining with CRLF and appending CRLF ends every line, the last included, with CRLF |
| IcsCalendar.BodyErrorPersists | main.py:59-62 | `BodyLines`: the first event whose timestamp does not parse decides the failure of the whole calendar |
| IcsCalendar.AppendEvent | main.py:59-76 | one loop iteration appends exactly that event's lines, or fails with its timestamp failure |
| IcsCalendar.BuildIcs | main.py:49-79 | `build_ics`: the loop returns the calendar text of the events in input order, or the failure of the first unparsable timestamp |
| TimeRange.ParseTimeRangeSpec | main.py:83-87 | `ParseTimeRange` (`parse_time_range`): success gives two `\d{2}:\d{2}` clocks at the leftmost position where the pattern matches; failure happens exactly when the pattern matches nowhere, and carries the text |
| TimeRange.SearchLeftmost | main.py:84 | `Search` (`re.search`): the scan returns the match at the first position where the pattern matches, and finds none exactly when no position matches |
| TimeRange.MatchAtSound | main.py:84 | `MatchAt`: what the scan accepts at a position is a match of `(\d{2}:\d{2})\s*-\s*(\d{2}:\d{2})` there |
| TimeRange.MatchAtComplete | main.py:84 | `MatchAt`: every match of the pattern at a position is the one the scan finds there (greedy `\s*` never backtracks) |
| TimeRange.SkipSpacesSkipsSpaces | main.py:84 | `SkipSpaces`: a greedy `\s*` consumes only whitespace and stops at the end or at a non-space |
| TimeRange.RejectsHourNotation | main.py:84-86 | `ParseTimeRange`: "09h-10h" raises the format error |
| TimeRange.ParsesSpacedRange | main.py:84-87 | `ParseTimeRange`: "09:00 - 10:30" gives ("09:00", "10:30") |
| TimeRange.ParsesReversedRange | main.py:84-87 | `ParseTimeRange`: "10:00-09:00" gives ("10:00", "09:00"): the order of the clocks is not checked |
| Week.SortedDatesSpec | main.py:92-93 | `SortedDates`: the deduplicated, filtered and sorted dates are sorted, distinct and exactly the non-empty cell dates |
| Week.SignatureOfSet | main.py:92-94 | `Signature` (`get_week_signature`): two pages with the same set of non-empty dates have the same signature, whatever their order and duplicates |
| Week.SignatureEmptyIff | main.py:92-96 | `Signature`: the signature is empty exactly when no cell has a date |
| Week.WeekContainsSignature | main.py:99-101 | `WeekContainsDate` (`week_contains_date`) of `Signature`: for dates without `|`, the signature contains a date exactly when some cell has that date; an empty signature contains none |
| Week.DedupElements | main.py:93 | `Dedup`: `[...new Set(xs)]` keeps each value once and loses none |
| Week.NonEmptyElements | main.py:93 | `NonEmpty`: `.filter(Boolean)` keeps exactly the non-empty values |
| Text.SplitJoin | main.py:94-101 | `Split` and `Join`: splitting a `|`-joined list of `|`-free values on `|` gives the list back |
| Text.StripIsTrimmedSlice | main.py:72-74 | `Strip`: `strip()` returns a slice of its input with no whitespace at either end |
| Text.StripEmptyIff | main.py:72-74 | `Strip`: `strip()` is empty exactly when the input is all whitespace |
| Text.StrLtTotal | main.py:93 | `StrLt`: string comparison is total: of two different strings one is less |
| Text.StrLtTransitive | main.py:93 | `StrLt`: string comparison is transitive |
| Columns.ResolveColumns | main.py:104-121 | `get_day_columns`: the cell loop, the sort and the emptiness check return the resolved columns, or the layout error |
| Columns.ResolvedColumnsSpec | main.py:104-121 | `ResolvedColumns` (`get_day_columns`): the layout error is raised exactly when no cell has a date; otherwise there is one column per distinct date, sorted by left edge, each from the cell of its date that is strictly wider than every earlier one and no narrower than any later one |
| Columns.KeepAllSpec | main.py:108-116 | `KeepAll` (the `byDate` loop): after the loop, the map holds one entry per distinct non-empty date, each the first-seen widest cell of that date |
| Columns.IndexOf | main.py:112 | `byDate.get`: the lookup finds an entry of that date, or reports that no entry has it |
| Columns.DateForEventByX | main.py:124-136 | `date_for_event_by_x`: the method returns the date the midpoint of the event's box is assigned |
| Columns.AssignDateSpec | main.py:131-136 | `AssignDate` (`date_for_event_by_x`): the date is that of the first column whose closed interval holds the midpoint; if none holds it, the first column with the nearest centre; always one of the columns' dates |
| Columns.FirstHoldingSpec | main.py:131-133 | `FirstHolding`: the loop stops at the first column that holds the point, and finds none only when no column holds it |
| Columns.ClosestSpec | main.py:135-136 | `Closest`: `min` picks a column of least centre distance, and every earlier column is strictly farther |
| Extract.ScrapeEventsWeek | main.py:139-165 | `scrape_events_week`: the method returns what the week's page gives: the sorted events or the first failure |
| Extract.CollectBlockEvents | main.py:143-162 | the block loop builds one event per block in page order, or fails at the first unparsable time |
| Extract.ExtractWeekSpec | main.py:139-165 | `ExtractWeek` (`scrape_events_week`): the layout error is raised exactly when no cell has a date; otherwise the week fails exactly when some block's time does not parse, with the first such block's text; success gives one event per block, sorted by (date, start, title), each dated by one of the page's dates with two clocks |
| Extract.BlockEventOk | main.py:145-149 | `BlockEvent`: a block gives an event exactly when its stripped time text parses, and otherwise raises with that text |
| Extract.BlockEventShape | main.py:145-162 | `BlockEvent`: a block's event has clock start and end times and the date of one of the columns |
| Extract.BlockEventsOk | main.py:143-162 | `BlockEvents`: the events of a week are built exactly when every block's time parses |
| Extract.BlockEventsValues | main.py:143-162 | `BlockEvents`: the events are in block order, one per block |
| Extract.BlockEventsError | main.py:143-162 | `BlockEvents`: a failure is that of the first block whose time does not parse |
| Events.EventLeTotalPreorder | main.py:164 | `EventLe`: the `(date, start, title)` key order is a total preorder |
| Events.SortEvents | main.py:164 | the sorted list is ordered by `(date, start, title)` and is a permutation of the input |
| Events.SortEventsStable | main.py:164 | `SortEvents`: events with equal keys keep their relative order (the sort is stable) |
| Sorting.SortSorted | main.py:164 | `Sort`: the stable sort yields a sorted list for any total preorder |
| Sorting.SortStable | main.py:164 | `Sort`: elements that compare equal keep their input order |
| Sorting.SortedDistinctUnique | main.py:93 | two sorted duplicate-free lists of the same elements are equal, under an antisymmetric order |
| Store.EventKeyInjective | main.py:168-169 | `EventKey` (`event_key`): two events have the same key exactly when they are the same event |
| Store.MergeWeek | main.py:266-271 | the loop's dictionary is the week's events added in order, first occurrence winning, and `added` is the count of new keys |
| Store.AddSpec | main.py:268-270 | `Add`: adding keeps every entry under its own key and leaves this very event under its key |
| Store.AddKeeps | main.py:268-270 | `Add`: adding only inserts the event's key, never overwrites an entry, and grows the map by one exactly when the key is new |
| Store.AddedCounts | main.py:266-271 | `Added` and `MergeAll`: `added` equals the growth of the dictionary |
| Store.AddTwice | main.py:266-271 | `Added` and `MergeAll`: adding a new event twice grows the dictionary by one and counts one |
| Store.MergeIdempotent | main.py:266-271 | `MergeAll`: merging the same week again changes nothing and counts zero |
| Store.MergeAllKnown | main.py:266-271 | `MergeAll`: a week whose keys are all known changes nothing and counts zero |
| Store.MergeAllKeys | main.py:266-271 | `MergeAll`: the keys after a merge are the keys before plus the keys of the week's events |
| Store.MergeAllKeeps | main.py:266-271 | `MergeAll`: an entry present before a merge is unchanged after it (first occurrence wins) |
| Store.MergeAllStores | main.py:266-271 | `MergeAll`: after a merge, every event of the week is in the dictionary under its key |
| Store.MergeAllAppend | main.py:256-271 | `MergeAll`: merging one week and then the next is merging their concatenation |
| Store.ValuesSpec | main.py:290 | `Values` (`all_events_map.values()`): the values list each stored event once, one per key |
| Store.FinalizeSpec | main.py:290-291 | `Finalize`: the final list is sorted by (date, start, title), a permutation of the stored values, free of duplicates and exactly the stored events |
| Store.FinalizeOfMerge | main.py:254-291 | `Finalize` of `MergeAll`: from an empty dictionary, the final list is sorted, free of duplicates and holds exactly the events that were merged |
| Store.TwoOverlappingWeeks | main.py:254-291 | `MergeAll`, `Added` and `Finalize`: a week with Math then a week with Math and Physics add 1 and 1 and finalize to [Math, Physics] |
| Navigation.SeekSpec | main.py:172-197 | `Seek` (`ensure_current_week_visible`): the search makes at most eight "prev" clicks; it ends on the latest week at or before the start that shows today, or eight weeks back when none does; it fails only by a timed-out wait, and never when the first page shows dates and every click changes them |
| Navigation.SeekBackSpec | main.py:185-194 | `SeekBack`: the click loop moves back at most the remaining number of clicks and stops at the first week that shows today |
| Navigation.SeekVisibleNoClick | main.py:180-182 | `Seek`: when the first signature shows today, the search stays on that week |
| Navigation.SeekFoundShowsToday | main.py:180-194 | `Seek`: when the search reports success, the week it ends on has a day cell dated today |
| Navigation.CollectFromSpec | main.py:256-286 | `CollectFrom`: from any iteration, the loop succeeds exactly when the remaining weeks show dates, extract and change signature on "next", and then holds their events merged in week order; otherwise it fails by a timeout or with the failure of one of those weeks |
| Navigation.CollectSpec | main.py:254-286 | `Collect` (the week loop of `main`): the loop scrapes exactly NB_SEMAINES weeks from the starting week and returns their events merged in week order |
| Navigation.ExportSpec | main.py:251-295 | `Export` (the run of `main`): a successful run serialises a sorted, duplicate-free list of exactly the events scraped from the NB_SEMAINES weeks where the search ended |
| Navigation.Browser.EnsureCurrentWeekVisible | main.py:172-197 | the method returns the search result and shows the week it ended on; it moves back at most eight weeks, does not move when the first week shows today, and counts one "prev" click per week moved |
| Navigation.Browser.ClickBack | main.py:185-197 | the click loop returns the backward search result, moves back at most eight weeks and counts one click per week moved |
| Navigation.Browser.CollectWeeks | main.py:254-286 | the loop returns the collected dictionary; on success it has scraped the NB_SEMAINES consecutive weeks from the start, in order, with exactly NB_SEMAINES-1 "next" clicks and none after the last week |
| Navigation.Browser.VisitWeek | main.py:257-271 | one iteration waits for the signature, scrapes the displayed week once and merges its events, without moving |
| Navigation.Browser.Run | main.py:251-295 | the run returns the calendar text of the whole export from the week first on display |

## Left out

- Login, browser start-up, page loading and the environment variables (main.py:15-24, 202-248) are not modelled. The core starts on the timetable page.
- The page is given as data. A week's page is its `td.fc-day` cells (date attribute and horizontal extent) and its event blocks (title, time attribute and text, optional room, horizontal extent). The browser reads a static page for each week index. Transient render states during a wait, clickability waits and `find_element` failures are not modelled.
- `time.sleep` delays are left out. They change timing, not results.
- `uuid.uuid4()` is a parameter `uids` that gives the identifier of each event index. `date.today()` is a parameter `today`.
- Writing the file, its timestamped name from `datetime.now()` and all printed messages are left out. This includes the per-week count of new events: the model computes it in `Store.MergeWeek`, `Browser.VisitWeek` discards it, and nothing prints it. It also includes the warning printed when the search for today gives up.
- Columns.DateForEventByX: requires at least one column. `min` raises on an empty list, and the source calls it only after `get_day_columns` has returned a non-empty list.
- IcsText.ToIcsDt: accepts day 01-31 in every month. It does not check month lengths or leap years. It rejects two inputs that `strptime` accepts: one-digit fields, and extra whitespace between the date and the time. A date attribute with a trailing space, such as `"2026-02-16 "`, fails in the model, while `strptime` matches the space of its format against any run of whitespace. Year 0000 is rejected as `datetime` rejects it (`IcsText.RejectsYearZero`). Years 0001-0999 are written zero-padded to four digits, while `strftime('%Y')` on glibc writes them unpadded.
- IcsText.ToIcsDtRoundTrip: the 15-character token and its read-back hold in the model for every valid date. For years 0001-0999 the source's `strftime('%Y')` on glibc writes the year without padding (year 999 gives `9990101T090000`, 14 characters), so the source does not keep this shape or round trip there.
- `\d` and `\s` are ASCII digits and Python's whitespace characters. Unicode digits other than 0-9 are not modelled.
- The page script sorts dates in UTF-16 code-unit order. The model uses code-point order, which agrees for the `YYYY-MM-DD` dates the page carries.
- Coordinates are exact reals, not floating point.
- The model stops at a failed wait. The source raises its `TimeoutException`.

