# Working Hours Tracker — a Dafny model of its time-sheet logic

The Working Hours Tracker is a small Streamlit page. A user logs work
sessions: a date, a start time, an end time and a break. The page derives
the hours worked and keeps the entries in a session list, newest date
first. It shows the five most recent entries, each with a delete button.
It also shows a summary (entry count, total hours, number of months) and a
month view (the selected month's entries and their total). A button clears
all data.

This project models the logic under the widgets as pure functions over
immutable values. Each operation maps the current entry list to the next
one. Contracts and lemmas state what each operation guarantees.

- `Hours` models `calculate_hours`. Times of day are whole hours (0..23) and
  minutes (0..59). Hours are exact integer hundredths of an hour, so 7.5
  hours is 750. The result is 0 exactly when end minus start minus break is
  not positive. Otherwise it is the hundredth nearest to `minutes / 60`.
  That nearest hundredth is `(5m + 1) / 3` in integer division. `5m / 3` is
  never a half-integer, so there is never a `.005` tie and the rounding mode
  does not matter.
- `Dates` models the date text. It covers `strftime('%Y-%m-%d')` when an
  entry is stored, `strftime('%H:%M')` for its times, and `strptime` on the
  canonical form. It also covers `get_month_year`. The module proves that
  parsing and printing dates are inverse to each other. It also proves that
  comparing stored date strings as text compares the dates chronologically.
- `Entries` models the entry record and the re-sort after every add,
  `sorted(..., key=date, reverse=True)`. This is a stable sort, modelled as
  an insertion sort. The module proves the result is date-ordered, a
  permutation of its input, and stable: for every date, the entries on that
  date keep their order.
- `Store` models add, delete by id, clear and the recent view. It defines a
  run of user actions from the empty session. It proves that every list
  such a run reaches is date-ordered, has well-formed dates, has hours in
  0.01..23.98 and has positive ids.
- `Summary` models total hours, the set of month keys, the month selector's
  newest-first list, the month filter and the month total. It proves that
  the month totals over all selectable months add up to the total hours.
- `Seqs` and `Lex` are helpers. `Seqs` holds an option type, filtering and
  the subsequence relation. `Lex` holds Python's ordering of strings.

**Ids are not unique.** The page gives a new entry the id `len(entries) + 1`.
After a delete, that id can already belong to a remaining entry. Deleting
by id then removes every entry that shares it. `Store.IdsRepeatAfterDelete`
shows a concrete run: add, add, delete id 1, add. This leaves two entries
with id 2, and deleting id 2 removes both. A unique, never-reused id is
what one would design for, but the model follows the code. No contract
assumes ids are unique.

The entry list and the month view are both in date order. The model states
this for date strings, not for pandas' re-sort of the month table.

## Model

| member | source | states |
|---|---|---|
| Hours.CalculateHours | app.py:12-17 | The result is 0 exactly when end minus start minus break is at most 0. Otherwise it is positive and is the hundredth of an hour nearest to the worked minutes divided by 60. |
| Hours.NearestHundredthIsUnique | app.py:17 | At most one hundredth is within half a hundredth of `minutes / 60`. Rounding to two decimals is therefore unambiguous, with no tie to break. |
| Hours.EndNotAfterStartYieldsZero | app.py:14-17 | If the end time is not after the start time and the break is not negative, the hours are 0. Overnight shifts are rejected, not wrapped. |
| Hours.HoursAtMostOneDay | app.py:14-17 | With a non-negative break, at most 1439 minutes are worked, so the hours never exceed 23.98. |
| Hours.CalculateHoursExamples | app.py:43-49 | The default inputs (09:00 to 17:00, 30 minutes break) give 7.5 hours. 09:00–09:30 with a 30-minute break gives 0. 09:00–08:00 gives 0. One worked minute gives 0.02. |
| Dates.FormatTime | app.py:63-64 | A stored time is five characters: two digits that read back as the hour, a colon, and two digits that read back as the minute. |
| Dates.ParseFormatDate | app.py:19-22 | `strptime` of what `strftime('%Y-%m-%d')` printed gives back the same date. |
| Dates.FormatParseDate | app.py:19-22 | Printing a date that `strptime` accepted gives back the same text. |
| Dates.GetMonthYear | app.py:19-22 | The month key exists exactly when the date string parses. It is then the string's first seven characters, `YYYY-MM`. |
| Dates.MonthKeyOfFormattedDate | app.py:62 | A date stored with `strftime('%Y-%m-%d')` has the month key `strftime('%Y-%m')` of the same date. |
| Dates.FormattedDateOrder | app.py:69 | One stored date string is at most another, as Python compares strings, exactly when its date is not later. Sorting by the text therefore sorts by date. |
| Entries.SortByDateDesc | app.py:69 | The re-sort returns a permutation of its input, of the same length, ordered by date string with the newest first. |
| Entries.SortIsStable | app.py:69 | For every date, the entries on that date appear in the same order after the re-sort as before it. |
| Entries.AppendThenSort | app.py:68-69 | Appending an entry and re-sorting puts it after every entry already on its date. The entries of every other date are unchanged. |
| Entries.SortOfSortedIsIdentity | app.py:69 | Re-sorting a list that is already in date order returns it unchanged. |
| Store.Add | app.py:56-73 | Add is rejected exactly when the worked minutes are not positive. Otherwise the new entry has id `len + 1`, the formatted date and times, the break, and the computed positive hours. The list grows by exactly that entry, is date-ordered, and the entry lands after the existing entries of its date. |
| Store.RejectedAddKeepsEntries | app.py:72-73 | An add whose worked minutes are not positive leaves the entry list unchanged. |
| Store.Delete | app.py:94 | No entry with the id remains. Every entry with another id keeps its number of occurrences, and the result is a subsequence of the list, so order is preserved. Deleting an id no entry has changes nothing. |
| Store.DeleteIsIdempotent | app.py:94 | Deleting the same id a second time changes nothing. |
| Store.DeleteKeepsSorted | app.py:94 | Deleting from a date-ordered list leaves it date-ordered. |
| Store.Recent | app.py:82 | The recent view is a prefix of the list, of length `min(5, n)`. |
| Store.RecentShowsLatest | app.py:80-82 | On a date-ordered list, no entry left out of the recent view is dated after an entry shown in it. |
| Store.Step | app.py:185-186 | Clearing yields the empty list. Every action (add, delete, clear) keeps the store invariant: date order, well-formed dates, hours in 1..2398 hundredths, ids at least 1. |
| Store.AddKeepsInvariant | app.py:56-69 | An accepted add keeps every entry's date well-formed, hours in range and id positive, and keeps the list date-ordered. |
| Store.DeleteKeepsInvariant | app.py:94 | A delete keeps the store invariant. |
| Store.Run | app.py:8-10 | Every list reachable from the empty session satisfies the store invariant. |
| Store.ReachableListIsChronological | app.py:69 | On every reachable list, the parsed dates run from newest to oldest. |
| Store.IdsRepeatAfterDelete | app.py:61 | Add, add, delete id 1, add leaves two entries, both with id 2. Deleting id 2 (line 94) then empties the list. |
| Summary.TotalHours | app.py:108 | The total hours are at least the hours of every entry. They are 0 exactly when every entry logs 0 hours. Its partners are TotalHoursConcat (joining lists adds totals), AddRaisesTotal and MonthTotalsPartitionTotal. |
| Summary.AddRaisesTotal | app.py:108 | An accepted add raises the total hours by exactly the new entry's hours. |
| Summary.TotalHoursConcat | app.py:108 | The total over two lists joined is the sum of their totals. |
| Summary.Months | app.py:120 | The month selector's list has no repeats and runs newest month first. A key is in it exactly when some entry's date has that month key. |
| Summary.MonthCountMatchesSelector | app.py:109-120 | The "Months Tracked" count equals the number of months in the selector. |
| Summary.MonthOfIsMonthKey | app.py:19-22 | For a well-formed date, `get_month_year` returns the entry's first seven date characters. |
| Summary.InMonth | app.py:124 | The month view holds exactly the entries whose month key is the selected one, each as often as in the list, in list order. |
| Summary.InMonthKeepsSorted | app.py:124 | The month view of a date-ordered list is itself date-ordered. |
| Summary.MonthTotal | app.py:125 | A month's total never exceeds the total hours, and a month no entry falls in totals 0. Its partner MonthTotalsPartitionTotal shows the month totals over the selector add up to the total hours. |
| Summary.MonthTotalsCover | app.py:124-125 | For distinct keys that include every entry's month, the month totals add up to the total hours. |
| Summary.MonthTotalsPartitionTotal | app.py:120-125 | Summing the month total over every month in the selector gives the summary's total hours (line 108). |

## Left out

- The Streamlit widgets, the `st.session_state` plumbing, `st.rerun`, and
  the success and error messages are left out. They are UI, not logic. A
  rejected add is modelled as `Rejected`, which leaves the list unchanged.
- `format_month` (app.py:24-27) is left out. It prints locale-dependent
  month names for display only.
- The pandas table for the month view, its `sort_values`, CSV encoding and
  the download buttons (app.py:129-179) are left out. They are library
  calls outside this model, and pandas' default sort is not specified as
  stable. The model proves the filtered month list is already date-ordered.
- The `datetime.now()` defaults and the download file names are left out
  because they are nondeterministic.
- Floating point is left out. Hours and all sums are exact hundredths. The
  page sums Python floats and prints them with two decimals, so its totals
  can differ from the exact sum in the last digit.
- Dates.ParseDate models only the zero-padded ten-character form. `strptime`
  also accepts single-digit months and days, but stored dates never have
  that form.
- Dates.FormatDate always pads the year to four digits. Some C libraries
  print years below 1000 without padding.
- The widget layer limits delete buttons to the five recent entries. It also
  rejects duplicate button keys, which two recent entries sharing an id
  would produce. Neither is modelled: Delete accepts any id.
- Summary.MonthKeys and Summary.Months require well-formed dates, because
  `get_month_year` raises on any other date. Every reachable list has only
  well-formed dates (Summary.ReachableDatesWellFormed).
- Summary.InMonth: on an entry whose date does not parse, the page raises
  (app.py:21, called at line 124), but the model skips the entry. This
  cannot happen on a reachable list, which has only well-formed dates.
- The page has no way to edit an entry, and it shows no per-day totals,
  weekly view, average or comparison against a target hours figure. It does
  not save the list beyond the session and has no import, so the model has
  none of these either.
