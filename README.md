# NBA Stats Fantasy dashboard: table filters and today's games

A verified Dafny model of the two pieces of data logic in the dashboard's
`app.py`. The rest of the file is page rendering.

1. **The filter bar of the table pages.** Six pages use the same code:
   season stats, trends, career stats, player info, injuries and fantasy
   predictions. The filter columns are the columns whose upper-cased name
   contains `PLAYER` or `TEAM`, in column order. Each filter column gets
   a select box. Its choices are `All`, then the column's distinct
   non-missing values in increasing order. The page then shows the rows
   that equal every pick that is truthy and is not `All`. If some filter
   column holds both numbers and strings, sorting its values raises a
   type error. The page's exception handler catches it and shows an
   error message instead of the table.
   Modules: `TableFilter` (with the generic `Sequences.Filter`).
   The two `for` loops are methods with loop invariants:
   - `CollectFilters` fills the `filters` dictionary.
   - `ApplyFilters` narrows the table one column at a time.
   - `FilterPage` runs the whole page.

   Each method is proved equal to a specification function
   (`Selections`, `Keep`, `PageView`). Lemmas about those functions give
   the laws: subsequence, exact membership, idempotence and the no-op
   cases.
2. **Today's games and the lineup deadline.**
   - `get_today_games` becomes `Schedule.TodayGames`.
   - `get_first_game_time` becomes `Schedule.FirstGameTime`.
   - `format_game_display` becomes `Schedule.GameCard`.
   - The `%H:%M` formatting becomes `ClockText.Format`, with
     `ClockText.Parse` as its inverse.

   Instants are whole minutes since 1970-01-01 00:00 UTC. The Paris zone
   is a parameter: a function from a UTC instant to Paris' offset in
   minutes. The current instant is a parameter too. The pipeline works
   like this:
   - A schedule row carries its parsed `Date` as a day number and its
     parsed `Heure`. A naive `Heure` is a wall clock. An aware `Heure` is
     a wall clock plus its zone's offset.
   - The rows whose raw date is Paris' today or tomorrow are pre-selected.
   - A naive time is read as UTC. An aware time is converted as the
     instant it denotes. Either way, Paris' offset is then attached
     without changing the instant.
   - The rows whose Paris date is today are kept and sorted by instant.
   - The deadline is the Paris `HH:MM` of the first row, or none if there
     are no rows.
   - A failed load gives no games and no deadline. So does an `Heure`
     column that mixes naive and aware values, which the datetime parser
     refuses.

Three behaviours of the code are worth knowing, and the model keeps them
as they are.
- Every naive time is read as UTC, including a time-only value. There is
  no parser for status strings such as "7:30 PM ET".
- Rows are first pre-selected on their raw `Date` being Paris' today or
  tomorrow, and only then tested on their Paris date. As a result, a row
  whose Paris date is the day after its raw date is never shown on any
  day (`Schedule.ShownOnlyIfRawDateNotBehind`,
  `Schedule.LateEasternGameExample`). A US evening game is such a row.
- The sort by Paris time is not stable, so the model promises only sorted
  order and a permutation. The order of games at the same instant is open.

## Model

The filter code is cited at its first copy, app.py:218-233. The other
copies are identical: 245-260, 275-290, 306-321, 337-352 and 372-387.

| member | source | states |
|---|---|---|
| TableFilter.ContainsIffOccurs | app.py:218 | The substring test used on column names holds exactly when the word occurs at some position of the name |
| TableFilter.UpperIdempotent | app.py:218 | Upper-casing an upper-cased name changes nothing |
| TableFilter.FilterColumnsSpec | app.py:218 | The filter columns are an order-preserving subsequence of the columns. A column is among them exactly when its upper-cased name contains "PLAYER" or "TEAM" |
| TableFilter.StrBelowTransitive | app.py:225 | The string order used by the sort is transitive |
| TableFilter.StrBelowTotal | app.py:225 | Any two distinct strings are ordered one way or the other, so the sorted choice list is well defined |
| TableFilter.InsertSpec | app.py:225 | Adding a value to a strictly increasing list keeps it strictly increasing, and the result holds exactly the old elements and the new one |
| TableFilter.SortedDistinctSpec | app.py:225 | The sorted distinct values are strictly increasing and hold exactly the input values |
| TableFilter.SortedUnique | app.py:225 | Two strictly increasing lists with the same elements are equal, so the sort has exactly one possible result |
| TableFilter.OptionsFailure | app.py:225 | The choice list fails (the sort raises) exactly when the column holds both a number and a string |
| TableFilter.OptionsSpec | app.py:225 | A choice list that does not fail is "All" followed by exactly the column's non-missing values, strictly increasing |
| TableFilter.OptionsCanonical | app.py:225 | Any strictly increasing list of exactly the column's non-missing values is the tail of the choice list. Row order does not matter |
| TableFilter.OptionsDistinct | app.py:225 | The choice list has no repeated entry exactly when the column does not hold the string "All" |
| TableFilter.Selectbox | app.py:226 | The select box returns one of its choices: the user's pick when it is a choice, otherwise the first choice |
| TableFilter.CollectFilters | app.py:222-226 | The select-box loop fails exactly when some filter column cannot be sorted. Otherwise it records one pick per filter column |
| TableFilter.SelectionsStep | app.py:223-226 | One pass of the select-box loop adds the column's pick to the recorded picks |
| TableFilter.SelectionsSpec | app.py:222-226 | The recorded picks have exactly the filter columns as keys. Each pick is one of its column's choices. A pick that filters is a value some row holds |
| TableFilter.KeepStep | app.py:229-231 | One pass of the filtering loop: an active pick narrows the rows by equality on its column, and any other pick leaves them unchanged |
| TableFilter.ApplyFilters | app.py:228-231 | The filtering loop returns exactly the rows that equal every active pick, in table order |
| TableFilter.KeepSpec | app.py:228-231 | The kept rows are an order-preserving subsequence. A row is kept exactly when it equals every pick that is truthy and not "All", so every dropped row fails some pick. Each kept row appears as many times as in the table |
| TableFilter.KeepIdempotent | app.py:228-231 | Filtering the filtered rows again with the same picks changes nothing |
| TableFilter.KeepNoActivePick | app.py:229-231 | When every pick is "All", empty or falsy, the rows are returned unchanged |
| TableFilter.FilterPage | app.py:218-233 | A table page shows the error message or the filtered rows, exactly as the page specification gives them |
| TableFilter.PageViewSpec | app.py:218-233 | A page shows the error exactly when a filter column mixes numbers and strings. Otherwise it shows an order-preserving subsequence of the table: exactly the rows that equal every active pick, each as many times as in the table. Every active pick is a value of a filter column |
| TableFilter.PageViewWithoutFilterColumns | app.py:232-233 | A table with no player or team column is shown as it is |
| TableFilter.PageViewNoActivePick | app.py:229-231 | With every select box on "All" or on a falsy value, the whole table is shown |
| ClockText.Format | app.py:165 | The time text has five characters, with the colon in the middle |
| ClockText.ParseFormat | app.py:165 | The time text reads back as the minute of the day of the wall clock it renders |
| ClockText.FormatParse | app.py:165 | Every well-formed "HH:MM" is the rendering of the minute it reads as |
| ClockText.FormatSameMinute | app.py:165 | Two wall clocks render the same text exactly when they show the same minute of the day |
| Schedule.ParisWallShift | app.py:147-150 | Conversion to Paris keeps the instant. A naive time is read as UTC, so its Paris clock is the time plus Paris' offset. An aware time is first taken back to UTC with its own offset, so one already in Paris' offset keeps its wall clock |
| Schedule.AttachKeepsRows | app.py:147-150 | Adding the Paris time column changes no schedule row and keeps their order |
| Schedule.InsertByInstant | app.py:154 | Inserting a row gives, as a multiset, the old rows plus the new one |
| Schedule.InsertByInstantSorted | app.py:154 | Inserting into a list sorted by instant keeps it sorted |
| Schedule.SortByInstant | app.py:154 | The sorted rows are a permutation of the input |
| Schedule.SortByInstantSorted | app.py:154 | The sorted rows are in non-decreasing order of instant |
| Schedule.TodayGamesSpec | app.py:131-156 | Today's games are, as a multiset, exactly the rows that pass both the raw-date window and the Paris-date test, each with its Paris time. They are in non-decreasing order of instant |
| Schedule.TodayGamesSound | app.py:140-152 | Every game shown comes from the loaded schedule. Its raw date is today or tomorrow in Paris, its Paris date is today, and its Paris time is its own instant with Paris' offset |
| Schedule.TodayGamesComplete | app.py:140-152 | A schedule row is shown exactly when its raw date is today or tomorrow and its time falls on Paris' today |
| Schedule.NothingQualifies | app.py:140-156 | When no schedule row passes both the raw-date window and the Paris-date test, there are no games today |
| Schedule.RawDateYesterdayExcluded | app.py:142-145 | A row whose raw date is yesterday is never shown, even when its Paris date is today |
| Schedule.ShownOnlyIfRawDateNotBehind | app.py:142-152 | A row is shown on some day only if its raw date equals its Paris date or the day after it |
| Schedule.LateEasternGameExample | app.py:140-152 | A game at 23:30 US Eastern daylight time falls on the next Paris day. It is shown neither on its raw date nor on the next day |
| Schedule.FirstGameTimeSpec | app.py:161-166 | There is no deadline exactly when there is no game today, which includes a failed load. Otherwise the deadline is the Paris "HH:MM" of a game at the earliest instant among today's games, and it reads back as that game's minute of the day |
| Schedule.DeadlineWithinToday | app.py:152-166 | The first game's Paris wall clock lies within Paris' today |
| Schedule.CardShowsParisTime | app.py:118-129 | For a row with a Paris time, the game card starts with that time (read back as its minute of the day), then " - " and the away team |
| Schedule.CardWithoutParisTime | app.py:125-127 | For a row without a Paris time, a card exists exactly when the raw time does, and it shows the raw time's own wall clock |

## Left out

- Streamlit page layout, CSS, sidebar, navigation buttons and the session's current page (app.py:1-111 and 168-205): these are widgets and rerun plumbing.
- Loading parquet files and displaying tables or errors: a load is a given table or schedule, and a load failure is an absent one (`None`).
- Reading the clock (app.py:114-116, 138): the current instant is a parameter.
- Europe/Paris daylight-saving rules from the time-zone database: Paris' offset is an arbitrary function of the UTC instant, so nothing relies on its real values.
- String parsing of `Date` and `Heure`: the parsed values are inputs. A time-only string, which the parser dates to the day of parsing, is therefore not modelled.
- Floating-point cells. A numeric column with missing values becomes float in pandas. Cells here are missing, string or integer.
- Mixed-type comparisons other than number against string (for example, booleans).
- Upper-casing covers the ASCII letters only. Python's full Unicode case mapping is not modelled.
- Widget state: the select box returns the remembered pick when it is still a choice, and the first choice (`All`) otherwise. Streamlit's widget keys and reruns are not modelled.
- Duplicate column names. In the source, selecting a duplicated name gives a two-column frame that has no `unique`, so the page raises and shows its error message (app.py:225, 236-237). A row here is a map from column name to one value; a table whose column list names a column twice is shown filtered on that column, not as the error.
- Python's falsy picks (the empty string and 0) are modelled as written: they behave like `All`.
- The long-date header of the home page (app.py:172) is locale-dependent display only.
- Schedule.SortByInstantSorted: the tie order among games at the same instant is left open, because the source's default sort is not stable.
