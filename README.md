# flight_finder, modelled in Dafny

This project models the three parts of `flight_finder.py` that hold logic. Each is stated as Dafny definitions with proved properties:

- **`EnvLoader.load_env`** reads a `.env` file into the process environment (`os.environ`). For each line it:
  - strips the line;
  - skips blank lines and `#` comments;
  - splits at the first `=`;
  - stores the stripped key and value. The environment refuses an empty name or a NUL character, and the load then raises.

  It is modelled as a method (`EnvLoader.LoadEnv`) that runs the same loop over the file's lines. It writes into a class standing for `os.environ`. The method is proved equal to a specification function (`EnvLoader.LoadLines`). The proved properties are:
  - the last assignment to a key wins;
  - keys no line assigns are untouched;
  - blank and comment lines change nothing;
  - a line without `=` aborts the load, and the lines before it stay written;
  - the split happens at the first `=`.
- **`FlightSearchParams`** is a record of nine search fields, with `limit` defaulting to 30. `to_dict` lays the fields out as query parameters. It is modelled as a datatype and a pure function, with round-trip lemmas.
- **The selection in `FlightFinder.best_flight`**:
  - keeps the offers whose return date is more than seven days after their departure date, with both dates read by `strptime(…, "%Y-%m-%d")`;
  - sorts the kept offers by `duration`;
  - takes the first.

  It is modelled as pure functions (`Selection.BestFlight`) together with:
  - a model of strptime's date format and Python's day count (`Calendar`);
  - lemmas about the list comprehension (order, multiplicity, first exception wins);
  - the choice being a shortest kept offer;
  - the price never influencing the choice.

Modules:

| file | module | models |
|---|---|---|
| `wrappers.dfy` | `Wrappers` | `Option` and `Result` for the error paths |
| `py_text.dfy` | `PyText` | `str.strip()` and `str.split('=', 1)` |
| `env_loader.dfy` | `EnvLoader` | `EnvLoader.load_env` |
| `search_params.dfy` | `SearchParams` | `FlightSearchParams` and `to_dict` |
| `calendar.dfy` | `Calendar` | `datetime.strptime(s, "%Y-%m-%d")` and `(d1 - d2).days` |
| `selection.dfy` | `Selection` | the short list and the choice in `best_flight` |

Three behaviours of the selection are worth stating plainly:

- **Ties.** pandas' default `sort_values` is quicksort, which is not stable. Among offers of equal least duration, which one comes first is therefore not fixed. `Selection.BestFlight` promises only *a* kept offer of least duration.
- **Nothing kept.** With nothing kept, the `DataFrame` has no `duration` column. `sort_values` then raises `KeyError: 'duration'` (`head(1)` on an empty table would not fail). The same happens when no kept offer has a `duration` key. A key holding JSON `null` does create the column; the row is then NaN and sorts last.
- **Price.** The price (`value`) is never read: `Selection.PriceIsIgnored`.

## Model

| member | source | states |
|---|---|---|
| PyText.Strip | flight_finder.py:18 | `line.strip()` leaves no whitespace at either end and is never longer than the input |
| PyText.StripCutsOnlySpace | flight_finder.py:18 | the stripped text is a contiguous piece of the input and only whitespace is cut on both sides |
| PyText.StripRemovesExactlyPadding | flight_finder.py:21 | stripping whitespace padding around a text with no whitespace at its ends gives back exactly that text |
| PyText.SplitFirst | flight_finder.py:20 | `split('=', 1)` fails exactly when there is no `=`; otherwise the parts rejoined with `=` give the input and the first part has no `=` |
| PyText.SplitFirstAt | flight_finder.py:20 | the split happens at the first `=`, whatever follows it |
| EnvLoader.ClassifyStripped | flight_finder.py:19-21 | a stripped line is blank iff empty, a comment iff it starts with `#`, and malformed iff it has text, is not a comment and has no `=` |
| EnvLoader.ClassifyLine | flight_finder.py:18-21 | the same three cases, decided on the stripped raw line |
| EnvLoader.ClassifyAll | flight_finder.py:17-18 | one reading per line of the file |
| EnvLoader.ClassifyAllAt | flight_finder.py:17-18 | the reading of line j is that line's own classification |
| EnvLoader.Settable | flight_finder.py:21 | the pairs `os.environ` accepts: a non-empty name and no NUL in name or value; its effect is stated by `EnvLoader.Step` and `EnvLoader.RefusedVariableRaises` |
| EnvLoader.RefusedVariableRaises | flight_finder.py:21 | storing an empty name or a NUL character raises and writes nothing |
| EnvLoader.Step | flight_finder.py:19-21 | one iteration: blank and comment lines change nothing; a malformed line or a refused pair raises and writes nothing; an accepted pair sets exactly that key |
| EnvLoader.LoadKinds | flight_finder.py:17-21 | the loop never removes a variable from the environment |
| EnvLoader.LoadLines | flight_finder.py:15-21 | `load_env` on a file's lines never removes a variable from the environment |
| EnvLoader.Environ.constructor | flight_finder.py:21 | the environment starts as the given map |
| EnvLoader.ApplyLine | flight_finder.py:18-21 | one pass of the loop body changes `os.environ` and raises exactly as `Step` says for that line's reading |
| EnvLoader.LoadOneMore | flight_finder.py:17-21 | one more line either finds the load already stopped or takes one step |
| EnvLoader.LoadStopsAt | flight_finder.py:17-21 | once a line raises, the lines after it are not read |
| EnvLoader.LoadEnv | flight_finder.py:15-21 | the imperative loop leaves `os.environ` and the raised error exactly as the specification `LoadLines` says, including the partial update before a raising line |
| EnvLoader.LoadConcat | flight_finder.py:17-21 | loading two parts of a file is loading the first, then, unless it raised, the second on the result |
| EnvLoader.LoadSucceedsIffAllAccepted | flight_finder.py:17-21 | the load completes exactly when no line is malformed or refused |
| EnvLoader.IgnoredLineIsNoOp | flight_finder.py:19 | removing a blank or comment line never changes the outcome |
| EnvLoader.LastAssignmentWins | flight_finder.py:17-21 | after a completed load, a key holds the value of its last assignment |
| EnvLoader.UnassignedKeyUnchanged | flight_finder.py:21 | a key that no line assigns is present with the same value, or absent, as before, even when the load raises |
| EnvLoader.FailureKeepsEarlierWrites | flight_finder.py:20-21 | the first rejected line ends the load with its own error; the lines before it stay written and later lines are not applied |
| EnvLoader.AssignmentSplitsAtFirstEquals | flight_finder.py:20-21 | key and value are the stripped texts before and after the first `=` |
| EnvLoader.MissingSeparatorRejected | flight_finder.py:20 | a non-blank, non-comment line with no `=` is rejected with its stripped text |
| SearchParams.ToDict | flight_finder.py:35-46 | `to_dict` has exactly the nine parameter names, each mapped to its own field |
| SearchParams.FromDict | flight_finder.py:35-46 | the fields can be read back from a map exactly when all nine names are present |
| SearchParams.ToDictRoundTrip | flight_finder.py:24-46 | reading back the serialised parameters gives the original record |
| SearchParams.FromDictRoundTrip | flight_finder.py:35-46 | a map with exactly the nine names is the serialisation of what is read from it |
| SearchParams.ToDictInjective | flight_finder.py:35-46 | two different searches never send the same parameters |
| SearchParams.DefaultLimitIs30 | flight_finder.py:24-29 | without an explicit `limit`, the request carries `limit` 30 |
| Calendar.DaysInMonth | flight_finder.py:75-76 | every month has 28 to 31 days |
| Calendar.DaysBeforeYearCounts | flight_finder.py:75-76 | Python's closed-form count of days before a year equals the year lengths added one by one |
| Calendar.DaysBeforeMonthCounts | flight_finder.py:75-76 | the cumulative month table equals the month lengths added one by one |
| Calendar.IsValid | flight_finder.py:75-76 | the dates `datetime` accepts: years 1 to 9999, months 1 to 12, days up to the month's length; `Calendar.ParseDate` and `Calendar.MalformedFormsRefused` state its use |
| Calendar.Ordinal | flight_finder.py:75-76 | `toordinal()`'s closed form equals the count of days from 0001-01-01, year by year and month by month |
| Calendar.DaysBetween | flight_finder.py:75-76 | `(later - earlier).days` is the difference of the day counts; it is positive iff `later` comes later on the calendar and zero iff the dates are equal |
| Calendar.OrdinalOrder | flight_finder.py:75-76 | ordinals follow calendar order, and equal ordinals mean the same date |
| Calendar.MonthField | flight_finder.py:75 | the `%m` field reads only months 1 to 12 |
| Calendar.DayField | flight_finder.py:75 | the `%d` field reads only days 1 to 31 |
| Calendar.ParseDate | flight_finder.py:75-76 | strptime gives only dates that exist |
| Calendar.FormatDate | flight_finder.py:75-76 | the canonical text is ten characters with `-` at positions 4 and 7 |
| Calendar.ParseFormatRoundTrip | flight_finder.py:75-76 | the canonical `YYYY-MM-DD` text of every date reads back as that date |
| Calendar.FormatParseRoundTrip | flight_finder.py:75-76 | a ten-character, zero-padded text that reads as a date is that date's canonical text |
| Calendar.LenientFormsAccepted | flight_finder.py:75-76 | an unpadded month and day and a space-padded day are accepted |
| Calendar.MalformedFormsRefused | flight_finder.py:75-76 | trailing text, a nonexistent date and year 0 are refused |
| Selection.ReadDate | flight_finder.py:75-76 | a missing key raises KeyError with its name, and a text strptime refuses raises with that text; otherwise the result is the parsed date |
| Selection.TripDays | flight_finder.py:75-76 | the result is `(return - depart).days` of the two parsed dates when both read; otherwise the return date's exception if it fails, else the departure date's |
| Selection.TripDaysFollowsCalendar | flight_finder.py:75-76 | the difference is the day count from departure to return: positive iff the return date follows the departure date, and zero iff they coincide |
| Selection.KeptReturnsAfterDeparture | flight_finder.py:73-77 | every kept offer returns after it departs |
| Selection.OneWeekIsNotEnough | flight_finder.py:76 | a stay of exactly 7 days is dropped and one of 8 days is kept |
| Selection.Kept | flight_finder.py:75-76 | the comprehension's condition: both dates read and the stay exceeds 7 days; `Selection.ShortListMembers` and `Selection.OneWeekIsNotEnough` state its effect |
| Selection.Verdict | flight_finder.py:75-76 | the condition raises iff the day difference raises, and otherwise holds exactly for kept offers |
| Selection.Comprehension | flight_finder.py:73-77 | a comprehension never yields more records than it is given |
| Selection.ComprehensionSucceeds | flight_finder.py:73-77 | a comprehension completes exactly when its condition can be evaluated on every record |
| Selection.FirstFailureReported | flight_finder.py:73-77 | a comprehension raises the exception of the first record whose condition raises |
| Selection.ComprehensionKeepsOrder | flight_finder.py:73-77 | the comprehension of two lists joined is the two comprehensions joined |
| Selection.ComprehensionCounts | flight_finder.py:73-77 | each record the condition keeps appears as often as in the input, others never |
| Selection.ComprehensionIgnoresPrice | flight_finder.py:73-77 | inputs differing only in price give outcomes differing only in price |
| Selection.ShortList | flight_finder.py:73-77 | `short_listed` is never longer than the response's list |
| Selection.ShortListSucceeds | flight_finder.py:73-77 | `short_listed` is built exactly when every record's dates read |
| Selection.ShortListFirstFailure | flight_finder.py:73-77 | otherwise the first unreadable record's exception propagates |
| Selection.ShortListKeepsOrder | flight_finder.py:73-77 | `short_listed` keeps the response's order |
| Selection.ShortListCounts | flight_finder.py:73-77 | a kept offer appears in `short_listed` as often as in the response, a dropped one never |
| Selection.ShortListMembers | flight_finder.py:73-77 | `short_listed` holds exactly the kept offers |
| Selection.ShortListIgnoresPrice | flight_finder.py:73-77 | prices do not affect which offers are short-listed |
| Selection.LeastMinutes | flight_finder.py:79 | a row with the fewest minutes; there is none iff no row has minutes |
| Selection.Shortest | flight_finder.py:79-80 | the first row after sorting by duration: there is none (no column) iff no row has the key; otherwise the row has the fewest minutes, or is the first row when no row has minutes |
| Selection.NullDurationKeepsColumn | flight_finder.py:79-80 | a null duration keeps the column, so the first row is chosen; with no key anywhere nothing is |
| Selection.LeastMinutesIgnoresPrice | flight_finder.py:79 | prices do not affect the row with the fewest minutes |
| Selection.ShortestIgnoresPrice | flight_finder.py:79-80 | prices do not affect which row comes first |
| Selection.BestFlight | flight_finder.py:73-80 | a response without `data` raises KeyError; a short-list exception propagates; otherwise it fails with KeyError `duration` iff no short-listed offer has the key, and else gives a short-listed offer with the fewest minutes, or the first short-listed offer when none has minutes |
| Selection.BestFlightIsShortestKept | flight_finder.py:73-80 | in terms of the response: the choice is a kept offer with the fewest minutes among kept offers, and it fails iff no kept offer has the `duration` key |
| Selection.PriceIsIgnored | flight_finder.py:73-80 | responses differing only in prices fail alike or choose the same offer |

## Left out

- Opening and reading the `.env` file, including its default name and its line splitting, is left out. `LoadEnv` is given the lines.
- The process environment's text encoding is left out: a name or value the file-system encoding cannot encode would also raise.
- `FlightFinder.__init__`, `find_flights` and the HTTP request are left out. So are the access token, the URL and JSON decoding. `BestFlight` is given the decoded response.
- The search parameters that `best_flight` hard-codes are left out, because they only feed the request. The `FlightSearchParams` record models them.
- The `__main__` entry point and the printed table are left out.
- `SearchParams.FlightSearchParams`: the source's object is never changed after `__init__`, so it is a value here. Field values are limited to texts and integers, the two kinds the code passes.
- Calendar.ParseDate: strptime's `\d` also matches non-ASCII decimal digits. The model reads only ASCII digits, and so refuses dates written with other scripts' digits. It also leaves out the case-insensitive matching, which makes no difference for this format.
- Selection.Shortest: among offers of equal least duration, pandas' unstable sort fixes no order. The function picks the earliest, but its contract promises only an offer of least duration.
- The pandas internals are left out: building the `DataFrame`, a `duration` that is neither a number nor null, and the one-row table `head(1)` returns. The result is the chosen record.
- `EnvLoader.Settable` and the map of names use POSIX `os.environ` rules. On Windows, `os.environ` upper-cases names, so `foo` and `FOO` are one variable, and `putenv` refuses other names. `EnvLoader.LastAssignmentWins` and `EnvLoader.UnassignedKeyUnchanged` do not describe that platform.
- A response whose `data` is not a list of records, and a date field that is not text, are left out.
- `itinerary_planner.py`, the chat-completion itinerary step, is not part of this model.
