# NJIT schedule builder: a verified model of the search engine and the catalogue scraper

The schedule builder has two parts.

- **The solver** (`app.py`) takes a list of course codes, a time window and a set of allowed days. It produces every clash-free choice of one section per course, at most `MAX_SOLNS` (50) of them.
- **The scraper** (`scrape_njit.py`) turns the registrar's raw catalogue into the JSON file the solver loads. The file maps each course code to a list of section records.

The model has five modules.

- **`Wrappers`**: `Option` and `Result`.
- **`Text`**: the string operations the core relies on.
  - Decimal digits and their value: what `int()` reads.
  - `str`, and `f"{n:02d}"` as `Pad2`.
  - `str.split` and `str.join`.
  - `"".join(sorted(days))` as `SortedString`.
- **`Odometer`**: `itertools.product(*pools)` as an explicit odometer over index vectors.
  - `Product` is the whole sequence of combinations in the order the library yields them: first pool slowest, last pool fastest.
  - `Rank` is the position of an index vector in that order.
  - `Advance` is one step of the odometer.
- **`App`**: the solver.
  - `_mins` as `Mins`.
  - `Section(...)` as `MakeSection`.
  - `Section.clashes` as `Clashes`.
  - `Section.to_dict` as `ToDict`.
  - `find_schedules` as the method `FindSchedules`, which calls the method `Enumerate` for its product loop. Both are proved equal to the specification function `Solve`, and the search's properties are proved about `Solve`.
- **`Scrape`**: the scraper.
  - `DAY_MAP` and `seconds_to_hhmm`.
  - `transform` as the method `Transform`, with its section loop as `CleanSection` and its meeting loop as `ScanMeetings`. They are proved equal to the specification functions `CourseRecords`, `SectionRecord` and `RowDays`/`RowStarts`/`RowEnds`/`LastRoom`.

Modelling decisions:

- The catalogue the solver searches is a parameter (`Catalogue`, a map from code to its list of sections), not the global loaded from disk.
- A generator is modelled as the sequence it yields before stopping.
- Times are natural numbers: minutes in the solver, seconds in the scraper.

Points where the code is modelled as written:

- **No `start < end` check.** A `Section` is built whatever its times (`MakeSectionAcceptsInverted`). The clash test then no longer means "shares a minute" (`InvertedSectionClashes`). It does mean that when both sections have `start < end` (`ClashesIffSharedMinute`).
- **No truncation flag.** `find_schedules` only stops after `MAX_SOLNS` schedules. The page's "(showing first N)" note compares the count with `MAX_SOLNS`, so the note also shows when there are exactly 50 valid schedules and nothing was cut (`TruncationNote`).
- **A repeated code is an independent slot.** The same section may fill both slots when it clashes with nothing, for example when it meets on no day (`RepeatedCourseReusesSection`).
- **The empty request.** An empty list of codes yields one empty schedule, as `itertools.product()` yields one empty tuple (`EmptyRequest`).

## Model

| member | source | states |
|---|---|---|
| Text.Pad2 | app.py:50-51 | `{n:02d}` renders n as decimal digits whose value is n. They are at least two wide, exactly two below 100, and start with a padding zero only below 10, so from 10 on the rendering is `str(n)`. |
| Text.Decimal | app.py:50-51 | `str(n)` is a non-empty digit string with value n and no leading zero. It has one digit below 10 and two below 100. |
| Text.SortedString | app.py:49 | `"".join(sorted(chars))` is strictly increasing, holds exactly the characters of the set, and holds each once. |
| Text.Split | app.py:29 | `str.split(sep)` gives at least one field, and no field contains the separator. |
| Text.JoinSplit | app.py:29 | Joining the fields of `split(sep)` with `sep` gives back the original string. |
| Text.SplitTwoFields | app.py:29 | A string made of two separator-free parts around one separator splits into exactly those two parts. |
| App.MinsOfFields | app.py:28-30 | `_mins` of two digit fields around `:` is 60 * hours + minutes. The minute field is not range-checked. |
| App.MinsClock | app.py:28-30 | `_mins("HH:MM")` is 60 * HH + MM for any four digits. |
| App.MinsAccepts | app.py:28-30 | `_mins` accepts a string exactly when it is two non-empty digit fields around one `:`. |
| App.MinsFormat | app.py:50-51 | `_mins` of the `to_dict` rendering of any minute count x gives x back. For x < 6000 the rendering is five characters with `:` in the middle. |
| App.MakeSection | app.py:35-40 | A section is built exactly when both times are readable. Course and crn are kept, days become the set of the day characters, and start and end are the minutes `_mins` reads. |
| App.MakeSectionAcceptsInverted | app.py:39-40 | An end before the start is accepted: "10:00" to "09:00" gives start 600 and end 540. |
| App.ClashesSymmetric | app.py:42-43 | `a.clashes(b) == b.clashes(a)`. |
| App.BackToBackNoClash | app.py:43 | When one section ends exactly when the other starts, they do not clash, in either order. |
| App.NoDaysNoClash | app.py:43 | A section that meets on no day clashes with nothing. |
| App.ClashesIffSharedMinute | app.py:42-43 | For sections with start < end, clash holds exactly when they share a day and some minute lies in both half-open intervals. |
| App.InvertedSectionClashes | app.py:39-43 | An inverted section covers no minute yet still clashes with a section on the same day. |
| App.SectionClashesWithItself | app.py:42-43 | A section that meets on some day and has start < end clashes with itself. |
| App.ToDict | app.py:45-52 | `to_dict` keeps course and crn. Its days are strictly sorted and are the section's day letters, each once. Its start and end read back under `_mins` as the section's minutes. |
| App.ToDictRoundTrip | app.py:35-52 | Building a `Section` from its own `to_dict` gives the same section. |
| App.ResolveSpec | app.py:67-71 | Resolving the pools succeeds exactly when every code is known, and then pool i is the catalogue entry of code i. On failure the error names the first missing code. |
| App.PoolsOf | app.py:67-71 | For a request whose codes are all known, resolution succeeds with these pools. |
| App.ClashFreeAllPairs | app.py:79 | Checking the pairs that `itertools.combinations` produces (i < j) rules out a clash between any two distinct positions. |
| App.SurvivorsMembers | app.py:74-80 | A combination passes the filters exactly when it is in the product and satisfies all three tests. |
| App.SurvivorsOrder | app.py:74-81 | Any two yielded combinations come from positions of the product in the same order: the filters never reorder. |
| App.FindSchedules | app.py:66-84 | The method, with its resolution loop and the enumeration, returns exactly `Solve`: the unknown-course error, or the capped list of valid combinations. |
| App.Enumerate | app.py:73-84 | The odometer loop, with its three filters in order and the counter that breaks at `MAX_SOLNS`, returns the first `MAX_SOLNS` valid combinations in product order (all of them if fewer). |
| App.CappedAtStop | app.py:82-84 | When the loop stops, either at the end of the product or on reaching `MAX_SOLNS` schedules, what has been yielded is the capped list of valid combinations. |
| App.CappedPrefix | app.py:82-84 | The capped list is the first min(M, 50) valid combinations. |
| App.SolveUnknownCourse | app.py:68-71 | The request fails exactly when some code is unknown, before any schedule. The error names the first missing code. |
| App.SolveSchedulesFromPools | app.py:67-74 | Every yielded schedule has one section per requested code, the i-th taken from the pool of `courses[i]`. |
| App.SolveSchedulesMeetConstraints | app.py:75-79 | Every yielded section has allowed days and lies within `[start_ok, end_ok]`, and no two sections of a schedule clash. |
| App.SolveCount | app.py:82-84 | With M valid combinations, exactly min(M, `MAX_SOLNS`) schedules are yielded. |
| App.SolveIsFirstValid | app.py:74-81 | The yielded schedules are all the valid combinations of some prefix of the product, in product order, so no valid combination before the last yielded one is skipped. |
| App.SolveComplete | app.py:74-81 | With at most `MAX_SOLNS` valid combinations, a combination is yielded exactly when it takes each section from its code's pool and passes all three filters. |
| App.TruncationNote | app.py:121 | The "(showing first N)" note shows exactly when there are at least `MAX_SOLNS` valid combinations. With exactly `MAX_SOLNS` it shows although nothing was cut. |
| App.EmptyRequest | app.py:74 | An empty request yields exactly one schedule, the empty one. |
| App.BackToBackExample | app.py:66-84 | Concrete request: the two sections of CS100 (Monday, Tuesday) each combine with the MA100 section that starts when CS100 ends. The result is `[[cm, ma], [ct, ma]]`, in product order. |
| App.RepeatedCourseReusesSection | app.py:67-81 | Requesting the same code twice, whose only section meets on no day, yields that section in both slots. |
| Odometer.ProductSize | app.py:74 | The product has exactly the product of the pool sizes as its number of combinations. |
| Odometer.SizeZero | app.py:74 | The product is empty exactly when some pool is empty. |
| Odometer.ProductMembers | app.py:74 | The product holds exactly the sequences that take their i-th element from pool i. |
| Odometer.ProductAt | app.py:74 | For an in-range index vector, the combination at position `Rank` of the product is the one the vector selects. |
| Odometer.RankBelowSize | app.py:74 | An in-range index vector has a rank below the product's size. |
| Odometer.RankLexOrder | app.py:74 | An index vector lexicographically smaller than another comes earlier in the product: first pool slowest. |
| Odometer.RankZeros | app.py:74 | The all-zero index vector is the first combination. |
| Odometer.RankAllMax | app.py:74 | The vector with every index at its maximum is the last combination. |
| Odometer.RankCarry | app.py:74 | Incrementing position i and resetting the maximal positions after it moves to the next combination. |
| Odometer.Advance | app.py:74 | One odometer step reports more exactly when a next combination exists, and then moves to the vector of the next rank. |
| Scrape.DayLetter | scrape_njit.py:83 | `DAY_MAP.get(day_num, "?")` gives `?` exactly for numbers outside 1..7, and otherwise one of `UMTWRFS`. |
| Scrape.SecondsToHHMMReads | scrape_njit.py:30-32 | `seconds_to_hhmm(sec)` is the zero-padded hour `sec // 60 // 60` and the zero-padded minute `sec // 60 % 60`, joined by `:`. It has five characters below 360000 s, and `_mins` reads it back as `sec // 60`. |
| Scrape.SecondsToHHMMAsToDict | scrape_njit.py:30-32 | The scraper renders a time exactly as `Section.to_dict` renders its whole minutes. |
| Scrape.ScanMeetings | scrape_njit.py:78-86 | The meeting loop, which skips rows shorter than four elements, ends with the days, starts, ends and room of the well-formed rows. |
| Scrape.LastRoomSpec | scrape_njit.py:86 | `room = rm or room` leaves `""` exactly when no well-formed row names a room, and otherwise the room of the last row that names one. |
| Scrape.SectionRecordDropped | scrape_njit.py:75-89 | A section yields no record exactly when all its meeting rows are malformed, no rows at all included. |
| Scrape.RowStartsEmpty | scrape_njit.py:80-88 | No start time is collected exactly when every meeting row is malformed. |
| Scrape.SectionRecordFields | scrape_njit.py:91-100 | A record copies crn, section id, instructor and title unchanged, and its location is the last room named. |
| Scrape.SectionRecordDays | scrape_njit.py:93 | A record's days are strictly sorted and hold exactly the `DAY_MAP` letters of the well-formed rows, with `?` for unmapped numbers. |
| Scrape.SectionRecordStart | scrape_njit.py:94 | A record starts at the rendering of the start of a well-formed row that starts no later than any other well-formed row. |
| Scrape.SectionRecordEnd | scrape_njit.py:95 | A record ends at the rendering of the end of a well-formed row that ends no earlier than any other well-formed row. |
| Scrape.CleanSection | scrape_njit.py:62-100 | The body of the section loop returns exactly the record the section yields, or none. |
| Scrape.Transform | scrape_njit.py:54-102 | The nested loops with `setdefault(...).append` build a map with a key exactly for the codes that have records. Each key maps to the records of every entry with that code, in input order. |
| Scrape.KeptHas | scrape_njit.py:91 | The record of every surviving section is among the kept records. |
| Scrape.KeptFromSections | scrape_njit.py:91 | Every kept record is the record of one of the sections. |
| Scrape.KeptNonEmpty | scrape_njit.py:88-91 | An entry keeps some record exactly when one of its sections has a well-formed meeting row. |
| Scrape.KeptOrder | scrape_njit.py:91 | Two surviving sections keep their relative order among the kept records. |
| Scrape.CourseRecordsPresent | scrape_njit.py:91 | A code is a key of the output exactly when some entry with that code keeps a record. |
| Scrape.CourseRecordsOrigin | scrape_njit.py:91 | Every record listed under a code comes from a section of an entry with that code. |
| Scrape.CourseRecordsPrefix | scrape_njit.py:58-91 | The records of earlier entries come first under a code. |
| Scrape.RecordLoads | scrape_njit.py:91-95 | Loading a record into the solver gives the section's day letters and its block in whole minutes: the earliest start and the latest end, each rounded down to the minute. |
| Scrape.ScrapedFieldsLoad | scrape_njit.py:93-95 | Sorted day letters and two rendered times build the `Section` with those days and the whole minutes. |

Together, `SurvivorsMembers`, `SurvivorsOrder`, `ProductAt`, `RankLexOrder` and `SolveIsFirstValid` give the lexicographic-order promise. The product lists the combinations in lexicographic order of their index vectors, first pool slowest. The filters keep that order (`SurvivorsOrder`). The yielded schedules are the valid combinations of a prefix of it.

## Left out

- The web layer is outside the model: the Flask routes, form parsing, the HTML template and its rendering. The truncation note is modelled only as the comparison it makes (`ShowsTruncationNote`).
- Loading the catalogue from `all_sections.json` (`load_sections`, `SECTIONS`, `sys.exit`) is file I/O. The catalogue is a parameter of `Solve`, `FindSchedules` and `Enumerate`. `RecordLoads` states what loading one scraped record gives.
- `download`, `js_to_json`, the `json` calls and writing `all_sections.json` are network, regular-expression and file I/O, and are outside the model. `Transform` takes the already-parsed `data` array as a sequence of `RawCourse`.
- App.Mins: `int()` also accepts a sign, surrounding whitespace, underscores between digits and non-ASCII digits. The model reads only ASCII digit fields and returns `None` for anything else, where Python would raise `ValueError`. Such strings do not occur in the scraped catalogue.
- Scrape.SecondsToHHMMReads: seconds and minutes are natural numbers. Floor division of negative seconds is not modelled, because the catalogue holds times of day.
- Generator laziness and the internals of `itertools` are not modelled. `find_schedules` is modelled as the list it yields before stopping, and `itertools.product` as the odometer over index vectors.
- Tuple-unpacking failures in `transform`, from raw records or meeting rows of the wrong length, are not modelled. A meeting row is either `Short` (fewer than four elements) or a four-field `Row`.
- Ignored raw fields are not in `RawSection`: the course echo, the units and the numeric flags.
- A room of `None` and an empty room both count as no room. Both appear as `""` in `MeetingRow`.
- The insertion order of the keys of `cleaned` is not modelled. `Transform` returns a map. The order of the records under each key is modelled.
- The text of the `ValueError` message is not modelled. The error is `UnknownCourse(code)`.
- `crn` is an integer in both programs and is copied unchanged. Its JSON representation is not modelled.
