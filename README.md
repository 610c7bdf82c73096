# Attendance summary: a Dafny model of the aggregation core

The application turns an attendance export from one of two webinar platforms
into a summary table with one row per contact. This project models the part
of `app.py` that runs once a file has been read into a frame of text cells:

- the shared helper `get_most_frequent_first_name` and its inner
  `most_frequent_name`;
- the Growthflow pipeline (`process_growthflow` from the schema check on):
  split the `Attendance_Day` cells on commas into sets, explode them, count
  each email's distinct days with `nunique`, keep the first row per email and
  run the helper;
- the WebinarJam pipeline (`process_webinarjam` from the schema check on):
  strip `Phone number`, map `Attended live` to 1 or 0, sum per
  (first name, email, phone) and rename the columns.

Everything here is pure functions over sequences, sets and maps. The source
makes no in-place change that callers can observe. The column rewrites at
app.py:46, 49, 89 and 92 apply one function to every cell, and the one at
app.py:55 is a per-email `transform`: each email's group is folded to a
count, which is written back to every row of that group. Each becomes a
function from the old frame to the new one. The modules follow the
program's structure:

| module | contents |
|---|---|
| `Text` | Python's `str` order, `split(',')` and its inverse, ASCII `lower()` and `strip()` |
| `Seqs` | first occurrence and de-duplication in sequences |
| `GroupKeys` | group keys as tuples of strings, their order, and the sorted distinct keys `groupby` lists |
| `Tables` | the read frame, the required-columns check, the schema error |
| `Summary` | summary rows, `groupby` on them, `most_frequent_name` and `get_most_frequent_first_name` |
| `Growthflow` | the Growthflow pipeline |
| `WebinarJam` | the WebinarJam pipeline |

A frame is a header plus one map from column name to cell per row. A missing
required column gives `Err(MissingColumns(source, expected))`, where the
application shows an error and returns `None`. `Process` in both pipeline
modules requires only that every row has a cell for every header column,
which holds for any frame pandas builds.

Where the comments in `app.py` and the code disagree, the model follows the
code:

- The comment at app.py:48 speaks of normalising day tokens, but
  `x.split(',')` trims nothing. `"Mon, Tue"` gives `"Mon"` and `" Tue"`.
  `"Mon,"` gives `"Mon"` and `""`, and the empty token counts as a day.
- The comment at app.py:57 promises the most frequent first name. But
  `drop_duplicates(['Email'])` runs before the helper, so each email's group
  has a single row. The Growthflow name and phone are those of the first input
  row with that email (`Growthflow.Aggregate`, `Growthflow.FirstSeenNameWins`).
- `groupby` sorts its keys, so both summaries come out in ascending key order,
  not in order of first appearance. The Growthflow key is the email. The
  WebinarJam key is the (first name, email, stripped phone) triple.
- The attendance flag compares the lower-cased but unstripped value with
  `"yes"`, so `" yes"` counts 0.
- The group keys (the email, or the triple of strings) are sorted by Python's
  string order, code point by code point with a proper prefix first. It is
  defined explicitly as `Text.StrLess`, and tuples of strings compare
  element by element (`GroupKeys.KeyLess`).

## Model

| member | source | states |
|---|---|---|
| Text.StrLessIrreflexive | app.py:16 | no email is sorted before itself |
| Text.StrLessTransitive | app.py:16 | the string order used to sort group keys is transitive |
| Text.StrLessTotal | app.py:16 | any two different strings are ordered one way or the other, so sorting the keys is determined |
| Text.SplitComma | app.py:49 | `split(',')` gives at least one piece, and no piece contains a comma |
| Text.JoinSplit | app.py:49 | joining the pieces with commas gives the cell back: nothing is trimmed or dropped |
| Text.SplitJoin | app.py:49 | comma-free pieces are exactly what splitting their join returns |
| Text.Lower | app.py:92 | definition of ASCII lower-casing: same length, each character mapped by itself; what the flag makes of it is stated by `WebinarJam.AttendedFlagCases` |
| Text.Strip | app.py:89 | the stripped phone is a slice of the cell with only white space around it, and it neither starts nor ends with white space |
| Text.StripIdempotent | app.py:89 | stripping an already stripped phone changes nothing |
| GroupKeys.KeyLessIrreflexive | app.py:95 | no key tuple sorts before itself |
| GroupKeys.KeyLessTransitive | app.py:95 | the tuple order is transitive |
| GroupKeys.KeyLessTotal | app.py:95 | any two different key tuples are ordered |
| GroupKeys.KeyLessSingle | app.py:16 | one-column keys sort as their emails do |
| GroupKeys.SortedDistinct | app.py:16 | the listed group keys are strictly ascending and are exactly the keys in the input |
| GroupKeys.AscendingUnique | app.py:16 | any two strictly ascending lists with the same keys are equal, so the order of the listed keys is fully determined |
| Summary.FirstMostCommon | app.py:12 | the position found holds a name of maximal count, and every earlier position has a smaller count |
| Summary.MostFrequentName | app.py:10-13 | `''` for no names; otherwise a name from the list whose count is maximal and which, among names of that count, appears first |
| Summary.MostFrequentNameUnique | app.py:10-13 | any name meeting that description is the result, so tie-breaking by first occurrence fixes the answer |
| Summary.MostFrequentNameSingle | app.py:17 | a one-name list gives that name |
| Summary.Total | app.py:19 | definition of the `'sum'` aggregation; its properties are stated by `Summary.TotalCons` and `WebinarJam.AllGroupsTotal` |
| Summary.TotalCons | app.py:19 | the sum of a row followed by a frame is the row's attendance plus the frame's sum |
| Summary.Group | app.py:16 | a group holds only rows carrying its key, and a key present in the input has a non-empty group |
| Summary.KeyPositions | app.py:16 | the positions of the rows carrying a key: in range, each carrying the key, strictly ascending |
| Summary.KeyPositionsFromSound | app.py:16 | the positions found from a starting point on are in range, at or after it, carry the key and ascend |
| Summary.KeyPositionsFromComplete | app.py:16 | every position from a starting point on whose row carries the key is found |
| Summary.GroupFrom | app.py:16 | the group of a suffix is the suffix's rows at the key's positions, in order |
| Summary.GroupIsFilter | app.py:16 | a group is exactly the input filtered by its key: every row with the key, no other, in input order |
| Summary.GroupByEmailHead | app.py:18 | the first row of an email's group is the first input row with that email, which `'first'` takes the phone from |
| Summary.GroupOfDistinctEmails | app.py:16 | when every email occurs once, an email's group is that single row |
| Summary.GroupKeysOf | app.py:16 | the group keys are strictly ascending and exactly the keys of the rows |
| Summary.SummarizeEmailGroup | app.py:16-20 | definition of one output row of the helper (the group's most frequent name, first phone, summed attendance); what it yields per email is stated by `Summary.AggregateByEmail` |
| Summary.AggregateByEmail | app.py:9-20 | one row per distinct input email, in strictly ascending email order. Its name is the most frequent name of that email's rows, its phone the phone of the first such row, its attendance the sum over those rows |
| Summary.AggregateOfDistinctEmails | app.py:16-20 | when every email occurs once, each output row is the input row with that email, unchanged |
| Growthflow.Attendees | app.py:43 | one attendee per frame row, in order |
| Growthflow.DaySet | app.py:49 | the day set is empty exactly for the empty cell, and no day holds a comma; the full description is `Growthflow.DaySetPieces` |
| Growthflow.DaySetPieces | app.py:49 | an empty cell gives no days; any other cell gives exactly the comma-free pieces that join back to it |
| Growthflow.DaySetOfJoin | app.py:49 | a non-empty cell joined from comma-free pieces has exactly those pieces as its set of days |
| Growthflow.DaySetTrailingComma | app.py:49 | `"Mon,"` gives the days `"Mon"` and `""` |
| Growthflow.DaySetRepeatedToken | app.py:49 | `"Mon,Tue,Mon"` gives two days |
| Growthflow.DaySetUntrimmed | app.py:49 | `"Mon, Tue"` gives `"Mon"` and `" Tue"` |
| Growthflow.DayTokens | app.py:49-52 | the cell's days listed without repetition, exactly the members of its day set |
| Growthflow.ExplodeOne | app.py:52 | exploding a row gives at least one row, each with the row's name, email and phone |
| Growthflow.ExplodeOneRows | app.py:52 | an attendee with an empty day set gives one row with a missing day; otherwise every row carries a day of the set, and no two carry the same day |
| Growthflow.ExplodeOneDays | app.py:52 | the exploded rows of one row carry exactly that row's day set, under its email |
| Growthflow.Explode | app.py:52 | no input row is dropped: there are at least as many exploded rows as input rows; emails, first rows and days are stated by `Growthflow.ExplodeEmails`, `Growthflow.ExplodeFirst` and `Growthflow.ExplodeDays` |
| Growthflow.ExplodeEmails | app.py:52 | exploding keeps the set of emails |
| Growthflow.ExplodeFirst | app.py:52 | the first exploded row of an email has the name and phone of the first input row of that email |
| Growthflow.ExplodeDays | app.py:52-55 | the distinct days `nunique` counts for an email are the union of the day sets of all its input rows |
| Growthflow.DistinctDays | app.py:55 | definition of the distinct non-missing days `nunique` counts for an email; `Growthflow.ExplodeDays` states what they are |
| Growthflow.WithAttendance | app.py:55 | one tallied row per exploded row, under the same email; the count it writes back is that email's `Growthflow.DistinctDays`, whose meaning `Growthflow.ExplodeDays` states |
| Growthflow.DropSeenEmails | app.py:58 | each kept row is the first row of its email, no email is kept twice, and exactly the emails not yet seen are kept |
| Growthflow.DropDuplicateEmails | app.py:58 | `drop_duplicates(['Email'])` keeps each email exactly once, using the email's first row |
| Growthflow.Aggregate | app.py:43-58 | one row per distinct input email, strictly ascending by email. Name and phone come from the first input row with that email. Attendance is the size of the union of that email's day sets, so a token repeated across rows counts once |
| Growthflow.SingleEmail | app.py:58 | rows that all share one email give one output row, with the first row's name and phone |
| Growthflow.FirstSeenNameWins | app.py:57-58 | with names B, A, A under one email the output name is B, while `most_frequent_name` over the three names is A; days `"Mon"`, `"Mon,Tue"`, `""` give attendance 2 |
| Growthflow.Process | app.py:37-58 | error exactly when a required column is missing, naming the Growthflow columns expected; otherwise the summary of the selected columns under `Email, First Name, Phone, Attendance` |
| WebinarJam.Registrants | app.py:86 | one registrant per frame row, in order |
| WebinarJam.AttendedFlag | app.py:92 | definition of the 0/1 flag; its property is stated by `WebinarJam.AttendedFlagCases` |
| WebinarJam.AttendedFlagCases | app.py:92 | the flag is 0 or 1, and it is 1 exactly for `yes` in any mix of cases with nothing around it |
| WebinarJam.AttendedFlagExamples | app.py:92 | `Yes` and `YES` count 1; `No`, `no`, `maybe`, `" yes"` and the empty cell count 0 |
| WebinarJam.Flagged | app.py:89-92 | definition of the flagged frame: each registrant with its phone stripped and its flag; its properties are stated by `WebinarJam.FlaggedKeys`, `WebinarJam.FlaggedGroup` and `WebinarJam.FlaggedTotal` |
| WebinarJam.FlaggedKeys | app.py:89-95 | the grouping keys of the flagged frame are exactly the (name, email, stripped phone) triples of the input |
| WebinarJam.FlaggedGroup | app.py:92-95 | a key's group has one row per input row with that triple, and its attendance sum counts those rows flagged `yes` |
| WebinarJam.FlaggedTotal | app.py:92 | the attendance column of the flagged frame sums to the number of rows flagged `yes` |
| WebinarJam.AttendedAtMostRows | app.py:92-95 | a triple's count of `yes` rows is at most its number of rows |
| WebinarJam.SumByTriple | app.py:95 | one row per distinct key, strictly ascending. Each row's attendance is its group's sum, and the output's attendance sums to the input's |
| WebinarJam.TotalWhereAdd | app.py:95 | adding a key to a set of keys adds exactly that key's group sum |
| WebinarJam.GroupTotalsPartition | app.py:95 | the group sums of distinct keys add up to the attendance of the rows carrying those keys |
| WebinarJam.AllGroupsTotal | app.py:95 | the sums of all groups add up to the whole attendance column |
| WebinarJam.Aggregate | app.py:86-101 | one row per distinct (name, email, stripped phone), strictly ascending by that triple. Each attendance is the triple's number of `yes` rows, at most its number of rows; all attendances add up to the number of `yes` rows |
| WebinarJam.SeparateRowsPerName | app.py:95 | two registrations under one email with different first names give two rows; only the one flagged `Yes` counts |
| WebinarJam.Process | app.py:80-101 | error exactly when a required column is missing, naming the WebinarJam columns expected; otherwise the summary under `First Name, Email, Phone, Attendance` |

## Left out

- The Streamlit interface (logo, title, sidebar, instructions, uploader and dispatch, app.py:6 and app.py:108-148): user-interface glue with no logic of its own.
- Reading the upload (extension check, `pd.read_csv` and `pd.read_excel`, app.py:26-35 and app.py:69-78): file input through libraries outside the model. The model starts from the frame those calls return, with every cell as text.
- Writing CSV and Excel output and the download buttons (app.py:132-170): output I/O.
- pandas missing values: every cell is a plain string. Not modelled: `astype(str)` turning a missing cell into `"nan"` (app.py:46 and app.py:89), `groupby` dropping missing keys, and `.lower()` failing on a missing flag.
- The catch-all `except Exception` handlers (app.py:61-63, app.py:104-106): error plumbing. The one error the model reports itself is the missing-column error, which carries the expected columns but not the `st.error` message text.
- Text.Lower: models `str.lower()` on ASCII letters only, not full Unicode case mapping.
- Text.Strip: strips the ASCII characters `str.isspace()` accepts (tab to carriage return, 0x1c to 0x1f, space), not Unicode white space beyond ASCII.
- Growthflow.DayTokens: lists a cell's days in first-occurrence order. Python's `set` iteration order, which `explode` follows, is unspecified. No modelled result depends on that order.
- The column order of the summaries is data (`OutputColumns`). The model does not represent pandas' index or its `reset_index`.
