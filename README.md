# Anniversary calculator — a Dafny model

The anniversary calculator is a Streamlit page. It keeps a roster of people,
each with a start date, and a list of anniversary types such as "5 Years".
For a chosen calculation month it lists every anniversary that falls in that
month.

This project models the logic behind the page:

- `filter_anniversaries`. It builds the years table from the anniversary
  types and walks the roster against that table. It builds each anniversary
  date, with the February 29 rule, and keeps the rows that fall in the
  calculation month.
- The session state and the actions that change it:
  - adding and removing anniversary types;
  - adding a person, and uploading people from a CSV file;
  - exporting and importing a session;
  - stepping the calculation month back and forth.

Modules:

- `Wrappers`: `Option` and `Result`.
- `OrderedMap`: a Python `dict` as a sequence of pairs. A key that is put again
  keeps its first position and takes the new value. This is how dict
  comprehensions, `people[name] = ...` and `json.loads` of an object behave.
- `Calendar`: dates, the Gregorian leap-year test, and the anniversary date.
  Dates are limited to the range `datetime` can represent (years 1 to 9999).
  A year argument beyond the C `int` range makes `datetime` raise
  `OverflowError` rather than `ValueError`. The module also has calculation
  months and month stepping.
- `Labels`: the number of years in a label, computed as
  `int(label.split()[0])`. It follows Python's whitespace set and `int()`
  grammar (sign, ASCII digits, single underscores), with the limit of 4300
  digits that `int()` and `str()` apply. It also formats the normalised label
  `"<n> Years"`.
- `Filter`: `filter_anniversaries`, in two forms.
  - `FilterSpec` is a functional specification: the roster × years-table
    cross product, in row-major order, filtered. An overflowing target year
    anywhere aborts the whole call.
  - `FilterAnniversaries` and `PersonMatches` are the two nested loops. They
    are proved equal to `FilterSpec`.
- `Catalog`: the anniversary-type list. Adding normalises the label and skips
  exact duplicates. Removing calls `list.remove` for each selected label.
- `Session`: a class holding the three session fields (`people`,
  `anniversary_types`, the calculation month). Its methods are the page's
  actions.

## Model

| member | source | states |
|---|---|---|
| `Calendar.DaysInMonth` | st-anniversary.py:91-101 | Each month has 28 to 31 days. It has 29 exactly for February of a year that is divisible by 4, and not by 100 unless also by 400. |
| `Calendar.AnniversaryDate` | st-anniversary.py:86-101 | Any date it returns is a valid date in year start year + years. `None` is the `ValueError` from `datetime` for a target year that fits a C `int`. Larger years raise `OverflowError` instead; `Filter.Consider` checks for them before building the date. |
| `Calendar.LeapDayAnniversary` | st-anniversary.py:89-94 | A Feb 29 start gives Feb 29 when the target year is a leap year and Feb 28 otherwise. The milestone is never skipped while the target year is in range. |
| `Calendar.OtherAnniversary` | st-anniversary.py:95-101 | Any other valid start date keeps its month and day in the target year. |
| `Calendar.AnniversaryFailsOnlyOutOfRange` | st-anniversary.py:86-101 | For a valid start date, building the date fails exactly when the target year is outside 1..9999. For a target year within the C `int` range this is the `ValueError` caught at lines 112-114. Beyond that range `Filter.Consider` gives `Overflow` instead. |
| `Calendar.LeapDayExamples` | st-anniversary.py:89-101 | Worked cases: 2000-02-29 gives 2001-02-28 after 1 year and 2004-02-29 after 4 years. 1896-02-29 gives 1900-02-28, since 1900 is not a leap year. 1990-06-15 gives 2000-06-15 after 10 years. |
| `Calendar.CurrentPeriod` | st-anniversary.py:256-257 | The month of a valid date is a valid month that contains that date. |
| `Calendar.NextPeriod` | st-anniversary.py:260-263 | It fails only at December 9999. Otherwise the result is a valid month exactly one month later, so December rolls over to January of the next year. |
| `Calendar.PrevPeriod` | st-anniversary.py:250-253 | It fails only at January of year 1. Otherwise the result is a valid month exactly one month earlier, so January rolls back to December of the previous year. |
| `Calendar.NextThenPrev` | st-anniversary.py:250-263 | A next-month step followed by a previous-month step is the identity. |
| `Calendar.PrevThenNext` | st-anniversary.py:250-263 | A previous-month step followed by a next-month step is the identity. |
| `Labels.FirstToken` | st-anniversary.py:76 | `split()[0]`. It is absent exactly when the text is all whitespace. Otherwise it is the maximal whitespace-free run that starts right after the leading whitespace (`TokenAt`). |
| `Labels.TokenAtUnique` | st-anniversary.py:76 | Only one run satisfies `TokenAt`, so `FirstToken` is exactly the first word of the split. |
| `Labels.ParseLabel` | st-anniversary.py:158 | `MissingToken` (the `IndexError`) exactly when the text has no token. Any number it returns has at most 4300 digits, so `str()` can write it back. |
| `Labels.LongTokenRejected` | st-anniversary.py:158 | A token of 4301 digits is rejected: `int()` does not read past 4300 digits. |
| `Labels.ParseIntConvertible` | st-anniversary.py:158-159 | Every integer `int()` accepts has a `str()` within the digit limit, so `f"{years} Years"` does not raise. |
| `Labels.ParseIntOfString` | st-anniversary.py:158-159 | `int(str(n)) == n` for every integer `str` can write, negative ones included. |
| `Labels.FormatLabelRoundTrip` | st-anniversary.py:158-159 | For every `n` that `str` can write, the normalised label `"<n> Years"` has the first token `str(n)` and parses back to `n`. |
| `Labels.FormatLabelInjective` | st-anniversary.py:159-160 | Different year counts give different normalised labels. |
| `OrderedMap.Put` | st-anniversary.py:209 | After `d[k] = v`, `k` maps to `v` and every other key is unchanged. The key order is unchanged if `k` was present; otherwise `k` is appended. Keys stay distinct. |
| `OrderedMap.PutAllKeys` | st-anniversary.py:76 | Building a dict from a sequence of pairs keeps each key once, at its first position. |
| `OrderedMap.PutAllLast` | st-anniversary.py:76 | A key maps to the value of its last pair. |
| `Filter.Collect` | st-anniversary.py:76 | The comprehension succeeds exactly when every label parses. It then pairs each label with its years, in order. |
| `Filter.CollectFirstError` | st-anniversary.py:76 | The comprehension fails with the error of the first label that does not parse. |
| `Filter.YearsTableSpec` | st-anniversary.py:76 | The years table exists exactly when every label parses. It has distinct years and no more entries than labels. Labels with the same number of years collapse to one entry, placed where the first of them was and carrying the text of the last. |
| `Filter.YearsTableError` | st-anniversary.py:76 | A label that does not parse, with none before it, is the error of the whole call. |
| `Filter.Consider` | st-anniversary.py:84-114 | One (person, entry) pair gives `Overflow` exactly when the target year is outside the C `int` range [-2^31, 2^31-1]: `datetime` raises `OverflowError` and `except ValueError` does not catch it. It gives a date error exactly when the target year fits but the anniversary date fails. It emits exactly when the date exists and has the calculation month's month and year. An emitted row carries the name, the date, the label and the years. |
| `Filter.OverflowsNonEmpty` | st-anniversary.py:84-114 | The list of overflowing candidates is non-empty exactly when some candidate overflows. |
| `Filter.OverflowSound` | st-anniversary.py:79-101 | An overflowing candidate comes from a (person, entry) pair whose target year is beyond the C `int` range. |
| `Filter.OverflowComplete` | st-anniversary.py:79-101 | Such a pair always makes the call overflow. |
| `Filter.CrossOverflow` | st-anniversary.py:79-114 | The call overflows exactly when some person's start year plus some entry's years is beyond the C `int` range. |
| `Filter.FilterOverflow` | st-anniversary.py:63-116 | `filter_anniversaries` raises `OverflowError` exactly when the roster is not empty, every label parses, and some pair overflows. |
| `Filter.EmptyInputs` | st-anniversary.py:68-69 | An empty roster, or no anniversary types, gives no rows and no errors. |
| `Filter.RowsOrigins` | st-anniversary.py:77-111 | The rows are exactly the emitting candidates, in candidate order. Each row has a strictly increasing origin, and every emitting candidate is the origin of a row. |
| `Filter.CrossMembership` | st-anniversary.py:104-111 | An event is in the result exactly when some person of the roster and some entry of the years table emit it. |
| `Filter.CrossRowsSound` | st-anniversary.py:104-111 | Every row is emitted by some (person, entry) pair. |
| `Filter.CrossRowsComplete` | st-anniversary.py:104-111 | Every (person, entry) pair that emits an event has that event among the rows. |
| `Filter.CrossOrder` | st-anniversary.py:79-83 | Row `p` comes from candidate `o[p]`: the person at `o[p]` divided by the table length, with the entry at the remainder. Later rows come from later candidates. So the rows follow roster order, then years-table order. |
| `Filter.CrossSize` | st-anniversary.py:76-83 | There are at most people × distinct years rows and errors together. |
| `Filter.PersonMatches` | st-anniversary.py:83-114 | The inner loop reports an overflow exactly when one of the person's pairs overflows. Otherwise it yields exactly the rows and the error names of that person's pairs, in table order. |
| `Filter.FilterAnniversaries` | st-anniversary.py:63-116 | The nested loops compute exactly `FilterSpec`: no rows for an empty roster, and the label error when a label does not parse. They give `YearOverflow` when any pair overflows, and otherwise the filtered cross product. |
| `Catalog.ClassifyType` | st-anniversary.py:156-167 | "Add Type" gives `NoToken` (the uncaught `IndexError`) exactly for blank text, and `InvalidFormat` exactly when `int` fails. Otherwise it gives `"<n> Years"`, which is `Added` when that string is absent and `AlreadyExists` when it is present. |
| `Catalog.AddTypeResult` | st-anniversary.py:160-165 | The label is appended only when it is added; otherwise the list is unchanged. |
| `Catalog.AddTypeKeepsNoDuplicates` | st-anniversary.py:160-161 | A list with no repeated labels still has none after an add. |
| `Catalog.AddTypeNormalises` | st-anniversary.py:158-161 | An added label parses to the years that were typed in. Adding the same text again, or the stored label itself, then finds it already present. |
| `Catalog.DefaultOneYearAddedAgain` | st-anniversary.py:18 | The duplicate check compares strings, not years. Typing "1 Year" into the default list adds "1 Years" next to "1 Year". |
| `Catalog.FirstIndex` | st-anniversary.py:178 | The position of the first occurrence, or the length when there is none. |
| `Catalog.RemoveFirst` | st-anniversary.py:178 | `list.remove` fails exactly when the label is absent. Otherwise it deletes the first occurrence and keeps the order of the rest. |
| `Catalog.RemoveFirstCounts` | st-anniversary.py:178 | One removal takes exactly one copy of the label out of the list. |
| `Catalog.RemoveEachSpec` | st-anniversary.py:175-180 | The removal loop succeeds exactly when each selected label occurs at least as often as it is selected. The list then loses exactly the selected labels, as a multiset. |
| `Catalog.RemoveSelectedSucceeds` | st-anniversary.py:169-178 | Distinct labels picked from a list with no repeats are always removed without error. |
| `Session.RestoredPeople` | st-anniversary.py:51-52 | An absent `people` field keeps the roster. A present one replaces it with the file's entries, one per name, in first-appearance order. |
| `Session.RestoredPeopleLastWins` | st-anniversary.py:48-52 | A name repeated in the file keeps the date of its last entry. |
| `Session.ExportThenRestore` | st-anniversary.py:20-56 | Importing an exported roster gives back the same roster. |
| `Session.ParsedPrefix` | st-anniversary.py:216-220 | The stored CSV rows are the rows up to the first unparseable date, with their names and dates. |
| `Session.Session.constructor` | st-anniversary.py:126-132 | A new session has no people, the default types, and the month of today's date. |
| `Session.Session.AddType` | st-anniversary.py:156-167 | The outcome is `ClassifyType`, and the list becomes `AddTypeResult`. Nothing else changes. |
| `Session.Session.RemoveTypes` | st-anniversary.py:175-180 | The list and the success flag are those of `RemoveEach`. Removals made before a failure stay. Nothing else changes. |
| `Session.Session.AddPerson` | st-anniversary.py:201-210 | The name (even an empty one, after the error message) is set to the date, as `Put` states. Other names and fields are unchanged. |
| `Session.Session.UploadPeople` | st-anniversary.py:212-223 | The rows up to the first unparseable date are put in order. `ok` holds exactly when every row parsed. |
| `Session.Session.Export` | st-anniversary.py:20-30 | The snapshot carries the roster and the type list. |
| `Session.Session.ExportImport` | st-anniversary.py:20-56 | Importing the snapshot just exported leaves the roster, its order, the types and the month as they were. |
| `Session.Session.Import` | st-anniversary.py:41-56 | Each present field replaces its state field and an absent one leaves it. The month is unchanged. |
| `Session.Session.PrevMonth` | st-anniversary.py:250-254 | The month steps back as `PrevPeriod` says. It is unchanged where `datetime` raises. |
| `Session.Session.NextMonth` | st-anniversary.py:260-264 | The month steps forward as `NextPeriod` says. It is unchanged where `datetime` raises. |
| `Session.Session.CurrentMonth` | st-anniversary.py:256-258 | The month becomes that of today's date. |
| `Session.Session.Displayed` | st-anniversary.py:266-278 | The rows shown are `FilterSpec` of the session's roster, month and all of its anniversary types. |

## Left out

- Streamlit rendering is not modelled. This covers widgets, dialogs, `st.error` and `st.success` messages, and `st.rerun`. An error message appears in the model only as an outcome value (`InvalidFormat`, `AlreadyExists`, `nameMissing`), or as the list of names with a date error.
- Reading files is not modelled: JSON text (`json.loads`, `json.dumps`), CSV parsing (`pd.read_csv`) and byte decoding. An import arrives as a `Snapshot` whose fields are `None` where the key is absent. A CSV upload arrives as rows whose date is `None` where `pd.to_datetime` fails.
- `pd.to_datetime` and `isoformat` are not modelled. Dates are already-parsed `(year, month, day)` values, and the string `calc_date` branch at lines 71-72 is not modelled.
- `datetime.now()` is the `today` parameter of the constructor and of `CurrentMonth`.
- `relativedelta` is modelled only as month arithmetic, with the `datetime` year range at both ends.
- A JSON `people` value that is not an object (for example `null`) cannot be represented; the check at lines 206-207 only matters there. The model has no `None` roster.
- `Labels.ParseLabel`: Python's `int()` also accepts non-ASCII decimal digits, such as Arabic-Indic digits. Here they are rejected as `NotAnInteger`.
- `Catalog.RemoveEachSpec`: states the remaining labels as a multiset. The order of what remains is stated one removal at a time by `Catalog.RemoveFirst`.
- `Session.Session.Displayed`: when the roster is empty the page keeps its previous `displayed_anniversaries`. The model returns the (empty) report instead. The data-frame and record conversions are not modelled.
- Negative and zero year counts are accepted: `int("-5")` is `-5`, so `"-5 Years"` is added and gives a milestone of −5 years.
- `Filter.FilterAnniversaries`: when an `OverflowError` aborts the call, the `st.error` messages already shown for earlier date errors are not part of the `YearOverflow` result. The text of the exception is not modelled either.
- The per-person inner loop of `filter_anniversaries` is written as its own method, `Filter.PersonMatches`. The two loops together still run in the same order as the source.
