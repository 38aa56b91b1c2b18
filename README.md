# CSV/TSV Splitter — a Dafny model of the partition-and-name engine

The CSV/TSV Splitter is a small web tool. It takes an uploaded table of
digitised newspaper articles, which needs an `ocr` column (the article text)
and a `date` column, and optionally has `newspaper` and `spatial` columns.
It returns a ZIP archive of plain-text files, split one of five ways:

- **Per Row**: one file per row, named after the row's date. A row without a
  date is named `unknown`. Repeated names get a running counter:
  `2023-07-01.txt`, `2023-07-01_2.txt`, …
- **Per Month / Per Year / Per Newspaper / Per Spatial**: one file per
  distinct key, in ascending key order. Each file holds the OCR texts of its
  rows in input order, joined by the separator `\n\n---\n\n`. Newspaper and
  spatial names are sanitised: every character that is not alphanumeric,
  space, `-` or `_` becomes `_`.

This project models the engine behind the "Generate ZIP" button. It covers:

- the column checks;
- date normalisation and the derived `year` and `month` columns;
- the per-row naming loop with its `date_counts` dictionary;
- the grouping pass, the join of each group's texts and file-name sanitising.

The archive is modelled as the list of `(name, content)` entries written to
it, in writing order.

Modules:

- `Wrappers`: `Option`.
- `Decimal`: decimal rendering, zero padding and parsing back, as used in
  file names.
- `Counting`: occurrence counts and the running-count dictionary.
- `Text`: filename sanitising, `str.join`, and a `str.split` partner used to
  state the join's round trip.
- `Records`: the table, the normalised record, the strategies, and the date
  and month labels.
- `PerRow`: the per-row naming loop, its specification and the uniqueness
  of its names.
- `Grouping`: key order, group membership, the grouping pass and the writing
  of grouped entries.
- `Splitter`: the whole action, `Generate`.

Where the code and its documented intent differ, the model follows the code:

- The grouped strategies do **not** add a numeric suffix to repeated file
  names. Two newspapers whose names sanitise to the same text (`A/B` and
  `A:B`) give two entries with the same name (`Grouping.DuplicateNameExample`).
- When the `newspaper` or `spatial` column is missing for its strategy, the
  code shows an error, but the ZIP it builds is still offered, and it holds
  no file. `Generate` returns the error together with an empty archive. A
  missing `ocr` or `date` column gives an error and no archive.
- Per Month keeps rows without a date: `to_period('M').astype(str)` turns a
  missing month into the text `NaT`, so `groupby` sees a real key and writes
  `NaT.txt`. Per Year, Per Newspaper and Per Spatial group on a missing value,
  which `groupby` drops by default, so such rows appear in no file.

## Model

| member | source | states |
|---|---|---|
| Records.Derive | app.py:29-32 | a missing date cell gives a missing date; otherwise the date is the parser's result; the year is present exactly when the date is and equals its year; the month is the date's month label (`YYYY-MM` for a date, see `Records.MonthLabelShape`), which is `NaT` exactly when the date is missing; other cells pass through unchanged |
| Records.Normalize | app.py:29-32 | normalisation keeps the row count and order, each row derived on its own |
| Records.MonthLabel | app.py:32 | the month label is `NaT` exactly when the date is missing |
| Records.MonthLabelShape | app.py:32 | a calendar date's month label has the form `YYYY-MM` and parses back to the date's year and month |
| Records.MonthLabelExample | app.py:32 | 2023-07-01 has month label `2023-07` |
| Records.DateKey | app.py:48 | a `%Y-%m-%d` key starts with a digit and contains no underscore (`Records.NoUnderscore`) |
| Records.DateKeyShape | app.py:48 | a calendar date's key is its month label, `-`, and a two-digit day that parses back to the day; ten characters in all |
| Records.BaseKey | app.py:47-50 | the per-row base is `unknown` exactly when the date is missing, and never contains an underscore |
| Records.Content | app.py:57 | a file's content is the OCR text, or the empty string when it is missing |
| Records.Texts | app.py:63-66 | the contents of the rows, one per row in row order |
| Decimal.PadRoundTrip | app.py:48 | zero-padded decimal rendering parses back to the number |
| Decimal.PadWidth | app.py:48 | a number below 10^w padded to width w has exactly w digits |
| Decimal.DecInjective | app.py:56 | distinct counters render as distinct digit strings |
| Counting.CountPositive | app.py:51-53 | the running count of a value is positive exactly when the value has occurred |
| Counting.CountPrefixGrows | app.py:51-52 | two rows with the same base get strictly increasing running counts, the first at least 1 |
| Counting.CountMapStep | app.py:51-52 | one dictionary update sets only the current key, to its previous count (0 when absent) plus one |
| Text.Sanitize | app.py:87-90 | sanitising keeps the length, keeps every safe character, turns every other one into `_`, and yields only safe characters |
| Text.SanitizeFixedPoint | app.py:87-90 | a name is left unchanged by sanitising exactly when all its characters are safe |
| Text.SanitizeIdempotent | app.py:87-90 | sanitising twice is sanitising once |
| Text.JoinLength | app.py:63-66 | joining k parts adds exactly k - 1 separators to their total length |
| Text.JoinExample | app.py:63-66 | texts `A`, `B`, `C` join to `A\n\n---\n\nB\n\n---\n\nC` |
| Text.Find | app.py:63-66 | the split partner's search returns the first occurrence of the separator at or after the start, or the end when there is none |
| Text.SplitJoin | app.py:63-66 | splitting a join on the separator gives back the parts, when no part runs into the separator |
| PerRow.SuffixHasUnderscore | app.py:53-56 | over a base without `_`, a file name has no `_` exactly when the count is 1 |
| PerRow.FileNameInjective | app.py:53-56 | over bases without `_`, a file name determines both its base and its count |
| PerRow.BaseKeys | app.py:46-50 | one base per row, in row order, each the row's date key or `unknown` |
| PerRow.RowNameFirst | app.py:51-56 | a row's file is unsuffixed exactly when no earlier row has the same base |
| PerRow.RowNameStep | app.py:51-56 | looking a base up in the dictionary of the rows so far gives the row's file name and the next dictionary |
| PerRow.RowNamesDistinct | app.py:45-58 | two rows never get the same file name |
| PerRow.PerRowNamesDistinct | app.py:45-58 | the per-row archive never repeats a file name |
| PerRow.NameRows | app.py:45-58 | the loop writes exactly the specified entries (the row's name with its running count, and its content) and ends with the dictionary counting each base |
| PerRow.SplitPerRow | app.py:43-58 | one entry per row, equal to the specification; the final dictionary holds each base's occurrence count; entry names are pairwise distinct |
| PerRow.CollisionExample | app.py:45-56 | dates 2023-07-01, 2023-07-01, 2023-07-02 give `2023-07-01.txt`, `2023-07-01_2.txt`, `2023-07-02.txt` |
| Grouping.LexIrreflexive | app.py:61 | string order is irreflexive |
| Grouping.LexTransitive | app.py:61 | string order is transitive |
| Grouping.LexTotal | app.py:61 | any two distinct strings are ordered one way or the other |
| Grouping.BelowIrreflexive | app.py:70 | the key order is irreflexive |
| Grouping.BelowTransitive | app.py:70 | the key order is transitive |
| Grouping.BelowAsymmetric | app.py:70 | the key order is asymmetric |
| Grouping.BelowTotal | app.py:70 | any two distinct keys are ordered one way or the other |
| Grouping.Insert | app.py:61 | inserting a key into an ascending, repetition-free key list keeps it so and adds exactly that key |
| Grouping.SortedKeys | app.py:61 | the visited keys are strictly ascending and are exactly the keys some row carries |
| Grouping.SortedKeysSnoc | app.py:61 | one more row inserts its key, if any, into the visited keys |
| Grouping.MembersSnoc | app.py:61-66 | one more row extends its own group by its text and no other group |
| Grouping.MembersCount | app.py:61-66 | a group has as many texts as there are rows with its key |
| Grouping.MembersRank | app.py:61-66 | row i's text sits in its group at the index given by the number of earlier rows with that key, so each group keeps input order |
| Grouping.MembersFrom | app.py:61-66 | every text of a group is the text of a row that has the group's key |
| Grouping.MembersNonEmpty | app.py:61-66 | a key that occurs has a non-empty group |
| Grouping.SingleGroup | app.py:61-66 | when all rows share one key there is one group, holding every text in input order |
| Grouping.TwoGroups | app.py:61 | two rows with distinct, ordered keys give those two groups in that order |
| Grouping.KeyOf | app.py:61-105 | the group key is the month label (always present), the year, the newspaper or the spatial value; a missing year, newspaper or spatial value gives no key |
| Grouping.GroupKeys | app.py:61-105 | one group key per row, in row order |
| Grouping.GroupedEntriesCount | app.py:61-116 | a grouped archive has exactly one entry per distinct present key |
| Grouping.GroupedContent | app.py:61-67 | each entry's content is its group's non-empty text list joined by the separator; its length is the texts' total plus one separator per gap; splitting it gives back the texts when they are clean |
| Grouping.GroupRows | app.py:61 | the grouping pass yields the ascending key list and a dictionary holding, for each present key exactly, the texts of its rows in input order |
| Grouping.WriteGroups | app.py:61-67 | the writing loop produces exactly the specified entries, in ascending key order |
| Grouping.SplitGrouped | app.py:60-116 | a grouped strategy writes exactly the specified grouped archive |
| Grouping.PerMonthExample | app.py:60-67 | three July 2023 rows `A`, `B`, `C` give the one file `2023-07.txt` holding the three texts joined by the separator |
| Grouping.SanitizeExample | app.py:85-91 | newspaper `Daily/Herald: Edition` is written to `Daily_Herald_ Edition.txt` |
| Grouping.DuplicateNameExample | app.py:85-96 | newspapers `A/B` and `A:B` give two entries, both named `A_B.txt` |
| Splitter.ExtraColumn | app.py:78-99 | only Per Newspaper and Per Spatial need an extra column: `newspaper` for the first and `spatial` for the second |
| Splitter.Generate | app.py:24-116 | a missing `ocr` column, then a missing `date` column, is reported with no archive; otherwise the archive is the per-row or grouped archive of the normalised rows; a missing `newspaper`/`spatial` column for its strategy is reported with an empty archive |

## Left out

- The web interface (page setup, upload widget, preview, select box, buttons, download button and archive file name) is not modelled. The strategy is a parameter of `Generate`.
- CSV/TSV parsing (`pd.read_csv`, and choosing the tab separator by file extension) is not modelled. `Generate` takes the parsed table: its column names, and its cells as the text `str(cell)` gives, with `None` for a missing cell.
- `pd.to_datetime(..., errors='coerce')` is the parameter `parse`. Unparseable dates are whatever `parse` maps to `None`; the date formats pandas accepts are not modelled.
- The ZIP container, DEFLATE compression and the UTF-8 encoding of names and contents are not modelled. The archive is its list of entries in writing order.
- Text.IsAlnum: taken as ASCII letters and digits, whereas Python's `str.isalnum` also accepts non-ASCII letters and digits, which the model turns into `_`.
- Grouping.Below: newspaper and spatial cells are ordered as strings. A column that pandas reads as numbers would be grouped and sorted numerically, which the model does not capture.
- Grouping.KeyOf: rows with a missing year, newspaper or spatial value are dropped, as `groupby`'s default `dropna=True` does. Other pandas settings are not modelled.
- Records.Calendar: the range of pandas timestamps (years 1677 to 2262) is not modelled. The format lemmas assume only a four-digit year, a month 1 to 12 and a day 1 to 31.
- Text.SplitJoin: the round trip needs every text to be clean. No text may contain the separator, and none may end in a way that makes a separator occurrence straddle the boundary with the next text. Because the separator's only proper prefixes that are also its suffixes are `\n` and `\n\n`, these are the texts ending in `\n\n---` or `\n\n---\n`. Texts that do so cannot be recovered by splitting.
- PerRow.NameRows: the loop takes each row's base name and content already computed (`PerRow.BaseKeys`, `Records.Texts`), rather than formatting the date inside the loop.
- Iterating rows with `iterrows` and the group objects of `groupby` are modelled by their outcome: the rows in input order and each group's texts in input order.
