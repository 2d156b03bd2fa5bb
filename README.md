# Storm-track clean-up, modelled in Dafny

`clean_tc_dict_csv_export_cm.py` turns an IBTrACS best-track CSV file into a
6-hourly table. It goes through these steps:

- It reads the file as a list of dictionaries and throws away the units row
  that follows the header.
- For every other row it keeps seven columns. It parses `ISO_TIME` against
  three known timestamp layouts and converts `LAT` and `LON` to floats.
- A row that fails any of these is skipped with a notice.
- It keeps only the observations at 00, 06, 12 and 18 o'clock.
- It numbers the storms `1..k` by their identifier (`SID`).
- It sorts by storm number and then by time.
- Within each storm it reports every step between consecutive observations
  that is not six hours.
- It writes the table out.

The model follows that pipeline one module at a time:

| module | file | part of the script |
|---|---|---|
| `DateTimes` | datetimes.dfy | `datetime` values: validity, field order, seconds since 0001-01-01 |
| `Strptime` | strptime.dfy | `datetime.strptime` for the directives the script uses |
| `DateParsing` | parse_date.dfy | `parse_date` (lines 23-34) |
| `DateExamples` | date_examples.dfy | the sample timestamps beside the three formats |
| `DateTexts` | date_texts.dfy | every date-time written in each of the three formats, and read back |
| `Records` | records.dfy | the loader (lines 37-54) |
| `SynopticFilter` | synoptic.dfy | the 6-hourly filter (line 60) |
| `StormIds` | storm_ids.dfy | storm numbering (line 63) |
| `Sorting` | sorting.dfy | the sort (line 66) |
| `Validation` | validation.dfy | the time-step check (lines 69-74) |
| `Pipeline` | pipeline.dfy | the whole run, end to end |

`wrappers.dfy` holds the `Option` and `Result` types.

**Timestamps.**
- `strptime` is modelled as a matcher over the directive list of a format string.
- Each directive matches the texts of the regular expression Python's
  `_strptime` uses for it.
- A run of whitespace in the format matches one or more whitespace characters.
- Each directive takes the longest text it can, and backs off to a shorter
  one only when the rest of the format cannot match.
- The whole string must be consumed.
- The date-time is then built with the 12-hour-clock rule: 12 AM is hour 0,
  and PM adds 12 except to 12.
- It must be a real date: year 1..9999, a day that exists in its month, and
  seconds at most 59.
- `parse_date` tries the three formats in order on the stripped text and
  returns the first success.

**Parameters and semantics.**
- A CSV row is a `map<string, string>`. A name missing from the map is the
  `KeyError` the loader catches.
- `float()` is the function parameter `toFloat: string -> Option<real>`, where
  `None` stands for `ValueError`.
- The printed messages are returned as data: skip reasons from the loader,
  `Warning` values from the check.
- Timestamps become `SortKey` instants in seconds. The check compares them
  with `SixHours` = 21600.
- Storm numbers follow the code: `groupby('SID').ngroup()` with the default
  `sort=True` numbers the identifiers in string order. So a storm's number is
  one more than the number of distinct identifiers that sort before it. It is
  not the order in which storms first appear in the file.
- The run fails when the file has no row after the header, because `next`
  raises `StopIteration`. It also fails when no row loads, because the empty
  frame has no `ISO_TIME` column. The loader has by then printed a skip notice
  for every row, and that failure carries them.

## Model

| member | source | states |
|---|---|---|
| DateTimes.DaysInMonth | clean_tc_dict_csv_export_cm.py:31 | A month has 28 to 31 days. It has 29 exactly when it is February of a leap year. |
| DateTimes.InstantOrder | clean_tc_dict_csv_export_cm.py:66 | Seconds since 0001-01-01 order two valid date-times exactly as field-by-field comparison does. Equal instants mean equal date-times. |
| DateTimes.OrdinalMonotone | clean_tc_dict_csv_export_cm.py:66 | An earlier calendar date has a smaller day number. |
| DateTimes.NextDay | clean_tc_dict_csv_export_cm.py:70 | The same time on the following day is a valid date-time with the same time of day. |
| DateTimes.DaysBeforeDecember | clean_tc_dict_csv_export_cm.py:70 | December begins 31 days before the end of the year, in common and leap years. |
| DateTimes.InstantNextDay | clean_tc_dict_csv_export_cm.py:70-71 | The day after has the next day number, across month and year ends, so the same time a day later is 86400 seconds later: differences of instants are elapsed seconds. |
| Strptime.SkipSpaces | clean_tc_dict_csv_export_cm.py:31 | A whitespace run in a format string reaches its last whitespace character and stops at the first non-space. |
| Strptime.Candidates | clean_tc_dict_csv_export_cm.py:31 | A directive's possible match ends after a position are exactly the ends where it fits, longest first. |
| Strptime.MatchFromShape | clean_tc_dict_csv_export_cm.py:31 | A successful match splits the text into one token per directive, each fitting its directive, and the tokens concatenate back to the text matched. |
| Strptime.MatchStep | clean_tc_dict_csv_export_cm.py:31 | When the longest text a directive can take leaves a matchable rest, the engine takes it. |
| Strptime.MatchNoFit | clean_tc_dict_csv_export_cm.py:31 | A directive that fits nothing at the current position makes the match fail. |
| Strptime.MatchOfTokens | clean_tc_dict_csv_export_cm.py:31 | Tokens that fit their directives, where each stops at a non-digit, at the end of the text or after two digits (a whitespace run at a non-space), are exactly the match the engine finds. |
| Strptime.GreedyMatch | clean_tc_dict_csv_export_cm.py:31 | When every directive's piece is the longest text it fits and the rest of the format matches after it, the engine's first match is those pieces. |
| Strptime.MatchOfConcat | clean_tc_dict_csv_export_cm.py:31 | A text made of tokens one after another, each fitting its directive and stopping before the next token, is matched as exactly those tokens, up to the end of the text. |
| Strptime.AttemptOfConcat | clean_tc_dict_csv_export_cm.py:31 | strptime of such a text is the date-time its tokens denote, or fails when that is no real date-time. |
| Strptime.FitsLength | clean_tc_dict_csv_export_cm.py:31 | Every directive other than whitespace matches 1, 2 or 4 characters. |
| Strptime.NumberOfFit | clean_tc_dict_csv_export_cm.py:31 | The number read from a fitting field is its decimal value, including a day with a leading space. |
| Strptime.ClockHour | clean_tc_dict_csv_export_cm.py:31 | 12-hour clock: the hour is in 0..23, it is 12 or more exactly for PM, and it is congruent to the clock hour mod 12. |
| Strptime.Attempt | clean_tc_dict_csv_export_cm.py:31 | A successful parse is always a valid date-time. Which date-time a text yields is stated by `DateTexts.IsoRoundTrip` and its two siblings. |
| Strptime.DigitFirst | clean_tc_dict_csv_export_cm.py:31 | A format starting with %Y or %m rejects a text that does not start with a digit. |
| Strptime.AcceptedSeparators | clean_tc_dict_csv_export_cm.py:31 | An accepted text holds each of `-`, `/` and `:` exactly as often as the format has it as a literal. |
| DateParsing.FormatsCompiled | clean_tc_dict_csv_export_cm.py:24-28 | The three format strings compile to the directive lists the model uses. |
| DateParsing.StripIsSlice | clean_tc_dict_csv_export_cm.py:31 | `strip()` keeps a contiguous middle that neither begins nor ends with whitespace, and only whitespace lies outside it. |
| DateParsing.StripUnspaced | clean_tc_dict_csv_export_cm.py:31 | A text that neither begins nor ends with whitespace is unchanged by `strip()`. |
| DateParsing.SeparatorsReject | clean_tc_dict_csv_export_cm.py:24-28 | A format rejects a text whose count of `-`, `/` or `:` differs from the format's. |
| DateParsing.StripIdempotent | clean_tc_dict_csv_export_cm.py:31 | Stripping twice is stripping once. |
| DateParsing.ParseDate | clean_tc_dict_csv_export_cm.py:23-34 | The loop over the formats returns exactly `ParsedDate`: the first format's success on the stripped text, or the error. |
| DateParsing.ParsedDateFirstFormatWins | clean_tc_dict_csv_export_cm.py:29-33 | The first format that accepts the stripped text gives the result. |
| DateParsing.ParsedDateFailsIff | clean_tc_dict_csv_export_cm.py:34 | Parsing fails exactly when no format accepts the stripped text, and the error carries the original text. |
| DateParsing.ParsedDateValid | clean_tc_dict_csv_export_cm.py:31 | A parsed timestamp is a valid date-time. |
| DateParsing.ParsedDateIgnoresSurroundingSpace | clean_tc_dict_csv_export_cm.py:31 | Surrounding whitespace does not change the outcome. |
| DateParsing.SeparatorsTellApart | clean_tc_dict_csv_export_cm.py:24-28 | Two formats with different counts of a separator never accept the same text. |
| DateParsing.FormatsExclusive | clean_tc_dict_csv_export_cm.py:24-28 | No text is accepted by two of the three formats, so their order does not matter. |
| DateParsing.ParsedDateByFormat | clean_tc_dict_csv_export_cm.py:29-33 | Whichever format accepts the stripped text determines the result. |
| DateParsing.ParsedDateAnyFormat | clean_tc_dict_csv_export_cm.py:29-33 | The result is a date-time exactly when some format accepts the stripped text with it. |
| DateParsing.ParsedDateNoFormat | clean_tc_dict_csv_export_cm.py:34 | A text none of the three formats accepts gives the "does not match known formats" error. |
| DateExamples.ParsedIsoExample | clean_tc_dict_csv_export_cm.py:25 | "2024-11-17 15:00:00" parses to 2024-11-17 15:00:00. |
| DateExamples.ParsedUsTwelveHourExample | clean_tc_dict_csv_export_cm.py:26 | "11/17/2024  3:00:00 PM", with two spaces, parses to 2024-11-17 15:00:00. |
| DateExamples.ParsedUsTwentyFourHourExample | clean_tc_dict_csv_export_cm.py:27 | "9/30/2024 6:00" parses to 2024-09-30 06:00:00. |
| DateExamples.ParsedNoDateExample | clean_tc_dict_csv_export_cm.py:34 | "not-a-date" is rejected, and the error carries the text. |
| DateTexts.Pad2 | clean_tc_dict_csv_export_cm.py:25 | A number below 100 written in two digits whose decimal value is the number. |
| DateTexts.Pad4 | clean_tc_dict_csv_export_cm.py:25 | A number below 10000 written in four digits whose decimal value is the number. |
| DateTexts.Unpadded | clean_tc_dict_csv_export_cm.py:26-27 | A number below 100 written without a leading zero: one digit below 10, two from 10 on, with the number as value. |
| DateTexts.Clock12 | clean_tc_dict_csv_export_cm.py:26 | The hour a 12-hour clock shows is in 1..12, and with AM or PM it reads back as the hour of the day. |
| DateTexts.Meridiem | clean_tc_dict_csv_export_cm.py:26 | The AM/PM text fits %p and reads as PM exactly from noon on. |
| DateTexts.NumberUnpadded | clean_tc_dict_csv_export_cm.py:26-27 | `int()` of a number written without a leading zero is the number. |
| DateTexts.ValidWritable | clean_tc_dict_csv_export_cm.py:31 | Every real date-time can be written in each format. |
| DateTexts.IsoPiecesAssemble | clean_tc_dict_csv_export_cm.py:25 | The ISO pieces of a date-time assemble to that date-time when it is real, and to nothing otherwise. |
| DateTexts.UsTwelveHourPiecesHour | clean_tc_dict_csv_export_cm.py:26 | The 12-hour clock piece and the AM/PM piece read back as the hour of the day. |
| DateTexts.UsTwelveHourPiecesAssemble | clean_tc_dict_csv_export_cm.py:26 | The 12-hour US pieces assemble to the date-time when it is real, and to nothing otherwise. |
| DateTexts.UsTwentyFourHourPiecesAssemble | clean_tc_dict_csv_export_cm.py:27 | The 24-hour US pieces assemble to the date-time with 0 seconds when that is real, and to nothing otherwise. |
| DateTexts.IsoRoundTrip | clean_tc_dict_csv_export_cm.py:25 | strptime with `%Y-%m-%d %H:%M:%S` reads back every real date-time written in that format, and fails for fields that are no real date-time (30 February, second 60, year 0). |
| DateTexts.UsTwelveHourRoundTrip | clean_tc_dict_csv_export_cm.py:26 | The same for `%m/%d/%Y %I:%M:%S %p`, with month, day and hour written without leading zeros. |
| DateTexts.UsTwentyFourHourRoundTrip | clean_tc_dict_csv_export_cm.py:27 | The same for `%m/%d/%Y %H:%M`: the date-time comes back with 0 seconds. |
| DateTexts.IsoOthersReject | clean_tc_dict_csv_export_cm.py:24-28 | Neither US format accepts a text written in the ISO format. |
| DateTexts.UsTwelveHourOthersReject | clean_tc_dict_csv_export_cm.py:24-28 | Neither the ISO nor the 24-hour US format accepts a text written in the 12-hour US format. |
| DateTexts.UsTwentyFourHourOthersReject | clean_tc_dict_csv_export_cm.py:24-28 | Neither the ISO nor the 12-hour US format accepts a text written in the 24-hour US format. |
| DateTexts.IsoParsed | clean_tc_dict_csv_export_cm.py:23-34 | `parse_date` of a date-time written in the ISO format gives it back when it is real, and raises the "does not match known formats" error otherwise. |
| DateTexts.UsTwelveHourParsed | clean_tc_dict_csv_export_cm.py:23-34 | The same for the 12-hour US format. |
| DateTexts.UsTwentyFourHourParsed | clean_tc_dict_csv_export_cm.py:23-34 | The same for the 24-hour US format, with 0 seconds. |
| DateTexts.MissingDayFails | clean_tc_dict_csv_export_cm.py:23-34 | A day its month lacks makes `parse_date` raise in whichever format it is written. |
| Records.Coordinate | clean_tc_dict_csv_export_cm.py:46-47 | The coordinate fails exactly when the column is missing or `float()` refuses it. Otherwise it is the converted value. |
| Records.Cell | clean_tc_dict_csv_export_cm.py:44 | A text column fails exactly when it is missing. Otherwise it is the cell. |
| Records.Timestamp | clean_tc_dict_csv_export_cm.py:45 | The timestamp fails exactly when `ISO_TIME` is missing or unparseable. Otherwise it is the parsed date-time. |
| Records.ExtractRowKeeps | clean_tc_dict_csv_export_cm.py:43-51 | A row loads exactly when all seven columns are present, `ISO_TIME` parses and both coordinates convert. The record then holds those values. |
| Records.ExtractRowBadTime | clean_tc_dict_csv_export_cm.py:53-54 | A row with an unparseable timestamp is skipped with that timestamp's error. |
| Records.LoadRecords | clean_tc_dict_csv_export_cm.py:37-54 | Loading fails exactly on a file with no row after the header. Otherwise it returns the kept records and the skip reasons of all later rows. |
| Records.KeptAppend | clean_tc_dict_csv_export_cm.py:41-52 | Loading two stretches of rows is loading each and joining the results. |
| Records.SkipsAppend | clean_tc_dict_csv_export_cm.py:53-54 | The skip notices of two stretches of rows join in order. |
| Records.KeptSingle | clean_tc_dict_csv_export_cm.py:42-54 | One row gives either its record or its skip reason. |
| Records.KeptCount | clean_tc_dict_csv_export_cm.py:41-54 | Every row is either kept or skipped, never both. |
| Records.KeptDropsFailure | clean_tc_dict_csv_export_cm.py:53-54 | A failing row leaves the kept records unchanged. |
| Records.KeptKeepsSuccess | clean_tc_dict_csv_export_cm.py:52 | A loading row contributes its record between those of its neighbours. |
| Records.KeptPositions | clean_tc_dict_csv_export_cm.py:41-52 | The positions of the rows that load: increasing, each one loads, and none is missed. |
| Records.KeptInOrder | clean_tc_dict_csv_export_cm.py:52 | The j-th kept record is the record of the j-th row that loads. |
| SynopticFilter.Synoptic | clean_tc_dict_csv_export_cm.py:60 | The filter keeps exactly the records whose hour is 0, 6, 12 or 18, and never grows the table. |
| SynopticFilter.SynopticAppend | clean_tc_dict_csv_export_cm.py:60 | The filter works row by row, keeping the order. |
| SynopticFilter.SynopticSingle | clean_tc_dict_csv_export_cm.py:60 | A single record is kept exactly when it is at a synoptic hour. |
| SynopticFilter.SynopticKeepsAll | clean_tc_dict_csv_export_cm.py:60 | A table already at synoptic hours passes through unchanged. |
| SynopticFilter.SynopticIdempotent | clean_tc_dict_csv_export_cm.py:60 | Filtering twice is filtering once. |
| SynopticFilter.SynopticCounts | clean_tc_dict_csv_export_cm.py:60 | Every copy of a synoptic record survives, and no copy of any other does. |
| StormIds.LessTotal | clean_tc_dict_csv_export_cm.py:63 | Python's string order is total. |
| StormIds.LessTransitive | clean_tc_dict_csv_export_cm.py:63 | Python's string order is transitive. |
| StormIds.LessIrreflexive | clean_tc_dict_csv_export_cm.py:63 | No string sorts before itself. |
| StormIds.LessAsymmetric | clean_tc_dict_csv_export_cm.py:63 | Of two strings at most one sorts before the other. |
| StormIds.AssignStormIds | clean_tc_dict_csv_export_cm.py:63 | Adding the storm-number column keeps every record and its place. |
| StormIds.NumberOrder | clean_tc_dict_csv_export_cm.py:63 | Two identifiers share a number exactly when they are equal, and numbers follow the identifiers' sort order. |
| StormIds.NumberRange | clean_tc_dict_csv_export_cm.py:63 | Numbers lie in 1..k for k distinct identifiers. |
| StormIds.NumbersDense | clean_tc_dict_csv_export_cm.py:63 | The numbers used are exactly 1..k. |
| StormIds.AssignedIds | clean_tc_dict_csv_export_cm.py:63 | Over a table: each number is in 1..k, and records share a number exactly when they share an identifier, ordered as the identifiers are. |
| StormIds.AssignedIdsDense | clean_tc_dict_csv_export_cm.py:63 | Every number 1..k is carried by some record. |
| Sorting.InsertBySorted | clean_tc_dict_csv_export_cm.py:66 | Inserting into a sorted sequence keeps it sorted. |
| Sorting.SortBy | clean_tc_dict_csv_export_cm.py:66 | The result is sorted by the key and is a permutation of the input. |
| Sorting.SortTracks | clean_tc_dict_csv_export_cm.py:66 | The table ends up ordered by (storm number, timestamp) and is a permutation of its rows. |
| Sorting.SortedStorms | clean_tc_dict_csv_export_cm.py:66 | In the sorted table each storm's rows are contiguous and never go back in time. |
| Sorting.MapMultiset | clean_tc_dict_csv_export_cm.py:66 | Rearranging rows rearranges any column taken from them. |
| Sorting.SortedKeysUnique | clean_tc_dict_csv_export_cm.py:66 | Two sorted arrangements of the same keys are identical. |
| Sorting.SortedAgree | clean_tc_dict_csv_export_cm.py:66 | Any two sorted arrangements of the same rows agree on storm number and timestamp at every position. |
| Validation.LastOf | clean_tc_dict_csv_export_cm.py:70 | The row found is the last one of the storm before the position; when none is found, that storm has no earlier row. |
| Validation.MaxId | clean_tc_dict_csv_export_cm.py:69 | Every row's storm number is at most the largest. |
| Validation.Validate | clean_tc_dict_csv_export_cm.py:69-74 | The nested loop over storms and their rows returns exactly `Warnings`: storm by storm, each row compared with its storm's previous row. |
| Validation.LastOfConsecutive | clean_tc_dict_csv_export_cm.py:70 | The row a step is measured from is the storm's row right before it. |
| Validation.WarningsExact | clean_tc_dict_csv_export_cm.py:70-74 | A warning is issued exactly for a row whose difference to its storm's previous row is not six hours. It carries the storm, the row's index and that difference. |
| Validation.WarningsOrdered | clean_tc_dict_csv_export_cm.py:69-74 | Warnings come in ascending storm order and, within a storm, in row order, so no step is reported twice. |
| Validation.FirstRowNotWarned | clean_tc_dict_csv_export_cm.py:70 | A storm's first row never draws a warning, because `dropna` removes it. |
| Validation.RegularStormSilent | clean_tc_dict_csv_export_cm.py:71-72 | A storm whose steps are all six hours draws no warning. |
| Validation.SortedConsecutive | clean_tc_dict_csv_export_cm.py:66-70 | In the sorted table a storm's previous row is simply the row before. |
| Validation.SortedWarnings | clean_tc_dict_csv_export_cm.py:66-74 | Over a sorted table, warnings are exactly the adjacent same-storm pairs not six hours apart. |
| Pipeline.CleanTracks | clean_tc_dict_csv_export_cm.py:37-74 | The script's steps, in order, give exactly the `Cleaned` result: the output table, skip reasons and warnings, or the fatal error, which carries the skip notices when no row loads. |
| Pipeline.CleanedFails | clean_tc_dict_csv_export_cm.py:40-60 | The run dies with `NoDataRows` exactly when the file has no row after the header, and with `NoRecords` exactly when no later row loads. `NoRecords` carries the skip notices printed before the run dies, one per later row, in order. |
| Pipeline.CleanedTracks | clean_tc_dict_csv_export_cm.py:43-66 | Every output row is a loaded record at a synoptic hour, numbered in 1..k, and rows share a number exactly when they share an identifier. |
| Pipeline.CleanedKeepsAll | clean_tc_dict_csv_export_cm.py:57-66 | The output has every loaded synoptic record as often as it was loaded, and nothing else. |
| Pipeline.CleanedIdsDense | clean_tc_dict_csv_export_cm.py:63 | Every storm number 1..k appears in the output. |
| Pipeline.CleanedWarnings | clean_tc_dict_csv_export_cm.py:66-74 | A warning names an output row whose predecessor belongs to the same storm with a gap other than six hours, and every such row gets one. |
| Pipeline.CleanedWarningsAnyTieOrder | clean_tc_dict_csv_export_cm.py:66-74 | However the sort orders rows with equal keys, the warnings are the same. |
| Pipeline.CleanedIgnoresFailedRow | clean_tc_dict_csv_export_cm.py:53-54 | A row that fails to load changes neither the output table nor the warnings. |
| Pipeline.OneStormWarnings | clean_tc_dict_csv_export_cm.py:69-74 | One storm observed at 00, 06 and 18 o'clock draws a single warning for its third row, with a 12-hour gap. |
| Pipeline.SingleStormNumbered | clean_tc_dict_csv_export_cm.py:63 | In a table of a single storm every row is numbered 1. |

## Left out

- File input and output are not modelled: the configured file names (lines 17-19), `open`, and `to_csv` (line 77). The run takes a sequence of rows and returns the output table.
- `csv.DictReader` is not modelled: the header line and quoting are outside the model. A short row gets the value `None` for its missing trailing cells; the name is still present. The script skips such a row when `ISO_TIME`, `LAT` or `LON` is `None`, and keeps it when only `SID`, `USA_STATUS`, `USA_WIND` or `USA_PRES` is `None`. A kept `None` cannot be represented, since a cell is a `string`. A name absent from the row's map corresponds only to a column the header lacks, and that skips every row.
- `float()` is not modelled; it is the parameter `toFloat`. Floating-point values are `real`.
- `print` calls become returned data: the skip reasons and the `Warning` values. The text of each message and the `timedelta` formatting of the gap are not modelled.
- `columns_to_extract` (line 20) is never used by the script, so it is not modelled.
- Strptime.Attempt: only the directives the three formats use are modelled (%Y %m %d %H %I %M %S %p and literal characters). Locale-dependent AM/PM names and non-ASCII digits are not modelled.
- DateTimes.Valid: pandas' `datetime64[ns]` range (years 1677-2262) is not modelled. By our reading of pandas, which was not executed, a timestamp outside it leaves the `ISO_TIME` column of dtype `object`; then `.dt.hour` on line 60 raises and ends the run. The model keeps such a timestamp like any other.
- DateTexts.IsoRoundTrip, DateTexts.UsTwelveHourRoundTrip, DateTexts.UsTwentyFourHourRoundTrip: each covers one spelling per format: single spaces, upper-case AM/PM, and no leading zeros in the US month, day and hour. Other spellings the matcher accepts (leading zeros, lower-case am/pm, several spaces, a space before a one-digit day) are read by `Strptime.Attempt` but are not covered by these lemmas.
- Sorting.SortTracks: which of several rows with the same storm number and timestamp comes first is not modelled. The rows are a permutation of the input and are sorted by key. `Pipeline.CleanedWarningsAnyTieOrder` shows the warnings do not depend on that order.
- Validation.Validate: works on the sort keys (storm number, instant in seconds) of the sorted table and not on the table itself. It reads no other column.
- Pipeline.CleanedWarnings: stated over the output rows' sort keys. `Sorting.KeyOf` gives them, and `DateTimes.InstantOrder` relates them to the timestamps.
- StormIds.AssignStormIds: storms are numbered in string order of their identifiers, as `ngroup()` does with its default `sort=True`. They are not numbered in order of first appearance.
