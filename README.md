# Insurance claims preprocessing and city analysis, in Dafny

This project models the three core pieces of a small insurance-claims
pipeline and proves properties of each:

- **`InsuranceDataPreprocessor`** (`src/pure_data_processor.py`) cleans a
  claims table column by column:
  - `clean_numeric` removes currency characters and thousands separators and reads the rest as a float. If that fails, it keeps the original text.
  - `validate_date` tries four `strptime` formats in order and re-emits the date as `YYYY-MM-DD`.
  - `clean_text` collapses whitespace.

  It then transposes the columns into one dictionary per row
  (`get_cleaned_data`), checks rows (`validate_row`) and summarises them
  (`get_statistics`).
- **`CityAnalyzer`** (`src/city_analyzer.py`) works on the cleaned rows:
  - `get_city_metrics` accumulates per-city totals in first-appearance order, then derives averages, a rejection rate and a claim ratio.
  - `analyze_city_closure` min-max normalises four metrics across the cities, takes their weighted sum per city, and recommends the first city with the highest score.
- **The rejection classifier** (`src/rejection_classifier.py`) puts a free-text rejection remark into a category by case-insensitive keyword search. It has a fixed priority and falls back to `REJECTION_REASONS_MAP` and then to `Unknown`.

The modules:

| module | what it holds |
|---|---|
| `Wrappers` | `Option` and `Result` |
| `Text` | the Python `str` operations the core uses: `isspace`, `strip`, `split()`, `' '.join`, ASCII `lower`, `in`, and `re.sub` with a character class |
| `Decimal` | digit strings and the part of `float(str)` the cleaners reach |
| `Dates` | `validate_date`, with `strptime`/`strftime` for the four formats |
| `FieldCleaning` | cleaned cells (`Value` = a Python float or str), `clean_numeric`, `clean_text`, the per-column dispatch, the row dictionary, `validate_row` |
| `Preprocessing` | the class `InsuranceDataPreprocessor` (fields `headers` and `data`; its loops are methods proved against the functions of `FieldCleaning`) and the statistics fold |
| `RejectionClassifier` | the classifier, as pure functions |
| `CityAggregation` | what `get_city_metrics` computes, as functions of the rows |
| `ClosureScoring` | what `analyze_city_closure` computes, as functions of the city table |
| `CityAnalysis` | the class `CityAnalyzer`, whose loops are methods proved equal to those functions |

A Python `dict` whose iteration order matters is modelled as its keys in
insertion order plus a Dafny `map` (`CityTable`). Python floats are `real`.

Every exception the core can raise becomes a `Failure`:
- `next(iter(...))` on a table with no columns gives `NoColumns`;
- `float()` of an unreadable amount in `get_city_metrics` gives `UnparsableAmount`;
- `min()` of an empty list in `analyze_city_closure` gives `EmptyCitySet`.

## Model

| member | source | states |
|---|---|---|
| Text.Strip | src/pure_data_processor.py:29 | `s.strip()` is a slice of `s` with only whitespace before and after it; it is empty exactly when `s` is all whitespace, and otherwise neither starts nor ends with whitespace |
| Text.Words | src/pure_data_processor.py:62 | `text.split()` yields only non-empty, whitespace-free words, whose concatenation is `text` with its whitespace removed, and no words exactly for blank text |
| Text.WordsGaps | src/pure_data_processor.py:62 | the input is its `split()` words with whitespace gaps around and between them, at least one whitespace character between two words |
| Text.SplitByWords | src/pure_data_processor.py:62 | any way of writing the input as whitespace-free words separated by whitespace gaps gives exactly `split()`: the words are the maximal runs, none is cut in two |
| Text.WordsOfJoin | src/pure_data_processor.py:62 | splitting `' '.join(ws)` gives the words `ws` back |
| Text.JoinIsCollapsed | src/pure_data_processor.py:62 | `' '.join` of words has no outer whitespace, only single spaces, and starts with a word |
| Text.JoinOfWordsCollapsed | src/pure_data_processor.py:62 | a collapsed string is `' '.join` of its own words (the inverse direction of WordsOfJoin) |
| Text.LowerIdempotent | src/rejection_classifier.py:19 | `lower()` applied twice equals applied once, and keeps a string blank or non-blank |
| Text.ContainsIff | src/rejection_classifier.py:19 | `pat in text` holds exactly when some index starts a slice of `text` equal to `pat` |
| Text.RemoveChars | src/pure_data_processor.py:33 | `re.sub('[...]', '', s)` leaves no character of the class, never lengthens the string, and removes a single character exactly when it is in the class |
| Text.RemoveCharsAppend | src/pure_data_processor.py:33 | removing the class distributes over concatenation |
| Text.RemoveCharsIgnores | src/pure_data_processor.py:33 | inserting a character of the class anywhere does not change the result |
| Decimal.ParseFloatGrammar | src/pure_data_processor.py:35 | `float()` succeeds exactly on an optional sign followed by digits with at most one `.` and at least one digit |
| Decimal.ParseFloatRejects | src/pure_data_processor.py:35 | `''`, `.` and `1.2.3` are not numbers |
| Decimal.ParseFloatHalf | src/pure_data_processor.py:35 | `.5` is 0.5: the whole part may be empty |
| Decimal.ParseDigits | src/pure_data_processor.py:35 | `float()` of a digit run is the integer the digits denote |
| Decimal.ParseDecimalParts | src/pure_data_processor.py:35 | `float("w.f")` for digit runs `w`, `f`, not both empty, is `w + f / 10^len(f)` |
| Decimal.ParseSigned | src/pure_data_processor.py:35 | a leading `-` negates the value read, a leading `+` changes nothing |
| Dates.ParseWith | src/pure_data_processor.py:48 | a successful `strptime` yields a real calendar date with a year in 1..9999 |
| Dates.FirstParseIsFirstMatch | src/pure_data_processor.py:46-51 | the format loop fails exactly when every format fails, and otherwise returns the date of the first format that parses |
| Dates.FirstParseChain | src/pure_data_processor.py:46-51 | the formats are tried in the order `%Y-%m-%d`, `%d-%m-%Y`, `%d/%m/%Y`, `%Y/%m/%d` |
| Dates.ParseRender | src/pure_data_processor.py:48-49 | parsing a date rendered in a format, with that format, gives the date back (round trip) |
| Dates.IsoFixpoint | src/pure_data_processor.py:46-49 | an ISO `YYYY-MM-DD` date is read by the first format and `validate_date` returns it unchanged |
| Dates.ValidateDateUnchanged | src/pure_data_processor.py:39-54 | blank input gives `''`; other input comes back unchanged exactly when no format accepts it or it already is the ISO form of the date read |
| Dates.ValidateDateFirstFormat | src/pure_data_processor.py:44-51 | when format `k` is the first that parses, the result is that date in ISO form |
| Dates.RenderedDateNormalises | src/pure_data_processor.py:46-49 | a valid date written in any of the four formats is normalised to the same ISO string |
| Dates.DayFirstNotYearFirst | src/pure_data_processor.py:46 | a `%d-%m-%Y` string is never also read as `%Y-%m-%d` |
| Dates.YearFirstNotDayFirst | src/pure_data_processor.py:46 | a `%Y/%m/%d` string is never also read as `%d/%m/%Y` |
| Dates.SlashesNotDashes | src/pure_data_processor.py:46 | a `/`-separated date is read by neither `-` format |
| Dates.ValidateDateIdempotent | src/pure_data_processor.py:39-54 | `validate_date` applied twice equals applied once |
| Dates.UnparsedKept | src/pure_data_processor.py:52 | a non-blank string that no format accepts is returned unchanged |
| Dates.NotADate | src/pure_data_processor.py:52 | `not-a-date` is returned unchanged |
| Dates.DateExamples | src/pure_data_processor.py:39-54 | `15/03/2023` becomes `2023-03-15`; `not-a-date` and `''` come back as they are |
| FieldCleaning.CleanNumericCases | src/pure_data_processor.py:27-37 | blank input gives 0.0; any other input is read as `float()` of its cleaned core, or else returned as it is, so the result is a number exactly when the core parses |
| FieldCleaning.CleanNumericIgnoresStripped | src/pure_data_processor.py:33 | inserting `$`, `,` or one of the class's other characters anywhere into a non-blank value leaves its numeric result unchanged |
| FieldCleaning.CleanNumericDigits | src/pure_data_processor.py:33-35 | a digit run is read as its integer value |
| FieldCleaning.CleanNumericDecimal | src/pure_data_processor.py:33-35 | `w.f` is read as the decimal number it denotes |
| FieldCleaning.CleanNumericRejects | src/pure_data_processor.py:34-37 | a value starting with a character that is not whitespace, not stripped and not part of a number is returned unchanged |
| FieldCleaning.CleanNumericDollar | src/pure_data_processor.py:33 | a leading `$` is ignored before a number |
| FieldCleaning.CleanNumericThousands | src/pure_data_processor.py:33 | `w1,w2.f` is read as the decimal `w1w2.f` |
| FieldCleaning.CleanNumericCurrency | src/pure_data_processor.py:33-35 | `$w1,w2.f` is read as the decimal `w1w2.f` (e.g. `$1,200.50` gives 1200.5) |
| FieldCleaning.CleanNumericExamples | src/pure_data_processor.py:27-37 | `''` gives 0.0; `abc` is returned unchanged; so is `₹1,200.50`, because U+20B9 is not in the class as written |
| FieldCleaning.CleanTextOfSplit | src/pure_data_processor.py:56-63 | when the input is words separated by whitespace gaps, `clean_text` gives exactly those words joined by single spaces |
| FieldCleaning.CleanTextCollapses | src/pure_data_processor.py:56-63 | `clean_text` keeps the words in order, joined by single spaces with no outer whitespace, and is empty exactly for blank input |
| FieldCleaning.CleanTextIdempotent | src/pure_data_processor.py:56-63 | `clean_text` applied twice equals applied once |
| FieldCleaning.CleanTextFixpoints | src/pure_data_processor.py:56-63 | the strings `clean_text` leaves unchanged are exactly the collapsed ones |
| FieldCleaning.CleanFieldKinds | src/pure_data_processor.py:77-85 | only the three amount columns can hold a number; an empty cell becomes 0.0 there and `''` elsewhere; other columns keep the raw text |
| FieldCleaning.CleanFieldBlank | src/pure_data_processor.py:77-85 | a blank cell cleans to a falsy value in every cleaned column |
| FieldCleaning.CleanRecordKeys | src/pure_data_processor.py:99-103 | a row dictionary has exactly the header keys |
| FieldCleaning.CleanRecordAt | src/pure_data_processor.py:99-103 | each header of a row dictionary holds its own column's cleaned cell |
| FieldCleaning.ValidateRow | src/pure_data_processor.py:107-121 | a row is valid exactly when claim amount and premium are positive numbers and the city is non-empty |
| FieldCleaning.BlankAmountInvalid | src/pure_data_processor.py:107-121 | a row whose raw claim amount or premium is blank is invalid |
| Preprocessing.InsuranceDataPreprocessor.constructor | src/pure_data_processor.py:9-13 | a new preprocessor has no headers and no data |
| Preprocessing.InsuranceDataPreprocessor.Load | src/pure_data_processor.py:15-25 | the header record and the data rows are stored as given |
| Preprocessing.InsuranceDataPreprocessor.ProcessData | src/pure_data_processor.py:65-89 | one list per header, holding that column's cleaned cells in row order |
| Preprocessing.InsuranceDataPreprocessor.AppendRow | src/pure_data_processor.py:73-87 | each column list grows by exactly the cleaned cell of the next row |
| Preprocessing.InsuranceDataPreprocessor.GetCleanedData | src/pure_data_processor.py:91-105 | fails exactly when there are no columns; otherwise row `i` maps each header to its cleaned cell in row `i` |
| Preprocessing.InsuranceDataPreprocessor.RowDict | src/pure_data_processor.py:99-103 | the dictionary read off the column lists is the cleaned row |
| Preprocessing.InsuranceDataPreprocessor.GetStatistics | src/pure_data_processor.py:123-150 | fails exactly when there are no columns; otherwise the statistics of the cleaned rows |
| Preprocessing.Summarize | src/pure_data_processor.py:127-150 | record count, invalid count, cities and amount totals of the valid rows, and the per-column count of falsy cells, with absent keys for zero counts |
| Preprocessing.CountMissing | src/pure_data_processor.py:145-147 | each key with a falsy value has its counter raised by one, and no other counter changes |
| Preprocessing.ValidCount | src/pure_data_processor.py:136-142 | there are never more valid rows than rows |
| Preprocessing.ValidSumPositive | src/pure_data_processor.py:137-140 | the claim and premium totals are non-negative, and positive exactly when some row is valid |
| Preprocessing.ValidCitiesBound | src/pure_data_processor.py:137-138 | every recorded city is non-empty, and there are no more cities than valid rows |
| Preprocessing.MissingRequiredInvalid | src/pure_data_processor.py:110-113 | rows missing a required field and valid rows are disjoint |
| RejectionClassifier.FirstReason | src/rejection_classifier.py:29-31 | the category returned belongs to an entry whose key occurs in the remark; none is returned only when no key occurs |
| RejectionClassifier.MapReason | src/rejection_classifier.py:25-37 | never `Error`; `No_Remark` exactly for `None` and `''` |
| RejectionClassifier.Classify | src/rejection_classifier.py:39-71 | never `Error`; `No_Remark` exactly for `None` and whitespace-only remarks |
| RejectionClassifier.KeysLowerCase | src/rejection_classifier.py:4-8 | the three map keys are already lower case |
| RejectionClassifier.LabelsDistinct | src/rejection_classifier.py:25-71 | the six strings the classifiers return (`No_Remark`, `Fake_document`, `Not_Covered`, `Policy_expired`, `Unknown`, `Error`) are pairwise different, so each names one category |
| RejectionClassifier.ContainsReasonIff | src/rejection_classifier.py:15-23 | a reason is found exactly when the remark is a non-empty string with a slice equal to the reason, ignoring case |
| RejectionClassifier.BlankHasNoKey | src/rejection_classifier.py:15-23 | a whitespace-only remark contains none of the keys |
| RejectionClassifier.MapReasonBlank | src/rejection_classifier.py:25-34 | a non-empty whitespace-only remark is `Unknown` in `map_rejection_reason` |
| RejectionClassifier.MapReasonInOrder | src/rejection_classifier.py:28-32 | the map is searched in insertion order: `fake_document`, `not_covered`, `policy_expired`, then `Unknown` |
| RejectionClassifier.ClassifyAgreesWithMap | src/rejection_classifier.py:55-68 | on a non-blank remark the if/elif chain and the map fallback give the same category |
| RejectionClassifier.ClassifyByOccurrence | src/rejection_classifier.py:55-68 | `fake_document` wins over `not_covered`, which wins over `policy_expired`; a remark with none of them is `Unknown` |
| RejectionClassifier.ClassifySameLower | src/rejection_classifier.py:19 | remarks equal up to case get the same category |
| CityAggregation.CityOf | src/city_analyzer.py:22-24 | a row is counted exactly when it has a truthy `CITY`, and it is counted under that value |
| CityAggregation.CityOrderSpec | src/city_analyzer.py:21-27 | the city keys are distinct and are exactly the truthy cities of the rows |
| CityAggregation.FirstAppearance | src/city_analyzer.py:21-27 | the index of the first row with a given city, or the row count when there is none |
| CityAggregation.CityOrderFirstAppearance | src/city_analyzer.py:21-27 | the city keys are listed in the order of their first appearance in the rows |
| CityAggregation.AbsentCityTotals | src/city_analyzer.py:13-18 | a city that never appears has zero totals |
| CityAggregation.CityTotalsBounds | src/city_analyzer.py:21-39 | rejections never exceed claims; a city is a key exactly when it has at least one claim |
| CityAggregation.DeriveSpec | src/city_analyzer.py:42-59 | rejection rate in [0, 1]; each average times the claim count is its total; claim ratio times premium is the claim amount, or 0 without premium |
| CityAggregation.CityTableSpec | src/city_analyzer.py:11-61 | the table is well formed, its keys are the truthy cities in first-appearance order, and each has ≥ 1 claim, rejections ≤ claims and a rate in [0, 1] |
| ClosureScoring.Min | src/city_analyzer.py:79 | `min(values)` is one of the values and no greater than any |
| ClosureScoring.Max | src/city_analyzer.py:80 | `max(values)` is one of the values and no less than any |
| ClosureScoring.Range | src/city_analyzer.py:81 | the normalising range is never zero |
| ClosureScoring.BestIndex | src/city_analyzer.py:90 | the chosen key has a greatest score, and every earlier key scores strictly less (`max` keeps the first maximum) |
| ClosureScoring.NormaliseInUnit | src/city_analyzer.py:86 | a value between min and max normalises into [0, 1] |
| ClosureScoring.NormalisedMetricInUnit | src/city_analyzer.py:76-86 | every normalised metric lies in [0, 1] |
| ClosureScoring.UniformMetricIsZero | src/city_analyzer.py:81-86 | a metric equal for all cities contributes 0 |
| ClosureScoring.WeightedSumBounds | src/city_analyzer.py:68-73 | the four weights applied to values in [0, 1] give a sum in [-0.5, 0.5] |
| ClosureScoring.ScoreBounds | src/city_analyzer.py:68-87 | every city score lies in [-0.5, 0.5] |
| ClosureScoring.ReportSpec | src/city_analyzer.py:89-101 | the recommended city is a key with a greatest score, earlier keys score strictly less, the scores cover exactly the keys, and the reasoning quotes its own metrics |
| CityAnalysis.CityAnalyzer.constructor | src/city_analyzer.py:7-9 | the analyzer holds the given rows |
| CityAnalysis.CityAnalyzer.GetCityMetrics | src/city_analyzer.py:11-61 | fails exactly when some counted row has an unreadable amount; otherwise returns the city table of the rows |
| CityAnalysis.CityAnalyzer.Accumulate | src/city_analyzer.py:21-39 | the row is accepted exactly when its amounts parse, and then order and totals are those of one more row |
| CityAnalysis.CityAnalyzer.DeriveAll | src/city_analyzer.py:42-59 | every city receives the derived figures of its totals |
| CityAnalysis.CityAnalyzer.AnalyzeCityClosure | src/city_analyzer.py:63-102 | fails exactly when an amount is unreadable or there is no city; otherwise returns the report of the city table |
| CityAnalysis.ScoreCities | src/city_analyzer.py:75-87 | fails exactly when there is no city; otherwise every city's score is the weighted sum of its four normalised metrics |
| CityAnalysis.ScoreMetric | src/city_analyzer.py:77-87 | one metric round takes the scores from the first `k` metrics to the first `k + 1` |
| CityAnalysis.AddMetric | src/city_analyzer.py:83-87 | every city gains its weighted normalised value, starting from 0 when new; no other key is added or changed |
| CityAggregation.RowsSnoc | src/city_analyzer.py:21-27 | proof step: one more row extends the parse condition by that row and appends its city if new |
| CityAggregation.TotalsSnoc | src/city_analyzer.py:26-39 | proof step: one more row adds one claim, its amounts and possibly a rejection to its own city only |
| FieldCleaning.CleanRecordSnoc | src/pure_data_processor.py:101-102 | proof step: one more header adds exactly that header's cleaned cell to the row dictionary |
| Preprocessing.CleanColumnSnoc | src/pure_data_processor.py:87 | proof step: cleaning one more cell appends exactly its cleaned value |
| ClosureScoring.NormalisedMetricStep | src/city_analyzer.py:83-87 | proof step: each metric round adds that metric's weighted normalised value to the score |
| CityAnalysis.ScoredAll | src/city_analyzer.py:76-87 | proof step: after all four metric rounds the scores are exactly the city scores |
| CityAnalysis.ScoresStep | src/city_analyzer.py:83-87 | proof step: the inner loop's result is the partial score after one more metric |

## Left out

- `read_csv` (file I/O and the `csv` module) is replaced by `Load`, which receives the header record and the data rows. The error re-raising in `read_csv` is not modelled. `process_data` does not re-read the file.
- Ragged rows (a row with a different number of cells from the header) and repeated header names are excluded by a precondition (`WellFormed`). In the source, a longer row raises `IndexError`, a shorter one produces misaligned columns, and repeated headers merge their lists.
- Python floats are modelled as exact `real` numbers. IEEE rounding, `inf` and `nan` are not modelled.
- `float()` is modelled for an optional sign, digits and an optional fraction only. Exponents, `inf`/`nan`, underscores and non-ASCII digits are not modelled.
- `strptime`:
  - `%Y` is read as exactly four digits, and `%m`/`%d` as one or two digits (or a space and a digit for `%d`).
  - Locale behaviour and other non-ASCII digits are not modelled.
- Pad4: assumes `strftime('%Y')` zero-pads every year to four digits. That is platform-dependent in CPython: some C libraries print years below 1000 without padding, so there `0999-01-01` would not be a fixpoint of `validate_date`.
- `lower()` is modelled on ASCII letters only. Other Unicode case mappings are not modelled.
- The character class on line 33 is modelled exactly as written:
  - It holds U+00E2, U+201A, U+00B9, `$` and `,`, which is the rupee sign's UTF-8 bytes read as Windows-1252. The rupee sign itself (U+20B9) is therefore not removed.
  - So `clean_numeric("₹1,200.50")` returns its input unchanged rather than 1200.5 (CleanNumericExamples).
- The classifier's remark is an `Option<string>`. A value that is not a string is modelled as `None`, which the source treats the same way.
- The classifier's exception handlers and `handle_error` (a `print` followed by `"Error"`) are not modelled. No exception can be raised in the modelled code, so `Error` is never produced (every classifier contract states this).
- Per-city dictionaries that the source mutates in place are modelled as fresh `Totals`/`CityMetrics` values stored back in a map. Aliasing of those inner dictionaries is not modelled.
- In `analyze_city_closure`, a new city's score is set to 0 and then increased. AddMetric does both in a single map update, which gives the same value.
- The `total_claims > 0` else-branch of `get_city_metrics` cannot be reached for a key of the table (CityTotalsBounds). It is still modelled.
- `get_statistics` returns `cities` as a list built from a set, so its order is unspecified. The model keeps it as a set.
