# OpenAQ AQI predictor: a Dafny model of its core

This project models the deterministic core of the OpenAQ AQI predictor and proves properties of it:

- **The US EPA Air Quality Index engine** (`Aqi`):
  - the breakpoint tables and molecular weights;
  - unit normalisation and conversion to the unit of each table;
  - the piecewise-linear sub-index (IAQI) and the row AQI as the maximum of the defined sub-indices;
  - the category step function and the data-frame helper.
- **The cleaning pipeline for long-format OpenAQ exports** (`Preprocessing`):
  - column-name normalisation and renaming;
  - the coordinate scanner;
  - unit normalisation;
  - row cleaning, with the required-column error, the pollutant filter, conversion, and dropping of rows with no time or no standard value;
  - duplicate removal and the selection of the kept columns;
  - time bucketing, and the mean per pollutant pivoted into a wide table.
- **The feature helpers of the forecasting model** (`Features`):
  - the feature-column list;
  - lag columns computed by a per-group shift on rows sorted by group and time.
- **The prediction back end** (`Predict`):
  - request values standardised to the table units;
  - the exact AQI of a request;
  - the feature row with its `_is_missing` flags;
  - the list of provided pollutants.

`Wrappers` holds `Option` (Python's `None`) and `Result` (an exception the source raises: the `KeyError` naming a missing required column, or the `ValueError` "Length mismatch" or "No group keys passed!"). `Strings` holds the parts of Python's `str` that the core uses: `strip`, ASCII `lower`, `replace`, and the decimal text of an integer.

Two behaviours of the code are easy to overlook, and the model follows the code in both:

- **Pollutant names.** The set of kept pollutants holds the code `pm25` (src/preprocessing.py:12), and the cleaning only strips and lower-cases the pollutant cell before testing membership (src/preprocessing.py:76-77). There is no folding of spellings such as "PM2.5": it becomes "pm2.5" and the row is dropped. `Preprocessing.DottedPollutantDropped` states this.
- **Missing units.** A missing unit cell is not `None` to the pipeline: `normalize_unit` receives NaN and turns it into the text "nan". No pollutant accepts that unit, so the row is dropped (`Preprocessing.MissingUnitDropped`).

## Model

| member | source | states |
|---|---|---|
| Aqi.PollutantOf | src/aqi.py:129-130 | A code is looked up exactly when it is one of the six keys; the lookup is the inverse of `Code`. |
| Aqi.CodeLookup | src/aqi.py:175-176 | Each pollutant's code finds that pollutant. |
| Aqi.KeysAreAllPollutants | src/aqi.py:17-90 | The breakpoint dictionary has six distinct keys, one per pollutant. |
| Aqi.TableWellFormed | src/aqi.py:17-90 | Every table satisfies all of the following: it starts at concentration 0 and index 0; it ends at index 500; each tier is a proper interval; each tier starts strictly above the previous one, one index step higher. |
| Aqi.TiersAscending | src/aqi.py:17-90 | In a well-formed table, later tiers lie strictly above earlier ones in concentration and in index. |
| Aqi.AtMostOneTier | src/aqi.py:17-90 | No concentration lies in two tiers of a well-formed table. |
| Aqi.TierBounds | src/aqi.py:17-90 | Every tier lies within the table's concentration range and within index range 0..500. |
| Aqi.MolecularWeight | src/aqi.py:92-97 | A molecular weight exists exactly for O3, NO2, SO2 and CO, and it is positive. |
| Aqi.UgM3PpmRoundTrip | src/aqi.py:100-106 | The ug/m3-to-ppm and ppm-to-ug/m3 conversions are inverse in both directions. |
| Aqi.GasRoundTrip | src/aqi.py:145-155 | For each gas, converting to ppm and back with its own weight is the identity. |
| Aqi.NormalizeUnit | src/aqi.py:109-117 | `None` stays `None`; text stays text. What the text becomes is stated by the next three rows. |
| Aqi.NormalizeUnitNormal | src/aqi.py:109-117 | A normalised unit has no white space at either end, no upper-case letter and no micro sign, and none of "ug/m^3", "ug/m³" or "mg/m³" occurs in it. |
| Aqi.NormalizeUnitIdempotent | src/aqi.py:109-117 | Normalising a normalised unit changes nothing. |
| Aqi.NormalizeNormalFixed | src/aqi.py:109-117 | Text in that normal form is returned unchanged. |
| Aqi.FoldUnitNormal | src/aqi.py:113-116 | The four replacements, in their order, turn trimmed lower-case text into the normal form. |
| Aqi.LowerStripTrimmed | src/aqi.py:112 | After `strip().lower()`, neither end is white space and no letter is upper case. |
| Aqi.NormalizeFolded | src/aqi.py:109-117 | Text with nothing to trim, lower-case or fold is returned unchanged. |
| Aqi.NormalizeCanonical | src/aqi.py:109-117 | The unit of every table is already normalised. |
| Aqi.NormalizeMicroGram | src/aqi.py:113-115 | "µg/m³" normalises to "ug/m3". |
| Aqi.MicroSignFolded | src/aqi.py:113 | The micro sign is replaced by "u". |
| Aqi.SuperscriptFolded | src/aqi.py:115 | "ug/m³" is replaced by "ug/m3". |
| Aqi.NormalizeUpperPpb | src/aqi.py:112 | "PPB" normalises to "ppb". |
| Aqi.ConvertToStandard | src/aqi.py:120-169 | A result exists exactly when the value is present, the pollutant is known and the normalised unit is supported for it. The result is always in the table's unit. A value already in that unit is returned unchanged. |
| Aqi.ConvertPreservesMass | src/aqi.py:120-169 | The converted reading denotes the same mass concentration as the input. Mass is read through the ideal-gas relation for gases. |
| Aqi.Interpolate | src/aqi.py:187-189 | The tier's endpoints map to its index endpoints, and a value inside the tier maps into its index range. |
| Aqi.InterpolateMonotone | src/aqi.py:187-189 | Interpolation is non-decreasing in the concentration. |
| Aqi.FindTier | src/aqi.py:185-186 | The scan returns the first tier containing the value, or `None` exactly when no tier contains it. |
| Aqi.FindTierExact | src/aqi.py:185-186 | In a well-formed table, a value inside tier i is found at tier i. |
| Aqi.Iaqi | src/aqi.py:172-191 | A sub-index lies in 0..500. It is `None` exactly for an unknown pollutant, a failed conversion, or a standardised value outside every tier. |
| Aqi.IaqiCanonical | src/aqi.py:178-189 | With no unit, the value is read in the table's unit and interpolated in the tier the scan finds. |
| Aqi.IaqiAtEndpoints | src/aqi.py:185-189 | At each tier's breakpoints the sub-index is exactly the tier's index endpoints. |
| Aqi.IaqiMonotone | src/aqi.py:172-191 | Where defined, the sub-index is non-decreasing in the concentration. |
| Aqi.IaqiUndefinedOutside | src/aqi.py:185-191 | Below zero or above the last breakpoint, the sub-index is `None`. |
| Aqi.NoTierInGap | src/aqi.py:185-186 | Strictly between two consecutive tiers, no tier holds the value. |
| Aqi.IaqiUndefinedInGap | src/aqi.py:185-191 | Strictly between two consecutive tiers (e.g. PM2.5 12.05), the sub-index is `None`. |
| Aqi.IaqiPm25Boundaries | src/aqi.py:22-23 | PM2.5 35.4 gives 100 and PM2.5 12.1 gives 51. |
| Aqi.IaqiPm25Undefined | src/aqi.py:185-191 | PM2.5 12.05, 500.5 and -1 give no sub-index. |
| Aqi.IaqiOzonePpb | src/aqi.py:149-151 | 70 ppb of ozone is read as 0.070 ppm and gives 100. |
| Aqi.IaqiUnknownPollutant | src/aqi.py:175-176 | "ozone" and "PM2.5" are not keys and give no sub-index. |
| Aqi.SubIndicesMembers | src/aqi.py:199-207 | A value is collected exactly when some pollutant present in the row has it as its sub-index. |
| Aqi.Max | src/aqi.py:210 | The maximum is an element of the list and no element exceeds it. |
| Aqi.ComputeAqiRow | src/aqi.py:194-210 | The row AQI is `None` exactly when no sub-index is defined; otherwise it is a collected sub-index that is at least every other one. |
| Aqi.IsAqiOfUnique | src/aqi.py:208-210 | The AQI of a list of sub-indices is determined by that list. |
| Aqi.AqiDominates | src/aqi.py:194-210 | Every defined sub-index of the row is at most the row AQI. |
| Aqi.AqiIsSomeSubIndex | src/aqi.py:194-210 | A defined row AQI is the sub-index of some pollutant. |
| Aqi.AqiCategory | src/aqi.py:213-215 | The category is `None` exactly when the AQI is `None`. |
| Aqi.CategoryMonotone | src/aqi.py:213-228 | A higher AQI never gets a milder category. |
| Aqi.CategoryCutoffs | src/aqi.py:216-228 | Each category is exactly the AQIs above the previous cut-off and up to its own: 50, 100, 150, 200, 300. Everything above 300 is Hazardous. |
| Aqi.RowValues | src/aqi.py:237 | Each requested column maps to its value, or to `None` when the row lacks it. |
| Aqi.ComputeAqiDataframe | src/aqi.py:231-244 | Each output row keeps its cells and carries the AQI of its requested columns and that AQI's category. By default the columns are the six pollutants. |
| Strings.Strip | src/preprocessing.py:16 | `strip()` never lengthens the text, and the result is empty or neither of its ends is white space. That it is a contiguous piece of the input is `Strings.StripPiece`. |
| Strings.StripPiece | src/preprocessing.py:16 | The result of `strip()` is a contiguous piece of the text, and everything cut off before or after it is white space. |
| Strings.StripUnchanged | src/preprocessing.py:16 | Text without surrounding white space is unchanged by `strip()`. |
| Strings.Lower | src/preprocessing.py:16 | `lower()` keeps the length and leaves no upper-case ASCII letter. What happens to each character is `Strings.LowerChars`. |
| Strings.LowerChars | src/preprocessing.py:16 | Each upper-case ASCII letter becomes its lower-case letter, 32 code points up, and every other character stays as it was. |
| Strings.ReplaceAllAbsent | src/aqi.py:113-116 | `replace` does nothing when the pattern holds a character the text lacks. |
| Strings.ReplaceChar | src/preprocessing.py:17 | Replacing one character by another is a character-wise map. |
| Strings.ReplaceCharRemoves | src/preprocessing.py:17 | After replacing a character by text without it, the character no longer occurs. |
| Strings.ReplaceAllNoOccurrence | src/aqi.py:113-116 | `replace` returns text in which the pattern does not occur unchanged. |
| Strings.ReplaceAllRemoves | src/aqi.py:113-116 | After `replace(pat, rep)` the pattern no longer occurs, provided no occurrence can straddle `rep`. |
| Strings.ReplaceAllKeepsAbsent | src/aqi.py:113-116 | `replace` brings in no occurrence of a text that cannot straddle the replacement. |
| Strings.ReplacedPrefix | src/aqi.py:113-116 | A prefix of the replaced text is a prefix of the original, or it runs into the first occurrence of the pattern. |
| Strings.ReplaceAllChars | src/aqi.py:113-116 | Every character of the replaced text comes from the original text or from the replacement. |
| Strings.ReplaceAllEnds | src/aqi.py:113-116 | The replaced text is empty exactly when the original is. Its first and last characters come from the original or from the replacement. |
| Strings.ReplaceAllKeepsFolded | src/aqi.py:113-116 | Replacing by trimmed lower-case text keeps text trimmed and lower-case. |
| Strings.NoOccurrenceChar | src/aqi.py:113 | A one-character text occurs exactly where its character does. |
| Strings.NatToStringRoundTrip | src/features.py:31 | The decimal text of a number is digits that read back as the number. |
| Strings.IntToStringInjective | src/features.py:31 | Different integers have different decimal texts. |
| Preprocessing.NormalizeColName | src/preprocessing.py:15-18 | A normalised name is as long as the stripped name and holds no space, hyphen or upper-case letter. |
| Preprocessing.NormalizeColNameIsReplace | src/preprocessing.py:15-18 | The character map equals the two `replace` calls applied to the stripped, lower-cased name. |
| Preprocessing.NormalizedIsFolded | src/preprocessing.py:15-18 | A normalised name has no surrounding white space and no upper case. |
| Preprocessing.NormalizeFixed | src/preprocessing.py:15-18 | A folded name without spaces or hyphens is its own normalisation. |
| Preprocessing.NormalizeColNameIdempotent | src/preprocessing.py:15-18 | Normalising twice is normalising once. |
| Preprocessing.NormalizeLastUpdated | src/preprocessing.py:15-18 | "Last Updated" normalises to "last_updated". |
| Preprocessing.Alias | src/preprocessing.py:25-33 | Only the nine canonical column names are ever produced. |
| Preprocessing.AliasExamples | src/preprocessing.py:25-33 | The following aliases hold: "source" becomes "source_name"; "last_updated_utc" and "datetime" become "last_updated"; "timestamp" is not recognised. |
| Preprocessing.KeyedByLast | src/preprocessing.py:23 | The normalised-name dictionary has a key exactly for each normalised name. Each key maps to the last column having that name. |
| Preprocessing.RenameColumns | src/preprocessing.py:21-35 | Every column gets the name the rename dictionary gives it, and the column count is unchanged. |
| Preprocessing.StandardizeColumns | src/preprocessing.py:21-35 | Renaming uses `_normalize_col_name`, column by column. |
| Preprocessing.RenameRecognised | src/preprocessing.py:25-34 | The last column with a recognised normalised name is renamed to its alias. |
| Preprocessing.RenameShadowed | src/preprocessing.py:23 | An earlier, different column with the same normalised name keeps its original name. |
| Preprocessing.RenameUnrecognised | src/preprocessing.py:25-34 | A column whose normalised name is not recognised keeps its name. |
| Preprocessing.DigitRunDigits | src/preprocessing.py:44 | A digit run is all digits and stops at the end or at a non-digit. |
| Preprocessing.MatchAt | src/preprocessing.py:44 | A match is non-empty and fits in the text. |
| Preprocessing.MatchAtIsNumeral | src/preprocessing.py:44 | What the pattern matches is a numeral: an optional minus, digits, and an optional fraction. |
| Preprocessing.MatchAtMaximal | src/preprocessing.py:44 | The match is the longest numeral at that position; no match means no numeral starts there. |
| Preprocessing.TokensAreNumerals | src/preprocessing.py:44 | Every token `findall` returns is a numeral. |
| Preprocessing.TokensExample | src/preprocessing.py:44 | "[1.5, -2]" yields the tokens "1.5" and "-2". |
| Preprocessing.NumeralExamples | src/preprocessing.py:46 | "1.5" reads as 1.5 and "-2" reads as -2. |
| Preprocessing.ParseCoordinates | src/preprocessing.py:38-47 | Latitude and longitude are both present or both absent. A missing cell gives neither. A list gives its first two items when it has two. Text gives coordinates exactly when the scanner finds two numerals, and then they are the values of the first two, in order. |
| Preprocessing.CoordinatesExample | src/preprocessing.py:38-47 | "[1.5, -2]" gives latitude 1.5 and longitude -2. |
| Preprocessing.CoordinatesOneNumber | src/preprocessing.py:45-47 | Text holding one number gives no coordinates. |
| Preprocessing.NormalizeUnit | src/preprocessing.py:50-58 | `None` stays `None`, and any cell gives text. |
| Preprocessing.NormalizeUnitAgrees | src/preprocessing.py:50-58 | On text and on `None`, the pipeline's normalisation equals the converter's. |
| Preprocessing.NanFolded | src/preprocessing.py:52-58 | "nan" normalises to itself. |
| Preprocessing.MissingUnitIsNan | src/preprocessing.py:52 | A missing unit cell normalises to "nan". |
| Preprocessing.NanUnsupported | src/aqi.py:138-169 | No pollutant accepts the unit "nan". |
| Preprocessing.MissingUnitUnsupported | src/preprocessing.py:79 | A missing unit becomes "nan", which no pollutant accepts. |
| Preprocessing.ColumnIndex | src/preprocessing.py:76 | A column lookup fails exactly when the name is absent; otherwise it finds that name. |
| Preprocessing.LayoutOf | src/preprocessing.py:76-108 | Reading fails exactly when a required column is missing, and it names a missing one. Otherwise every position fits the row width. |
| Preprocessing.CleanOne | src/preprocessing.py:76-97 | A row survives exactly when its stripped, lower-cased pollutant is one of the six, its time parses, and its value converts. A survivor carries that pollutant, time and standard reading, plus its location and parsed coordinates. |
| Preprocessing.FilterMapFrom | src/preprocessing.py:77-97 | Every kept row comes from some input row. |
| Preprocessing.CleanRows | src/preprocessing.py:76-97 | The loop keeps exactly the surviving rows, cleaned, in order. |
| Preprocessing.DropDuplicates | src/preprocessing.py:99-108 | The loop keeps a row exactly when no earlier row has its key. |
| Preprocessing.DedupAppend | src/preprocessing.py:99-108 | One more row is kept exactly when its key is new, and its key joins the keys seen. |
| Preprocessing.DedupKeys | src/preprocessing.py:99-108 | Duplicate removal keeps every key. |
| Preprocessing.DedupDistinct | src/preprocessing.py:99-108 | No two kept rows share a key. |
| Preprocessing.DedupSubsequence | src/preprocessing.py:99-108 | The kept rows are a subsequence of the input, in input order. |
| Preprocessing.DedupKeepsFirst | src/preprocessing.py:99-108 | The first row with each key is kept. |
| Preprocessing.SubsequenceMembers | src/preprocessing.py:99-108 | Everything in a subsequence is in the sequence. |
| Preprocessing.PresentColumns | src/preprocessing.py:122 | The kept columns are exactly the listed columns the frame has, in list order. |
| Preprocessing.RenamedColumns | src/preprocessing.py:74 | Renaming keeps the number of columns. |
| Preprocessing.CleanRawData | src/preprocessing.py:73-124 | A missing required column is reported by name, in the order the columns are read. When no row passes the pollutant filter, the conversion step fails with the length-mismatch error; this comes before a missing `location` is noticed. Otherwise the result holds the present keep-list columns, and the surviving rows with duplicates removed. |
| Preprocessing.FindRecognised | src/preprocessing.py:76-77 | The scan reports exactly whether some row passes the pollutant filter. |
| Preprocessing.CleanRowsValid | src/preprocessing.py:73-124 | Every cleaned row has one of the six pollutants and comes from some input row. |
| Preprocessing.DottedPollutantDropped | src/preprocessing.py:76-77 | A row whose pollutant text is "PM2.5" is dropped. |
| Preprocessing.MissingUnitDropped | src/preprocessing.py:79-97 | A row with a missing unit is dropped. |
| Preprocessing.Floor | src/preprocessing.py:130 | The bucket start is a multiple of the width, at or below the time, within one width of it. |
| Preprocessing.MultipleMod | src/preprocessing.py:130 | A multiple of the width leaves no remainder. |
| Preprocessing.MatchingMembers | src/preprocessing.py:142-146 | The readings averaged for a pollutant at an index are exactly that pollutant's values at that index. |
| Preprocessing.MatchingNonEmpty | src/preprocessing.py:142-146 | Every pivot cell averages at least one reading. |
| Preprocessing.Pivot | src/preprocessing.py:142-164 | The index rows are exactly the complete index keys that occur. The columns of each index row are exactly the pollutants seen there. Each cell holds the mean of the readings of its pollutant at its index, of which there is at least one. |
| Preprocessing.PollutantsHaveReadings | src/preprocessing.py:142-164 | Every pollutant seen at an index has at least one reading to average. |
| Preprocessing.PivotCellBounds | src/preprocessing.py:142-164 | Every cell lies between any lower and upper bound of the readings it averages. |
| Preprocessing.PivotExample | src/preprocessing.py:142-164 | Readings of 10 and 20 for one index and pollutant give one cell holding 15. |
| Preprocessing.AggregateAndPivot | src/preprocessing.py:127-167 | The wide table is the pivot of the bucketed rows, indexed by country and city when the frame has them. |
| Preprocessing.SumBounds | src/preprocessing.py:144 | A sum of values in [lo, hi] lies between n·lo and n·hi. |
| Preprocessing.MeanBounds | src/preprocessing.py:144 | A mean lies between the smallest and the largest reading. |
| Preprocessing.MeanExample | src/preprocessing.py:144 | The mean of 10 and 20 is 15. |
| Preprocessing.SameIndexKeys | src/preprocessing.py:148-164 | Rows agreeing on index, pollutant and value have the same index keys. |
| Preprocessing.SamePollutantsAt | src/preprocessing.py:148-164 | Such rows have the same pollutants at each key. |
| Preprocessing.MatchingAlike | src/preprocessing.py:142-146 | Such rows average the same readings. |
| Preprocessing.PivotRowAlike | src/preprocessing.py:148-164 | Such rows give the same pivot row at each key. |
| Preprocessing.PivotIgnoresOtherFields | src/preprocessing.py:142-164 | The pivot depends only on each row's index, pollutant and value. |
| Preprocessing.PivotIgnoresSourceName | src/preprocessing.py:132-141 | The source name is not a grouping column and does not affect the pivot. |
| Preprocessing.IncompleteIndexKeys | src/preprocessing.py:148-164 | A row with a missing index field adds no index key. |
| Preprocessing.IncompletePollutantsAt | src/preprocessing.py:148-164 | Such a row adds no pollutant column at any key. |
| Preprocessing.IncompleteMatching | src/preprocessing.py:148-164 | Such a row adds no reading to any average. |
| Preprocessing.IncompletePivotRow | src/preprocessing.py:148-164 | Such a row leaves every pivot row unchanged. |
| Preprocessing.IncompleteRowIgnored | src/preprocessing.py:148-164 | A row with a missing index field leaves the wide table unchanged. |
| Predict.UnitGiven | backend/predict.py:30 | A unit is used exactly when the units mapping is non-empty and gives the pollutant a non-empty unit, and then it is that unit. |
| Predict.StandardValue | backend/predict.py:28-38 | A value that is absent or NaN gives `None`. A value with no unit is kept as is. With a unit, the result is defined exactly when the conversion succeeds, and then it is the converted value. |
| Predict.StandardizePollutants | backend/predict.py:23-39 | The result has exactly the six input pollutants, each standardised. |
| Predict.InputPollutantsAreCodes | backend/predict.py:20 | Every input pollutant is a breakpoint-table key. |
| Predict.NoUnitMeansCanonical | backend/predict.py:37-38 | A value given without a unit is taken to be in the table's unit. |
| Predict.StandardPreservesMass | backend/predict.py:34-36 | A converted value denotes the same mass concentration as the request's value in its unit. |
| Predict.StandardKeepsSubIndex | backend/predict.py:28-38 | The sub-index of the standardised value equals the sub-index of the raw value in the given unit. |
| Predict.AllAbsentNoSubIndex | backend/predict.py:77-79 | With every value `None`, there is no sub-index. |
| Predict.ComputeExactAqi | backend/predict.py:72-82 | With no value present, both AQI and category are `None`. Otherwise the AQI is the row AQI of the standardised values and the category is its category. |
| Predict.SubIndicesAgree | backend/predict.py:72-81 | Rows with the same sub-index for every pollutant collect the same sub-indices. |
| Predict.ExactAqiOfRawReadings | backend/predict.py:72-82 | The exact AQI of the standardised values equals the AQI of the raw values with their given units. |
| Predict.ProvidedAmong | backend/predict.py:67 | A pollutant is listed exactly when it is one of the given names and its value is not `None`. |
| Predict.Provided | backend/predict.py:67 | A pollutant is provided exactly when it is an input pollutant whose value is not `None` (NaN counts as provided). |
| Predict.ProvidedAmongInOrder | backend/predict.py:67 | The provided names form an order-preserving subsequence of the names they are drawn from. |
| Predict.ProvidedInOrder | backend/predict.py:67 | `provided` lists the pollutants in the schema's field order. |
| Predict.ProvidedButUnconverted | backend/predict.py:67 | 10 "ppb" of PM2.5 is provided, but its standardised value is `None`. |
| Predict.NaNProvided | backend/predict.py:67 | A NaN value counts as provided, yet it has no standardised value. |
| Predict.MissingFlagInjective | backend/predict.py:61 | Different pollutants have different flag columns. |
| Predict.WithPollutantsAt | backend/predict.py:55 | `row.update` sets each pollutant column to its standardised value and leaves other columns alone. |
| Predict.WithFlagsOther | backend/predict.py:60-61 | Adding flags leaves every non-flag column alone. |
| Predict.WithFlagsFlag | backend/predict.py:60-61 | Each flag is 1 when its pollutant column is missing and 0 otherwise. |
| Predict.NotFlag | backend/predict.py:61 | No short column name is a flag column. |
| Predict.ValuesRowPollutant | backend/predict.py:50-58 | The row holds each pollutant's standardised value. |
| Predict.PollutantFeature | backend/predict.py:42-69 | A pollutant feature is the standardised value, or missing. |
| Predict.MissingFlagFeature | backend/predict.py:60-61 | The `_is_missing` feature is 1 exactly when the standardised value is `None`. |
| Predict.CoordinateFeatures | backend/predict.py:50-54 | The latitude and longitude features are the request's. |
| Predict.CalendarFeatures | backend/predict.py:58 | The hour, day-of-week and month features are the time features of the timestamp. |
| Predict.BuildFeatureFrame | backend/predict.py:42-69 | Each requested feature column holds its value in the built row, or missing. The method also returns the standardised values and the provided list. |
| Predict.SelectFeatures | backend/predict.py:63-69 | Each requested column holds the row's cell, or missing when the row lacks the column; one entry per requested column, in order. |
| Features.BuildFeatureColumns | src/features.py:36-43 | The list is the pollutants, then hour, day of week, month, latitude and longitude. When lags are included, a lag-1 column follows for each pollutant. |
| Features.NoLagsIsPrefix | src/features.py:39-41 | The list without lags is a prefix of the list with lags. |
| Features.LagNameInjective | src/features.py:31 | Different column/lag pairs get different lag-column names. |
| Features.Insert | src/features.py:26 | Insertion adds exactly the one row. |
| Features.InsertSorted | src/features.py:26 | Insertion keeps the rows sorted by group and time. |
| Features.SortRows | src/features.py:26 | Sorting is a permutation of the rows. |
| Features.SortRowsSorted | src/features.py:26 | The sorted rows are ordered by group, then time. |
| Features.InsertStable | src/features.py:26 | Inserting a row keeps the order of the rows with any one group and time, and puts the new row after them. |
| Features.SortRowsStable | src/features.py:26 | The sort is stable: for every group and time, the rows with that key come out in their input order. |
| Features.Back | src/features.py:32 | The row k back within the group is earlier and in the same group. |
| Features.Ahead | src/features.py:32 | The row k ahead within the group is later and in the same group. |
| Features.BackSorted | src/features.py:32 | On sorted rows, k back within the group is position i-k when that row is in the group. |
| Features.AheadSorted | src/features.py:32 | On sorted rows, k ahead within the group is position i+k when that row is in the group. |
| Features.ShiftOnSortedRows | src/features.py:32 | On sorted rows, `shift(k)` reads the row k places earlier (k > 0) or later (k < 0) when it is in the same group, and gives `None` otherwise. `shift(0)` is the row's own cell. |
| Features.BackAgree | src/features.py:32 | The backward search depends only on the groups. |
| Features.AheadAgree | src/features.py:32 | The forward search depends only on the groups. |
| Features.GroupShiftAgree | src/features.py:32 | The shift depends only on the groups and the shifted column. |
| Features.WithLagColumn | src/features.py:32 | Writing a lag column sets that column of every row to the group shift and keeps the row keys. |
| Features.TargetNotLag | src/features.py:28-31 | When no lag name is a target name, no target column is a lag column. |
| Features.WriteLagStep | src/features.py:27-32 | Writing one lag column writes it correctly, keeps earlier lag columns, and keeps every non-lag column. |
| Features.IsLagColumnAppend | src/features.py:27 | The lag columns of one more lag are the old ones plus the new lag's. |
| Features.IsLagColumnExtend | src/features.py:28-31 | The lag columns of one more target are the old ones plus that target's, if present. |
| Features.AddLagColumns | src/features.py:28-32 | The inner loop writes the lag-k column of every present target, keeps earlier lag columns and non-lag columns, and adds the new names. |
| Features.AddLagFeatures | src/features.py:17-33 | Without a group column, a non-empty frame with a lag and a present target column fails with "No group keys passed!", and only then. Otherwise the rows are sorted by group and time. Every present target gets a correct lag column for every lag. Every other column keeps its sorted value. The columns are the frame's plus the lag columns. |

## Left out

- File reading (`load_raw_data`), the web application (`backend/app.py`), model loading and configuration, training and evaluation are not part of this model. So are the model's forecast and any I/O. The application calls `build_feature_frame` with a third argument and imports a name the predictor does not define; neither is modelled.
- `pd.to_numeric` and `pd.to_datetime` are parameters of the cleaning: a parser from text to an optional number or time. The time features of `add_time_features` (hour, day of week, month) are a parameter of `Predict.BuildFeatureFrame`. Time zones and the conversion to naive UTC are not modelled; times are integers.
- Floating point is modelled by exact reals. Rounding, overflow, and NaN arithmetic beyond "missing" are not captured.
- `Strings.Lower` lower-cases ASCII letters only. The model's `\d` matches ASCII digits only, where Python's matches every Unicode decimal digit. `float()` is modelled only for the numerals the coordinate pattern can match; there is no exponent notation.
- A coordinates cell that is a list is modelled as a list of reals. A list with fewer than two items falls through to text scanning in the source; the model gives no coordinates.
- Data frames are a list of column names plus rows. A frame with duplicate column names is read through the first column of each name.
- The order of rows and columns of the pivoted table is not modelled: the result is a map from index key to pollutant means.
- Rows whose timestamp fails to parse are dropped by the cleaning, so the aggregation does not model a missing time.
- `Features.AddLagFeatures`: the contract assumes that no lag-column name is one of the target columns (`NoClash`). Otherwise a later lag would shift an already overwritten column.
- `Features.AddLagFeatures`: grouping keys are abstracted as one integer rank per row, in the order of the group columns; whether `group_cols` is empty at all is the parameter `grouped`. Nothing ties `grouped` to the ranks: with no group column every row should carry the same rank, and when the ranks differ the model sorts by rank first where the source sorts on time alone. A missing group key (which pandas' `groupby` drops) is not modelled.
- `Features.SortRows`: sorting is an insertion sort and is stable (`Features.SortRowsStable`). With at least one group column, `sort_values` sorts on several keys and is stable too, so the two agree. With no group column the frame comes back only when nothing is shifted (no rows, no lags or no present target); it is then sorted on the time column alone with quicksort, which promises no order for rows with equal times, and the model keeps their input order.
- `Aqi.ComputeAqiDataframe`: a row is modelled as numeric cells only (`Aqi.Cells`). The source copies every column of the frame, including the index columns, the timestamp and the location. "Keeps its cells" is stated for the numeric columns only.
- `Predict.BuildFeatureFrame`: the frame is one row, given as a list of features in the order of the requested columns. The column dtypes are not modelled.
