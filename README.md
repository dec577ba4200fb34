# SecureCheck record processing, modelled in Dafny

SecureCheck is a Streamlit dashboard over a table of police traffic-stop
records (`traffic_logs`). This project models what the dashboard computes
from those records. The screens, the database connection and the charting
are not modelled.

- **Sidebar filters.** These are the distinct, sorted, non-missing values
  offered in the three multiselects. The filter pipeline narrows the loaded
  table with pandas `isin`, one non-empty selection at a time
  (`FilterOptions`, `Filters`).
- **Insights & Analysis.** `value_counts` is a list of (value, count)
  entries, optionally cut to its first ten. The other aggregates are the
  drug-related violation chart over the filtered view, the arrest rate by
  gender, and arrests by hour of day. The hour chart reads the `hour`
  column that the dashboard adds to the table in place (`ValueCounts`,
  `Insights`).
- **Prediction form.** This is the two-rule heuristic: a citation for
  drivers over 25, and speeding for stops in the hours 7 to 18
  (`Prediction`).
- **Advanced Insights.** These are the six canned SQL reports, chosen by
  title. Each returns integer result rows: group sizes, flagged counts,
  HAVING thresholds, and the top five by arrest rate with LIMIT 5
  (`Grouping`, `Reports`).

A record is a `Records.StopRecord`, and a nullable column is an `Option`.
Strings are ordered as Python compares them, code point by code point
(`StringOrder.Less`). Averages and rates are kept as numerator/denominator
pairs of natural numbers.

Points where the behaviour is open or easily misread:

- **Tie order in value counts.** pandas does not specify the order of
  values with equal counts, so the model leaves it open: `NonIncreasing`
  by count, and any order among equals.
- **Which table the charts read.** Only the drug-related chart reads the
  filtered view. Arrest rate by gender, stop durations, violation and
  gender counts, and arrests by hour all read the whole table, as
  `SecureCheck/app.py:68-113` does.
- **Form label.** The form field read as `is_arrested` is labelled "Was a
  Drug Involved?" and is only used for the drug-related wording in the
  summary text, which is not modelled.
- **Missing values in grouping.** SQL `GROUP BY` keeps NULL as a group of
  its own (an `Option` key that can be `None`). pandas `value_counts` and
  `groupby` drop missing values. Text keys are compared exactly, as under a
  binary collation (see "## Left out").

## Model

| member | source | states |
|---|---|---|
| FilterOptions.Options | SecureCheck/app.py:32-39 | The options for a column are strictly ascending (so duplicate-free) and hold exactly the values present in that column; missing values are never offered |
| FilterOptions.OptionsDetermined | SecureCheck/app.py:37-39 | Any strictly sorted list holding exactly the present values is the options list, so `sorted(unique())` is unique |
| FilterOptions.SidebarOptions | SecureCheck/app.py:32-39 | The three sidebar lists (country, gender, violation) are each strictly sorted and each exactly the present values of its column |
| FilterOptions.InsertDistinct | SecureCheck/app.py:32-37 | Adding a value to a strictly sorted list keeps it strictly sorted and adds exactly that value |
| StringOrder.StrictlySortedUnique | SecureCheck/app.py:37-39 | Two strictly sorted lists with the same elements are equal |
| StringOrder.LessTransitive | SecureCheck/app.py:37 | String order is transitive |
| StringOrder.LessTotal | SecureCheck/app.py:37 | Two different strings are always ordered one way or the other |
| StringOrder.LessIrreflexive | SecureCheck/app.py:37 | No string is before itself |
| Filters.ApplyFilters | SecureCheck/app.py:42-49 | Rebinding the view once per non-empty selection yields exactly the records passing every criterion, in input order |
| Filters.WhereStep | SecureCheck/app.py:44-49 | A non-empty selection narrows the view by `isin` to the filter with one more criterion; an empty one changes nothing |
| Filters.WhereNothing | SecureCheck/app.py:42 | With no criterion the view is the whole table |
| Filters.FilterIdentity | SecureCheck/app.py:42-49 | With all three selections empty the filtered view equals the loaded table |
| Filters.WhereIsSubsequence | SecureCheck/app.py:42-49 | The filtered view is a subsequence of the table: records are only removed, never reordered |
| Filters.WhereMultiplicity | SecureCheck/app.py:42-49 | A record occurs in the view as often as in the table when it passes every criterion, and not at all otherwise |
| Filters.WhereLength | SecureCheck/app.py:42-49 | The view is never longer than the table |
| Filters.FilterMembership | SecureCheck/app.py:44-49 | A table record is in the view iff, for each non-empty selection, its country, gender and violation are present and selected |
| Filters.MissingValueDropped | SecureCheck/app.py:45-49 | A record whose column is missing is dropped whenever that column's selection is non-empty |
| Records.FrequencyPositive | SecureCheck/app.py:64 | A value is counted a positive number of times iff some record holds it |
| Records.FrequencyAtMostPresent | SecureCheck/app.py:64 | No value is counted more often than the column has present values, nor more than there are records |
| Grouping.FrequencyIsGroupSize | SecureCheck/app.py:64 | pandas' per-value count of a column equals the `COUNT(*)` of that value's group keyed by the column |
| ValueCounts.Counts | SecureCheck/app.py:87 | `value_counts()`: counts non-increasing, one entry per distinct present value, each equal to how many records hold it and positive, a value listed iff it occurs, totals equal to the present count |
| ValueCounts.TopCounts | SecureCheck/app.py:78 | `value_counts().head(n)`: at most `n` entries, a prefix of the full counts, the full counts when fewer than `n`, and no omitted value counted more than any kept one |
| ValueCounts.SortByCountProperties | SecureCheck/app.py:87 | Sorting the tally by count keeps its totals and its distinct values and orders it by non-increasing count |
| ValueCounts.TallyCounts | SecureCheck/app.py:94 | The raw tally counts each value exactly as often as records hold it |
| ValueCounts.TallyValues | SecureCheck/app.py:94 | The raw tally holds one entry per distinct present value |
| ValueCounts.TallySum | SecureCheck/app.py:94 | The raw tally's counts add up to the records where the column is present |
| Insights.EntrySumIsSumNat | SecureCheck/app.py:94 | The total of a value_counts table is the plain sum of its counts |
| ValueCounts.DurationShares | SecureCheck/app.py:73 | The stop-duration slices are exactly the durations that occur, and together they cover every record |
| ValueCounts.ViolationScenario | SecureCheck/app.py:78 | Two Speeding stops and one Equipment stop count as Speeding 2, then Equipment 1 |
| Insights.DrugViolationChart | SecureCheck/app.py:61-64 | The chart exists iff the table has a drug column; at most ten bars, one per violation, non-increasing, each counting the drug-related records of the filtered view with that violation and each for a violation such a record has; a drug-related violation without a bar means all ten bars are taken, each counted at least as often |
| Insights.DrugRelatedFrequency | SecureCheck/app.py:62-64 | Counting violations among the drug-related records equals counting the records that are both drug-related and of that violation |
| Insights.GenderArrestRates | SecureCheck/app.py:68 | One row per gender present, in ascending order, exactly the genders that occur; each row's mean is arrests over stops with 0 <= arrests <= stops and stops > 0 |
| Insights.ArrestedAtMostFrequency | SecureCheck/app.py:68 | Per value, arrests never exceed stops |
| Insights.ArrestedWithIsGroupFlagged | SecureCheck/app.py:68 | Arrests per value equal the `SUM(CASE WHEN is_arrested …)` flagged count of that value's group |
| Insights.Frame.AddHourColumn | SecureCheck/app.py:112 | Adding the derived column sets the frame's `hour` to each record's stop hour, row for row |
| Insights.Frame.ArrestHeatmap | SecureCheck/app.py:113 | Buckets are strictly ascending by hour, each a positive count of arrests in that hour; over the derived column they add up to the arrested records with a timestamp |
| Insights.ArrestsByHourProperties | SecureCheck/app.py:111-113 | Arrests by hour: keys in 0..23, ascending, each bucket non-empty and exact, every hour with an arrest has a bucket, buckets summing to arrested records with a timestamp |
| Insights.TotalArrestsIsSumNat | SecureCheck/app.py:113 | The total over the hour buckets is the plain sum of their arrest counts |
| Insights.ArrestsAtMeaning | SecureCheck/app.py:112-113 | An hour's bucket is non-empty iff some arrested record was stopped in that hour |
| Insights.BucketsTotal | SecureCheck/app.py:113 | The buckets from a given hour on add up to the arrests at or after that hour |
| Insights.HourColumnArrests | SecureCheck/app.py:112-113 | Over the derived column, arrests with an hour are exactly the arrested records with a timestamp |
| Prediction.SimulatedOutcome | SecureCheck/app.py:138 | The outcome is "Citation" or "Warning", and "Citation" iff the age is over 25 |
| Prediction.SimulatedViolation | SecureCheck/app.py:139 | The violation is "Speeding" or "Equipment", and "Speeding" iff the hour is 7 to 18 inclusive |
| Prediction.Predict | SecureCheck/app.py:126-139 | For an age the form admits (16..100) and the stop hour: the outcome is "Citation" or "Warning", "Citation" iff the age is over 25; the violation is "Speeding" or "Equipment", "Speeding" iff the hour is 7 to 18 |
| Reports.Lookup | SecureCheck/app.py:165-228 | Whatever report the title ladder selects has the given title |
| Reports.LookupNone | SecureCheck/app.py:165-228 | The ladder selects nothing exactly when the title is no report's title |
| Reports.LookupTitle | SecureCheck/app.py:153-165 | Every report's title selects that report, so the titles are pairwise different |
| Reports.CatalogComplete | SecureCheck/app.py:153-160 | The select box lists six reports, every report among them, with pairwise different titles |
| Grouping.Keys | SecureCheck/app.py:173 | The groups of a `GROUP BY` are duplicate-free and exactly the key values that occur (NULL included) |
| Grouping.GroupSizePositive | SecureCheck/app.py:170 | `COUNT(*)` of a group is positive iff the group occurs |
| Grouping.FlaggedAtMostSize | SecureCheck/app.py:171 | A `SUM(CASE … THEN 1 ELSE 0)` count never exceeds the group's `COUNT(*)` |
| Grouping.SizesCoverAll | SecureCheck/app.py:170-173 | The group sizes add up to the number of records |
| Grouping.Having | SecureCheck/app.py:211 | `HAVING total_stops > m` keeps exactly the listed groups with more than `m` records, duplicate-free when the list is |
| Reports.SupportedViolations | SecureCheck/app.py:210-211 | The violation groups kept by `HAVING total_stops > 50` are exactly the violations (NULL included) with more than 50 stops, each once |
| Reports.YearlyBreakdownRows | SecureCheck/app.py:165-175 | One row per (country, year) that occurs, each with positive stops and arrests at most stops; stops add up to the table size |
| Reports.WithAgeLength | SecureCheck/app.py:185 | `WHERE driver_age IS NOT NULL` keeps as many records as have an age |
| Reports.ViolationTrendRows | SecureCheck/app.py:177-188 | Exactly one row per (race, age, violation) that occurs among records with an age, never a NULL age, each count positive; counts add up to records with an age |
| Reports.TimePeriodRows | SecureCheck/app.py:190-200 | One row per (year, month, hour) that occurs, NULLs included, each positive; counts add up to the table size |
| Reports.HighSearchArrestRows | SecureCheck/app.py:202-213 | Rows are exactly the violations with more than 50 stops, once each; searches and arrests are each at most stops |
| Reports.DemographicRows | SecureCheck/app.py:215-226 | Exactly one row per (country, gender, race) that occurs, NULL included; counts positive and adding up to the table size; the average's denominator is the ages present, at most the count |
| Reports.AverageAgeBounds | SecureCheck/app.py:221 | When every age lies in 16..100, a group's age total lies between 16 and 100 times its ages present |
| Reports.TopArrestRateRows | SecureCheck/app.py:228-240 | At most five rows, and five unless fewer violations qualify; each violation has more than 50 stops and arrests at most stops, once each, in descending arrest rate; no left-out violation has a higher rate than any row |
| Reports.SortByRate | SecureCheck/app.py:238 | Ordering by rate is a permutation of the grouped rows in descending rate |
| Reports.RateTransitive | SecureCheck/app.py:238 | Comparing arrest rates by cross-multiplication is transitive through a row with stops |
| Reports.RunReport | SecureCheck/app.py:165-242 | Running a report yields rows of that report only, with its row properties: group counts positive and adding up to the table size (to the records with an age for the trends report), arrests and searches within stops, the violations with more than 50 stops exactly for the search/arrest report, and for the top five min(5, qualifying) rows in descending rate, each over 50 stops |

## Left out

- The MySQL connection, `pd.read_sql` and the Streamlit cache: the reports are modelled as functions of the table's records, and the dashboard's table is their input.
- Screens, widgets, markdown text and charts (Plotly and Streamlit): only the numbers behind each chart are modelled.
- Driver age histogram (lines 105-108): binning is done by the plotting library, so no computation of the program's own is left to model.
- Floating point: `mean()`, `AVG`, `ROUND(…, 1)` and `ROUND(…, 2)` become numerator/denominator pairs (`GenderRate`, `DemographicRow.ageTotal`/`agesPresent`, `ArrestRateRow`).
- Reports.TopArrestRateRows: orders by the exact rate, comparing fractions, not by the rounded percentage. Rounding is monotone, so this is one of the orders `ORDER BY arrest_rate_percent DESC` allows. Among rows tied after rounding, SQL may return a different five.
- Grouping.Keys, Reports.YearlyBreakdownRows, Reports.ViolationTrendRows, Reports.HighSearchArrestRows, Reports.DemographicRows and Reports.TopArrestRateRows: text keys are compared exactly, as under a binary collation. A case- or accent-insensitive collation such as MySQL's default `utf8mb4_0900_ai_ci` would merge groups that differ only in case or accents ('Male' and 'male'); the merged group can cross the `HAVING total_stops > 50` threshold and change the Top 5. Collations are not modelled because the table's collation is part of the database schema, which is not part of this model.
- ORDER BY of the first five reports: their rows come in group-discovery order, and the sort order of the result is not stated.
- ValueCounts.Counts: the order among equal counts is left open (see above).
- `stop_duration`, `is_arrested` and `search_conducted` are taken as never missing (plain fields of `Records.StopRecord`, not `Option`s). So `ValueCounts.DurationShares` covers every record, whereas pandas would drop a missing duration at line 73.
- Datetime parsing: a record's stop time comes already split into year, month and hour (`Records.Timestamp`).
- The column-existence guards at lines 105 and 111: the columns are assumed present. Only the `drugs_related_stop` guard at line 61 is modelled, as a parameter.
- The form's date/time inputs and free-text fields, and the summary sentence: only the driver age (bounded 16..100) and the hour reach the rules.
- `df.copy()` and the separate identity of `filtered_df`: both are modelled as values. Only the in-place `hour` column update is modelled on a mutable object (`Insights.Frame`).
- Failures: an unreachable store, a missing column and a failing query all come from the database connection, which is not modelled. Asking for an unknown column cannot arise, because columns are the `Records.Column` datatype and the report keys are fixed functions.
