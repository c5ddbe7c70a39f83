# Healthcare Insights Dashboard — verified model of the filter-and-aggregate pipeline

The dashboard is a Streamlit script over a table of patient admissions. Behind
its charts sits a small data pipeline, and this project models that pipeline in
Dafny:

1. **Preprocessing.** The two date columns are parsed. A `stay_duration`
   column is then added to the frame in place: discharge day minus admission
   day.
2. **Filter engine.** The sidebar selections become a `Criteria` value: chosen
   insurance providers, chosen medical conditions, a gender choice ("All",
   "male", "female") and an inclusive age range. The rows are filtered in
   three stages, each rebinding `filtered_data`:
   - a provider/condition mask;
   - a gender mask, applied unless the choice is "All";
   - an age mask.

   The number of remaining rows is shown as the patient count.
3. **Aggregates.**
   - Male and female counts over the filtered rows, and their shares.
   - Two heatmap tallies, `groupby([a, b]).size().unstack().fillna(0)`: admission
     type × insurance provider, and blood type × medical condition.

Files, one module each:

- `dates.dfy` (`Dates`): calendar dates and their day ordinals. 0001-01-01 is
  day 1, as in Python's `date.toordinal`.
- `keys.dfy` (`Keys`): Python's `str` ordering, the sorted distinct keys of a
  sorting `groupby`, and occurrence counts.
- `records.dfy` (`Records`): the record, its columns, the two gender values,
  the two exceptions the script can raise on these paths, stay durations, and
  the `Frame` class that preprocessing updates in place.
- `filtering.dfy` (`Filtering`): boolean-mask selection, the three masks, the
  staged filter, the single conjunction it equals, and the widget domains and
  defaults.
- `aggregation.dfy` (`Aggregation`): grouped counts, the gender tally and the
  shares.
- `dashboard.dfy` (`Dashboard`): one run of the script from top to bottom.
- `wrappers.dfy` (`Wrappers`): the `Option` and `Result` types.

In these places the script behaves in ways a reader might not expect, and the model follows the script:

- `stay_duration` is not required to be non-negative. A discharge before
  admission gives a negative stay, and nothing clamps or rejects it.
- Both heatmaps tally the unfiltered `data`, not `filtered_data`. They are the
  same whatever the selections.
- Heatmap rows and columns are sorted, because `groupby` sorts by default.
  They are not in first-seen order.
- An inverted age range is not rejected. It yields an empty result (the slider
  never produces one).
- With no male or female row among the shown rows, both counts fall back to the
  integer 0, and `male_count/total_count` raises `ZeroDivisionError`. It does
  not give NaN.
- On an empty table, `int(data['age'].min())` raises, because the minimum is NaN.

## Model

| member | source | states |
|---|---|---|
| Dates.DayNumber | healthcare_dashboard.py:10-11 | 0001-01-01 has ordinal 1, and the ordinal of a valid date lies within the range of ordinals of its own year |
| Dates.DayNumberOrder | healthcare_dashboard.py:10-11 | on valid dates the day ordinal compares exactly as the calendar does, and equal ordinals mean equal dates |
| Dates.DayNumberIncreasing | healthcare_dashboard.py:10-11 | an earlier valid date has a strictly smaller day ordinal, across months and years including leap years |
| Dates.NextDay | healthcare_dashboard.py:10-12 | the day after a valid date is a valid, later date, rolling over at month and year ends |
| Dates.DayNumberNext | healthcare_dashboard.py:10-12 | consecutive days have consecutive ordinals, across month ends, year ends and 29 February |
| Dates.NextDayIsNext | healthcare_dashboard.py:10-12 | no valid date lies strictly between a day and the day after it |
| Dates.DayNumberAdvance | healthcare_dashboard.py:10-12 | the date k days after a valid date is valid and its ordinal is k higher, so subtracting ordinals counts days |
| Records.StayDays | healthcare_dashboard.py:12 | the stay is the signed difference of day ordinals, neither clamped nor rejected; a discharge on the day after admission is a stay of 1, also across a month or year end |
| Records.StayCountsDays | healthcare_dashboard.py:12 | discharge k calendar days after admission gives a stay of exactly k (`.dt.days`) |
| Records.StayDaysSign | healthcare_dashboard.py:12 | the stay is negative exactly when discharge precedes admission, zero exactly for the same date, positive otherwise: no clamping and no rejection |
| Records.StayWithinMonth | healthcare_dashboard.py:12 | within one month the stay is the difference of the days (2024-01-01 to 2024-01-05 is 4) |
| Records.Frame.AddStayDuration | healthcare_dashboard.py:12 | every row gains the stay of its own two dates, and nothing else in the frame changes |
| Records.Values | healthcare_dashboard.py:24-25 | a column `data[col]` holds each row's value of that column, in row order |
| Filtering.Count | healthcare_dashboard.py:53 | the number of rows a mask keeps is at most the number of rows |
| Filtering.Select | healthcare_dashboard.py:35-38 | `frame[mask]` has as many rows as the mask keeps, and each of them is an input row on which the mask holds |
| Filtering.Positions | healthcare_dashboard.py:35-45 | the positions where a mask holds, strictly increasing, each in range, and none missing |
| Filtering.SelectAtPositions | healthcare_dashboard.py:35-45 | a selection is exactly the input rows at the mask's increasing positions: order kept, rows unaltered |
| Filtering.SelectComplete | healthcare_dashboard.py:35-45 | every input row on which the mask holds is selected |
| Filtering.SelectAll | healthcare_dashboard.py:35-45 | a mask that holds on every row keeps the frame unchanged |
| Filtering.SelectNone | healthcare_dashboard.py:35-45 | a mask that holds on no row gives an empty frame |
| Filtering.SelectAppend | healthcare_dashboard.py:35-45 | selecting from two frames one after the other is selecting from each and concatenating |
| Filtering.SelectComposes | healthcare_dashboard.py:42-45 | filtering a filtered frame again equals filtering once with the conjunction of both masks |
| Filtering.SelectCongruent | healthcare_dashboard.py:35-45 | masks that agree on every row select the same rows |
| Filtering.ProviderAndConditionMask | healthcare_dashboard.py:35-38 | the first mask holds exactly on rows whose provider and condition are both among the selected ones (`isin` of each list) |
| Filtering.GenderMask | healthcare_dashboard.py:42 | the gender mask holds exactly on rows whose gender equals the choice |
| Filtering.AgeMask | healthcare_dashboard.py:45 | the age mask holds exactly on rows whose age lies in the inclusive range |
| Filtering.ApplyFilters | healthcare_dashboard.py:35-53 | the three-stage filter, with the gender stage skipped for "All", equals the single conjunction of the four conditions; the patient count is its length, at most the number of rows |
| Filtering.FilteredMembers | healthcare_dashboard.py:35-45 | soundness and completeness: a row is shown if and only if it is a data row meeting all four conditions |
| Filtering.FilteredKeepsOrder | healthcare_dashboard.py:35-45 | the shown rows are the data rows at the increasing positions of exactly the matching rows |
| Filtering.FilteredIdempotent | healthcare_dashboard.py:35-45 | filtering the shown rows again with the same selections changes nothing |
| Filtering.EmptySelectionShowsNothing | healthcare_dashboard.py:36-37 | deselecting every provider or every condition shows no rows; it does not disable that filter |
| Filtering.InvertedAgeRangeShowsNothing | healthcare_dashboard.py:45 | an age range with low above high is not rejected and shows no rows |
| Filtering.Unique | healthcare_dashboard.py:24-25 | the widget options list each value of the column exactly once and no other value |
| Filtering.Min | healthcare_dashboard.py:31 | the minimum age is an age of the column and no age is below it |
| Filtering.Max | healthcare_dashboard.py:31 | the maximum age is an age of the column and no age is above it |
| Filtering.DefaultCriteria | healthcare_dashboard.py:24-32 | the defaults fail exactly on an empty table (int of NaN); otherwise the provider and condition lists hold each value of their column once and nothing else, the gender default is the first option, "All", and the age bounds are the youngest and the oldest age of the table |
| Filtering.DefaultsShowEverything | healthcare_dashboard.py:24-45 | with the default selections every row is shown, including the rows at the youngest and oldest ages |
| Keys.SortedKeys | healthcare_dashboard.py:124 | group keys come out strictly increasing in Python's string order, holding exactly the values that occur |
| Keys.StrictlyIncreasingUnique | healthcare_dashboard.py:124 | strictly increasing key lists with the same members are equal, so the sorted keys are determined by the set of values |
| Keys.Occurrences | healthcare_dashboard.py:82-83 | a count is at most the length, and positive exactly when the value occurs (`get(v, 0)` gives 0 when absent) |
| Aggregation.Pairs | healthcare_dashboard.py:124 | the groupby key of each row is the pair of its two column values, in row order |
| Aggregation.RowCells | healthcare_dashboard.py:124 | each cell of a tally row is the size of the group for that row key and column key |
| Aggregation.Grid | healthcare_dashboard.py:124 | the unstacked tally has one row per row key and one cell per column key, each the size of that group, 0 when the group is empty |
| Aggregation.GroupCounts | healthcare_dashboard.py:124 | sorted distinct row and column keys taken from the data, and a cell for every combination holding its group size |
| Aggregation.GroupSizeCountsRecords | healthcare_dashboard.py:124 | a group's size is the number of records having both of its values |
| Aggregation.GroupEmptyIff | healthcare_dashboard.py:124 | a group has size 0 exactly when no record has both of its values |
| Aggregation.UnseenCombinationIsZero | healthcare_dashboard.py:154 | a cell is 0 exactly when no record has that combination (`fillna(0)`) |
| Aggregation.GroupCountsTotal | healthcare_dashboard.py:154 | the cells of a grouped-count tally add up to the number of records |
| Aggregation.GroupCountKeysIgnoreOrder | healthcare_dashboard.py:124 | reordering the records leaves the tally's row and column keys unchanged |
| Aggregation.GenderCountIsMaskCount | healthcare_dashboard.py:82-83 | `value_counts().get(g, 0)` over the gender column equals the number of rows the mask `gender == g` keeps |
| Aggregation.TallyGenders | healthcare_dashboard.py:82-83 | the male count is the number of shown rows whose gender is 'male', and likewise for female; each is positive exactly when such a row is shown |
| Aggregation.OccurrencesOfTwo | healthcare_dashboard.py:84 | two distinct values occur together at most as often as the entries, and exactly that often when no third value occurs |
| Aggregation.GenderTotalBounds | healthcare_dashboard.py:84 | `total_count` is at most the number of shown rows, and equal to it exactly when every shown row is 'male' or 'female' |
| Aggregation.Shares | healthcare_dashboard.py:85 | division fails exactly when the total is 0; otherwise both shares lie in [0, 1], add up to 1, and the male share times the total is the male count |
| Aggregation.SharesUndefinedIff | healthcare_dashboard.py:82-85 | the shares are undefined exactly when no shown row is 'male' or 'female', for example when no row is shown |
| Dashboard.RunDashboard | healthcare_dashboard.py:10-154 | a run derives the stay column in place; on an empty table it fails with the int-of-NaN error, and otherwise it succeeds exactly when a shown row is 'male' or 'female' and fails with the division error when none is; a success reports the filtered row count, the gender counts of the shown rows, the shares computed from those counts (adding up to 1), and both heatmap tallies over all rows |

## Left out

- Reading the CSV file and parsing the date text (`pd.read_csv`, `pd.to_datetime`): file I/O and a foreign library. Rows arrive with dates already parsed into calendar dates, and a malformed date is not modelled.
- Time of day in the parsed timestamps: dates are whole days, so `.dt.days` is the exact difference of day ordinals.
- Missing values (NaN) in any column: `isin`, comparisons and `groupby` (which drops NaN keys) are modelled on present values only.
- Streamlit widgets, layout and text (`st.sidebar.*`, `st.write`, `st.subheader`, `st.pyplot`): the user interface. Their results are the `Criteria` input. Streamlit re-runs the script on every interaction; the model is one run.
- All seaborn and matplotlib charts (histograms, count plots, box plots, heatmap rendering, scatter plot): rendering only.
- `avg_age` (line 65) and every use of `billing_amount`: floating-point statistics used only in text and charts.
- Aggregation.Shares: computes exact rational shares instead of double-precision floats, and leaves out the percentage formatting of line 85.
- Aggregation.GroupCounts: cells are whole numbers; pandas stores them as floats once `fillna` has filled a gap.
- Records.Frame.AddStayDuration: the in-place update reassigns a sequence field. Column objects shared with other frames (pandas views and copies) are not modelled.
- The hard-coded observation and insight texts (lines 66-213): static prose with no behaviour.
