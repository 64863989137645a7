# Chicago service requests: the transformation step, modelled in Dafny

This project models the batch transformation in `transform_sr_data`, and the
area-to-side lookup in `community_areas`, from the Chicago service-request
pipeline (`dags/csr_bq_transform_data.py`).

The transformation reads two tables: the raw service requests and the
service-request categories. It writes two tables: a date dimension and the
processed service requests. Both inputs arrive as sequences of records, and
both outputs are returned (`TransformSrData.Transform`).

Modules, in pipeline order:

- `Calendar`: proleptic Gregorian day numbers, as Python's `date.toordinal` gives
  them. It also holds the date dimension table: quarter label and week, month,
  quarter and year starts. Conversion from day number to date and back is
  proved in both directions.
- `ServiceRequests`: the record types, the day-of-week mapping, and title case
  for the street columns.
- `Sequences`: row-order-preserving frame operations:
  - boolean-mask selection;
  - pandas' `first` aggregation;
  - `idxmax`;
  - permutation facts.
- `RecordFilter`: the four row filters, the per-row column rewrites (dates cut
  to days, completion time, day names), and the inner join with the category
  table. `PrepareRows` is the stage-by-stage method, proved equal to the
  `Prepared` specification. `PreparedMembership` states exactly which rows
  reach the join.
- `StatusResolver`: grouping by the key (latitude, longitude, created date,
  category, sub-category, type):
  - rows without a completion time give one Open row per key;
  - rows with one give one Completed row per key, taken from the first row
    reaching the largest completion time;
  - the two are concatenated, Completed first, then sorted by created date.
- `TransformSrData`: the derived columns (closed date, days open as of today),
  the date range, the whole transformation, and the properties of the
  processed table. Those properties are: sorted; exactly one of the two latency
  columns filled; one row per key and status; every row traced back to an
  eligible raw row; every eligible raw row represented.
- `CommunityAreas`: the nine sides with their area lists, the comprehension
  that builds `area_to_side`, and the proof that the lists partition areas
  1 to 77.

Behaviour of the code that the model keeps, and that a reader may not expect:

- **Week start.** Week start is `d - ((weekday() + 1) % 7)` with Monday as 0.
  That is the Sunday on or before the date: 2025-01-01 maps to 2024-12-29
  (`Calendar.WeekStartExample`).
- **Date range.** It comes from the raw table before any filter runs, not from
  the filtered rows.
- **Empty raw table.** There is no date range and the transformation fails;
  the model returns None.
- **Open group.** Every column of the Open group uses `first`, which takes the
  first non-missing value of each column separately, so the fields of one
  Open row may come from different input rows.
- **Both statuses per key.** A key that has rows both with and without a
  completion time yields two rows, one Open and one Completed.
- **Sort.** The final sort is pandas' default, which is not stable. Only
  "sorted by created date, and a permutation of the grouped rows" is promised.
- **Input order.** Which row `first` and `idxmax` pick depends on the order of
  the joined rows. The selections, the row rewrites and the join keep that
  order (`Sequences.FilterConcat`, `RecordFilter.NormaliseAll`,
  `RecordFilter.JoinConcat`), so the joined rows of earlier raw rows come
  first (`RecordFilter.PreparedConcat`). The tie-break lemmas name the chosen
  row by its position among the joined rows.

## Model

| member | source | states |
|---|---|---|
| Calendar.FromOrdinal | dags/csr_bq_transform_data.py:38 | the calendar date of a day number is a valid date whose day number is that number |
| Calendar.FromToOrdinal | dags/csr_bq_transform_data.py:38 | a valid date converted to its day number and back is the same date |
| Calendar.OrdinalInjective | dags/csr_bq_transform_data.py:38 | distinct valid dates have distinct day numbers |
| Calendar.Weekday | dags/csr_bq_transform_data.py:45 | `weekday()` is a number from 0 (Monday) to 6 (Sunday) |
| Calendar.WeekdayCycle | dags/csr_bq_transform_data.py:45 | 0001-01-01 is a Monday and each next day is the next weekday, Sunday wrapping to Monday |
| Calendar.WeekStart | dags/csr_bq_transform_data.py:45 | the week start is a Sunday, on or before the date and less than seven days earlier |
| Calendar.WeekStartIsLatestSunday | dags/csr_bq_transform_data.py:45 | any Sunday within the six days up to a date is its week start, so the week start is unique |
| Calendar.WeekStartExample | dags/csr_bq_transform_data.py:45 | 2025-01-01 is a Wednesday and its week start is Sunday 2024-12-29 |
| Calendar.MonthStart | dags/csr_bq_transform_data.py:46 | the month start is the first day of the date's month and year |
| Calendar.QuarterStart | dags/csr_bq_transform_data.py:47 | the quarter start is day 1 of month 1, 4, 7 or 10 of the date's year, the quarter holding the date's month |
| Calendar.YearStart | dags/csr_bq_transform_data.py:48 | the year start is January 1 of the date's year |
| Calendar.QuarterLabel | dags/csr_bq_transform_data.py:42-44 | the label is Q1, Q2, Q3 exactly for months 1-3, 4-6, 7-9, and Q4 otherwise |
| Calendar.QuarterLabelMatchesStart | dags/csr_bq_transform_data.py:42-47 | the quarter label names the quarter whose first month the quarter start falls in |
| Calendar.DateRowOf | dags/csr_bq_transform_data.py:38-48 | one date row: its year, month, month name, quarter label, and week/month/quarter/year starts all describe its own date |
| Calendar.DateDimension | dags/csr_bq_transform_data.py:34-49 | one row per day from start to end inclusive (none if start is after end); row i is for day start + i and describes it |
| Calendar.DateDimensionConsecutive | dags/csr_bq_transform_data.py:34 | the dates of the table strictly increase and leave no day out |
| Sequences.Filter | dags/csr_bq_transform_data.py:66-72 | a selection never grows the frame; what it keeps and in which order is stated by the three lemmas below |
| Sequences.FilterMembership | dags/csr_bq_transform_data.py:66-72 | a selection keeps exactly the rows satisfying the mask |
| Sequences.FilterConcat | dags/csr_bq_transform_data.py:66-72 | selecting from two runs of rows is selecting from each, in order |
| Sequences.FilterKeepsOrder | dags/csr_bq_transform_data.py:66-72 | of two kept rows, the one earlier in the frame is earlier in the selection |
| Sequences.FilterPositionOf | dags/csr_bq_transform_data.py:66-72 | row i of a selection is a kept frame row at a position preceded by exactly i kept rows |
| Sequences.FilterFilter | dags/csr_bq_transform_data.py:116-117 | selecting by one mask and then another is selecting by both |
| Sequences.Column | dags/csr_bq_transform_data.py:118-127 | a column of a frame has one value per row, the row's value |
| Sequences.Retain | dags/csr_bq_transform_data.py:66-72 | the loop that keeps matching rows one by one yields exactly the selection |
| Sequences.FirstPresent | dags/csr_bq_transform_data.py:118-122 | `first` is missing only when the whole column is missing; otherwise it is the value at the first non-missing position |
| Sequences.FirstPresentOfSelection | dags/csr_bq_transform_data.py:116-123 | `first` of a column of a selection is missing exactly when every kept row's value is; otherwise it is the value of the first kept row, in frame order, whose value is present |
| Sequences.FirstMaxIndex | dags/csr_bq_transform_data.py:127 | `idxmax` gives a position holding the largest value, with every earlier value strictly smaller |
| Sequences.FirstMaxIndexUnique | dags/csr_bq_transform_data.py:127 | those two properties determine the position |
| Sequences.FirstMaxIndexExample | dags/csr_bq_transform_data.py:127 | on [3, 7, 7, 2] the first 7, at position 1, is chosen |
| Sequences.FirstMaxOfSelection | dags/csr_bq_transform_data.py:127 | `idxmax` over a selection picks a kept row whose value no kept row exceeds and before which, in frame order, every kept row has a smaller value |
| Sequences.NoDuplicatesPermutation | dags/csr_bq_transform_data.py:141 | reordering a sequence without repeated rows cannot create repeats |
| ServiceRequests.DayName | dags/csr_bq_transform_data.py:86-88 | a day number gets a name exactly when it is 1 to 7 |
| ServiceRequests.DayMappingInjective | dags/csr_bq_transform_data.py:86-87 | different day numbers get different names |
| ServiceRequests.TitleCase | dags/csr_bq_transform_data.py:75-76 | same length; each letter is upper-cased when it starts a run of letters and lower-cased otherwise; other characters are kept |
| ServiceRequests.TitleCaseIdempotent | dags/csr_bq_transform_data.py:75-76 | title case keeps which characters are letters, and applying it twice equals applying it once |
| ServiceRequests.TitleCaseColumn | dags/csr_bq_transform_data.py:75-76 | a missing street value stays missing and a present one is title-cased |
| RecordFilter.CompletionDays | dags/csr_bq_transform_data.py:79-101 | the completion time is missing exactly when the closed timestamp is |
| RecordFilter.CompletionDaysWithinOneDay | dags/csr_bq_transform_data.py:79-82 | the completion time ignores time of day: it depends only on the two dates and is within one day of the exact elapsed time |
| RecordFilter.Normalise | dags/csr_bq_transform_data.py:75-101 | the rewritten row keeps number, type, status, area number and coordinates; its street columns are title-cased; its day of week is named; its created date is the created day; its closed date is present exactly when closed; closed date minus created date is the completion time |
| RecordFilter.NormaliseAll | dags/csr_bq_transform_data.py:75-101 | the rewritten frame has one row per row, in the same order, each the rewrite of its row |
| RecordFilter.JoinOf | dags/csr_bq_transform_data.py:107-110 | a joined row takes number, type, status, dates, completion time, street, area and coordinates from the request and category and sub-category from the category row |
| RecordFilter.Located | dags/csr_bq_transform_data.py:66-72 | after the first three filters, a row remains exactly when it is a raw row whose type is listed, is not an aircraft noise complaint, and has both coordinates |
| RecordFilter.Matches | dags/csr_bq_transform_data.py:107 | the join rows of one request are exactly its combinations with the category rows of its type |
| RecordFilter.Join | dags/csr_bq_transform_data.py:107 | a row is in the inner join exactly when it combines a request with a category row of the same type |
| RecordFilter.JoinConcat | dags/csr_bq_transform_data.py:107 | the join keeps the order of the requests: joining two runs of requests is joining each, in order |
| RecordFilter.NormaliseAllMembership | dags/csr_bq_transform_data.py:75-101 | a rewritten row is in the frame exactly when it rewrites one of the rows |
| RecordFilter.PreparedMembership | dags/csr_bq_transform_data.py:66-110 | a row reaches the join exactly when it combines an eligible raw row (listed type, not aircraft noise, both coordinates, Open or Completed), rewritten, with a category row of its type |
| RecordFilter.LocatedConcat | dags/csr_bq_transform_data.py:66-72 | the three raw-row filters keep the order of the raw rows |
| RecordFilter.NormaliseAllConcat | dags/csr_bq_transform_data.py:75-101 | the column rewrites keep the order of the rows |
| RecordFilter.PreparedConcat | dags/csr_bq_transform_data.py:66-110 | preparing two runs of raw rows gives the joined rows of the first followed by those of the second |
| RecordFilter.PrepareRows | dags/csr_bq_transform_data.py:66-110 | the stage-by-stage filters, rewrites and join produce the prepared rows |
| RecordFilter.NormaliseRows | dags/csr_bq_transform_data.py:75-101 | the row-by-row rewrite equals rewriting every row |
| RecordFilter.JoinRows | dags/csr_bq_transform_data.py:107 | the nested loop over requests and category rows produces the inner join in request order |
| StatusResolver.DistinctKeys | dags/csr_bq_transform_data.py:113-117 | the group keys listed once each, and exactly the keys present |
| StatusResolver.DistinctKeysCount | dags/csr_bq_transform_data.py:113-117 | there are as many groups as distinct keys |
| StatusResolver.KeyOf | dags/csr_bq_transform_data.py:113 | the group key of a joined row is its latitude, longitude, created date, category, sub-category and type |
| StatusResolver.Group | dags/csr_bq_transform_data.py:117 | a group holds exactly the rows with its key, in frame order, and is non-empty for a present key |
| StatusResolver.OpenCandidate | dags/csr_bq_transform_data.py:117-123 | the Open row has the group's key and status Open; its completion time is missing when all are; number, street and area are the columns' first non-missing values |
| StatusResolver.CompletedCandidate | dags/csr_bq_transform_data.py:126-134 | the Completed row has status Completed and takes completion time, number, street and area from a row reaching the group's maximum completion time with no earlier row reaching it |
| StatusResolver.CompletedCandidateExample | dags/csr_bq_transform_data.py:126-134 | with completion times 3, 7, 7, 2 the fields come from the first 7 |
| StatusResolver.Done | dags/csr_bq_transform_data.py:137 | keeps exactly the rows with a completion time |
| StatusResolver.Pending | dags/csr_bq_transform_data.py:116 | keeps exactly the rows without one |
| StatusResolver.Resolve | dags/csr_bq_transform_data.py:116-140 | the concatenation has one row per key of each of the two groupings |
| StatusResolver.ResolveStatuses | dags/csr_bq_transform_data.py:116-140 | every row is either Open, with no completion time and a key of the rows without one, or Completed, with a completion time and a key of the rows with one |
| StatusResolver.ResolveCardinality | dags/csr_bq_transform_data.py:116-140 | the length is the number of distinct keys without a completion time plus the number with one |
| StatusResolver.ResolveOnePerKeyAndStatus | dags/csr_bq_transform_data.py:116-140 | no two rows share both key and status, so a key appears at most twice |
| StatusResolver.ResolveNoDuplicates | dags/csr_bq_transform_data.py:140 | the concatenation repeats no row |
| StatusResolver.ResolveSameKeyAndStatus | dags/csr_bq_transform_data.py:116-140 | two rows with the same key and status are the same row |
| StatusResolver.ResolveCoversKeys | dags/csr_bq_transform_data.py:116-140 | every key with a completion time has a Completed row, and every key without one has an Open row |
| StatusResolver.ResolveCompletedIsFirstMax | dags/csr_bq_transform_data.py:126-138 | a Completed row carries the largest completion time among the joined rows of its key; its completion time, number, street and area are those of the first such row, in the order of the joined rows, that reaches it |
| StatusResolver.ResolveOpenNumberIsFirst | dags/csr_bq_transform_data.py:116-119 | an Open row's SR number is that of the first joined row, in input order, of its key without a completion time |
| StatusResolver.ResolveOpenStreetIsFirst | dags/csr_bq_transform_data.py:116-121 | an Open row's street address is missing exactly when all its key's open rows lack one, and otherwise is that of the first of them, in input order, that has one |
| StatusResolver.ResolveOpenAreaIsFirst | dags/csr_bq_transform_data.py:116-122 | the same for the area number |
| StatusResolver.ResolveProvenance | dags/csr_bq_transform_data.py:116-140 | each row's key and number come from one input row, which for a Completed row also has its completion time, street and area, and for an Open row has no completion time |
| StatusResolver.InsertByCreated | dags/csr_bq_transform_data.py:141 | inserting a row into a sorted table keeps it sorted and adds exactly that row |
| StatusResolver.SortByCreated | dags/csr_bq_transform_data.py:141 | the sort is ordered by created date and a permutation of its input |
| TransformSrData.EarliestCreated | dags/csr_bq_transform_data.py:30 | the start date is a raw row's created day and no raw row is earlier |
| TransformSrData.LatestCreated | dags/csr_bq_transform_data.py:31 | the end date is a raw row's created day and no raw row is later |
| TransformSrData.DatesSpanRawTable | dags/csr_bq_transform_data.py:29-38 | the date table has (latest − earliest + 1) rows, runs from the earliest to the latest created day, and contains every raw row's created day |
| TransformSrData.Derive | dags/csr_bq_transform_data.py:144-158 | closed date is present exactly when the completion time is, and lies that many days after the created date; days open is present exactly for Open rows and reaches today from the created date |
| TransformSrData.DeriveLatencyColumns | dags/csr_bq_transform_data.py:144-158 | for an Open or Completed row exactly one of closed date and days open is filled, with the values above |
| TransformSrData.DeriveColumns | dags/csr_bq_transform_data.py:144-158 | the row-by-row column additions give each sorted row its derived columns |
| TransformSrData.Transform | dags/csr_bq_transform_data.py:29-158 | fails exactly on an empty raw table; otherwise returns the date table over the raw created days and the processed table |
| TransformSrData.ProcessedTable | dags/csr_bq_transform_data.py:140-158 | the processed table has one row per grouped row |
| TransformSrData.ProcessedFromResolved | dags/csr_bq_transform_data.py:140-158 | each processed row is a grouped row with its derived columns |
| TransformSrData.ResolvedIsProcessed | dags/csr_bq_transform_data.py:140-158 | each grouped row appears, with its derived columns, in the processed table |
| TransformSrData.ProcessedSorted | dags/csr_bq_transform_data.py:141 | the processed table is ordered by created date |
| TransformSrData.ProcessedLatencyColumns | dags/csr_bq_transform_data.py:116-158 | every row is Open or Completed; Completed rows have a completion time, closed date = created + completion and no days open; Open rows have neither and days open = today − created |
| TransformSrData.ProcessedCardinality | dags/csr_bq_transform_data.py:116-141 | the processed table has one row per distinct key without a completion time plus one per distinct key with one |
| TransformSrData.ProcessedOnePerKeyAndStatus | dags/csr_bq_transform_data.py:116-141 | no two processed rows share both key and status |
| TransformSrData.ProcessedProvenance | dags/csr_bq_transform_data.py:66-141 | each processed row's key and number come from an eligible raw row and a category row of its type; a Completed row has that raw row's completion time, title-cased street address and area number; an Open row's raw row was not closed |
| TransformSrData.EligibleIsRepresented | dags/csr_bq_transform_data.py:66-141 | every eligible raw row's key has a processed row, Completed if the raw row was closed and Open otherwise |
| CommunityAreas.SideMap | dags/csr_bq_transform_data.py:208 | the comprehension's keys are exactly the listed areas, each mapped to a side listing it |
| CommunityAreas.AreaToSide | dags/csr_bq_transform_data.py:208 | `area_to_side` has exactly the areas 1 to 77 as keys |
| CommunityAreas.SideOfArea | dags/csr_bq_transform_data.py:209 | an area gets a side exactly when it is a key of the lookup |
| CommunityAreas.SideByRange | dags/csr_bq_transform_data.py:199-207 | the range description of the sides covers exactly areas 1 to 77 |
| CommunityAreas.SideListMatchesRanges | dags/csr_bq_transform_data.py:199-207 | each side's list holds exactly the areas the range description gives that side |
| CommunityAreas.SideNamesDistinct | dags/csr_bq_transform_data.py:199-207 | no two sides share a name |
| CommunityAreas.SidesPartitionAreas | dags/csr_bq_transform_data.py:199-207 | every area 1 to 77 is listed under some side, no other number is listed, and no area under two sides |
| CommunityAreas.AreaToSideMatchesRanges | dags/csr_bq_transform_data.py:208-209 | the lookup is defined on exactly areas 1 to 77 and agrees with the range description |

## Left out

- Reading and writing the warehouse is not modelled: client creation, the two queries, `to_dataframe`, and the `WRITE_TRUNCATE` loads. The input tables are parameters and the output tables are the result.
- `date.today()` is a parameter, `today`.
- Columns that never reach an output are omitted: short code, owner department, origin, last-modified date, street direction, created hour and created month. Reordering, `insert`/`pop` and renaming of columns are omitted too, because they change no values.
- Latitude and longitude are integers: the code only compares them for equality. Floating-point values are not modelled.
- The completion time is a whole number of days. Dividing seconds by 86400 and then `np.round` leave it unchanged, so both are the identity. The float types of the "Open SR Time in Days" column are not modelled.
- Month names are a fixed English table. Locale-dependent `strftime` is not modelled.
- ServiceRequests.TitleCase: approximates `str.title()` on ASCII letters only. Unicode case rules are library behaviour.
- Null group-key values are not modelled. Category, sub-category, type, SR number and created date are typed as always present, so pandas' silent dropping of rows whose group key is missing has nothing to act on.
- Duplicate category types are not excluded. The join is modelled in general, so a type listed twice in the category table gives two joined rows.
- The order of groups before the final sort is first appearance, not pandas' sorted key order. The final sort makes only "sorted and a permutation" observable, and that is all the model promises.
- StatusResolver.SortByCreated: states sortedness and permutation but not the order of rows created on the same day, because the source's default sort is not stable.
- TransformSrData.Transform: an input whose filtered rows are empty gives an empty processed table. Pandas' handling of `groupby().apply` on an empty frame is not modelled.
- TransformSrData.Transform: when no joined row has a completion time (line 137-138), `groupby().apply(get_max_row)` on the empty frame may, depending on the pandas version, give a frame without the group columns, and `reset_index` may then raise. This was not executed. The model returns only the Open rows in that case.
- CommunityAreas.SideMap: does not state which side wins when two sides list the same area. SidesPartitionAreas shows that no area is listed twice.
- The rest of `community_areas` is not modelled: its frame renaming, sorting, title-casing of names and the population column. Only the area-to-side table and its lookup are.
- Pandas' supported date range (years 1677 to 2262) is not modelled. The day numbers cover every date from 0001-01-01 on, and the week start of that first day falls before it, so it is an `int` rather than a day number.
