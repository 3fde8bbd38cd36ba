# BPEC live-timing stint analyser — verified model of the analysis core

The stint analyser scrapes one competitor's lap table from a live-timing page. It cleans the table into numeric laps and splits the race into *stints*. A stint is a run of racing laps between pit stops. A pit stop is a lap slower than a pit threshold. For each stint the analyser reports:

- the start and end lap;
- the number of laps;
- the total time in minutes;
- the best and median lap;
- the time of the pit lap that closed it.

This project models the three pieces of `app20.py` that do that work, and proves what they promise.

- **Lap-time parsing** (`parse_lap_time`): modules `Text` and `TimeParser`.
  - A token with exactly one `:` is `60 * int(minutes) + float(seconds)`.
  - Any other token is `float(token)`.
  - A missing value and every failure give `None`, modelled as `Option<real>`.
  - `int` and `float` are modelled on a plain signed decimal grammar.
- **Lap-table cleaning** (module `LapTableBuilder`). This covers the pure part of `scrape_lap_data`:
  - the row filter on at least four cells;
  - the six-column `DataFrame`, which pads ragged rows with missing cells and raises when the widest row is not six cells wide (modelled as `Result.Err`);
  - column coercion;
  - `dropna` on lap number and lap time;
  - the sort by lap number, which is claimed only to be ordered and a permutation, since pandas' default sort is not stable.
- **Stint analysis** (`analyze_stints`): modules `StintSegmenter`, `StintStatistics` and `Sorting`.
  - The filtered frame is a sequence of `(label, lap)` pairs.
  - Pit laps are found by label.
  - The loop over pit labels is the method `StintSegmenter.AnalyzeStints`. It uses `iloc` slices over positions with Python's clamping.
  - The method is proved equal to the specification `AsWrittenStints`, which is defined over the `WalkSpans` stint boundaries.
  - Module `StintProperties` does three things:
    - it proves the properties the analyser promises;
    - it defines an independent reference segmentation, `ReferenceSpans`, whose stints are maximal runs of racing laps;
    - it shows the two agree whenever no lap is excluded, and differ once one is (see Findings).

Figures are exact `real` values: rounding to 2 or 3 decimals is not modelled.

## Model

| member | source | states |
|---|---|---|
| Text.IndexOf | app20.py:32 | the first position of the separator, or the length when it is absent; no earlier character is the separator |
| Text.SplitCount | app20.py:32-33 | `split(':')` yields one more piece than there are colons, so "exactly two parts" means "exactly one colon" |
| Text.SplitPieces | app20.py:32 | no piece of a split contains the separator |
| Text.JoinSplit | app20.py:32 | joining the pieces of a split with the separator gives back the original token |
| Text.SplitJoin | app20.py:32 | splitting a join of separator-free pieces gives back the pieces |
| Text.SplitAfter | app20.py:32 | a token whose first separator follows a separator-free prefix splits into that prefix followed by the split of the rest |
| Text.OccurrencesAppend | app20.py:32-33 | colon counts add up over concatenation |
| TimeParser.ParseInt | app20.py:34 | `int` accepts only non-empty tokens free of `:` and `.` |
| TimeParser.ParseFloat | app20.py:35-38 | `float` never accepts a token containing `:` |
| TimeParser.ParseLapTime | app20.py:28-40 | a missing value gives `None`; a parsed time comes from a token with at most one colon |
| TimeParser.ParseLapTimeOneColon | app20.py:32-36 | a one-colon token parses if and only if both halves parse, and then its value is 60 × minutes + seconds |
| TimeParser.ParseLapTimeNoColon | app20.py:37-38 | a colon-free token parses exactly as `float` does |
| TimeParser.ParseLapTimeParts | app20.py:32-36 | a token built as minutes `:` seconds with parsable halves yields 60 × minutes + seconds |
| TimeParser.NatToDigits | app20.py:34 | the decimal digits of a number, without sign, point or colon, whose value is that number |
| TimeParser.ParseIntDigits | app20.py:34 | `int` reads back every natural number written in decimal |
| TimeParser.ParseIntSigned | app20.py:34 | `int` reads back every integer as Python prints it, negative ones included |
| TimeParser.ParseUnsignedDecimalPoint | app20.py:35 | digits `.` digits is read as the whole part plus the fraction |
| TimeParser.ParseFloatDecimal | app20.py:35-38 | `float` of `n.ddd` is n plus the fraction value |
| TimeParser.ParseFloatNegative | app20.py:35-38 | `float` of `-n.ddd` is minus (n plus the fraction value) |
| TimeParser.FormatLapTimeParts | app20.py:32-36 | a formatted `m:ss.fff` time is minutes, one colon, then a colon-free seconds field |
| TimeParser.ParseFormattedLapTime | app20.py:28-40 | round trip: every formatted `m:ss.fff` time parses to 60 × m + ss + 0.fff |
| TimeParser.FormatLapTimeExample | app20.py:32-36 | minute 1, second 23 and fraction 456 format as `"1:23.456"` |
| TimeParser.FractionValueExample | app20.py:35 | the fraction digits `456` are worth 0.456 |
| TimeParser.ParseLapTimeMinutesExample | app20.py:32-36 | `"1:23.456"` parses to 83.456 |
| TimeParser.ParseFloatExample | app20.py:38 | `float("45.2")` is 45.2 |
| TimeParser.ParseLapTimeSecondsExample | app20.py:37-38 | `"45.2"` parses to 45.2 |
| TimeParser.ParseLapTimeNegativeExample | app20.py:32-36 | `"-1:30"` parses to 60 × (-1) + 30 = -30 |
| TimeParser.ParseLapTimeAbsentExamples | app20.py:33-40 | `""`, `"abc"` and `"1:2:3"` all give `None` rather than raising |
| Sorting.InsertPermutation | app20.py:67 | inserting a row adds exactly that row to the multiset of rows |
| Sorting.InsertMembers | app20.py:67 | after an insertion, the rows are the inserted row and the old rows |
| Sorting.SortedCons | app20.py:67 | a row no greater than every row of an ordered table can be put in front of it |
| Sorting.InsertSorted | app20.py:67 | inserting into an ordered table keeps it ordered |
| Sorting.SortByOrderedPermutation | app20.py:67 | sorting orders the rows by key and is a permutation of them |
| StintStatistics.MinLeast | app20.py:88 | the best lap is one of the stint's laps and no lap is faster |
| StintStatistics.MaxGreatest | app20.py:89 | the slowest lap is one of the stint's laps and no lap is slower (it bounds the median) |
| StintStatistics.MedianBounds | app20.py:89 | the median lies between the best and the slowest lap, and is a lap time when the count is odd |
| StintStatistics.SumBounds | app20.py:87 | the stint total lies between n × best lap and n × slowest lap |
| LapTableBuilder.WideRows | app20.py:54-55 | every kept row has at least four cells and none are invented |
| LapTableBuilder.WideRowsMembers | app20.py:54-55 | a row is kept exactly when it has at least four cells |
| LapTableBuilder.WideRowsAll | app20.py:54-55 | when every row has at least four cells, all rows are kept in order |
| LapTableBuilder.CollectRows | app20.py:50-55 | the collecting loop appends exactly the rows the filter keeps, in page order |
| LapTableBuilder.MaxWidth | app20.py:59 | the width of the widest row, which bounds every row and is reached by one |
| LapTableBuilder.Complete | app20.py:65-66 | a record survives exactly when lap number and lap time are present; it carries them, and `Lap Time` equals `Lap Time (s)` |
| LapTableBuilder.Survivors | app20.py:66 | `dropna` never adds rows |
| LapTableBuilder.SurvivorsMembers | app20.py:59-66 | a record survives exactly when it is the cleaned form of some wide row |
| LapTableBuilder.SurvivorsAllComplete | app20.py:66-67 | when every row has a lap number and a lap time, nothing is dropped |
| LapTableBuilder.CleanTable | app20.py:66-67 | the cleaned table is ordered by lap number and is a permutation of the surviving records |
| LapTableBuilder.CleanTableMember | app20.py:67 | every record of the cleaned table survived `dropna` |
| LapTableBuilder.BuildLapTableSucceeds | app20.py:54-59 | building the table succeeds exactly when no kept row is wider than six cells and, if any row is kept, one of them is exactly six cells wide |
| LapTableBuilder.RowRecordFields | app20.py:59-66 | a record's lap number, position and lap time are the coerced cells 0, 1 and 3; Pos Change is cell 2 untouched; Gap and Interval are cells 4 and 5 through the lap-time parser, absent on a four-cell row |
| LapTableBuilder.BuildLapTableRecords | app20.py:54-66 | every lap of the built table comes from a page row of 4–6 cells, with lap number from cell 0, lap time parsed from cell 3, position from cell 1, Pos Change passed through, and Gap and Interval parsed from cells 4 and 5 (absent when the row has four cells) |
| LapTableBuilder.BuildLapTableOrderedPermutation | app20.py:59-67 | the built table is ordered by lap number and is a permutation of the surviving rows, so nothing is merged or removed |
| LapTableBuilder.BuildLapTableFullRows | app20.py:54-67 | a page of six-cell rows always builds, and the table is the cleaned table of all of them |
| LapTableBuilder.DuplicateLapNumbersKept | app20.py:66-67 | two rows with the same lap number both stay in the table; there is no de-duplication |
| StintSegmenter.RetainedMembers | app20.py:72 | every retained lap keeps its label, is the table's lap at that label and has a lap number that is not excluded |
| StintSegmenter.RetainedIncreasing | app20.py:72 | the labels of the filtered frame strictly increase, so the original order is kept |
| StintSegmenter.RetainedCovers | app20.py:72 | every lap whose number is not excluded is retained under its label |
| StintSegmenter.RetainedAll | app20.py:72 | with nothing excluded, the filtered frame is the table, each lap labelled by its position |
| StintSegmenter.PitLapsMembers | app20.py:73-74 | a lap is a pit lap exactly when it is retained and its time exceeds the threshold |
| StintSegmenter.PitLapsIncreasing | app20.py:74 | pit labels come in increasing order |
| StintSegmenter.LapAtLabel | app20.py:90 | looking up a retained label with `.loc` finds that lap |
| StintSegmenter.PitLapsFound | app20.py:74-90 | every pit label can be looked up in the filtered frame |
| StintSegmenter.WalkSpansWithin | app20.py:81-109 | every stint the walk emits is a non-empty slice within the frame |
| StintSegmenter.WalkSpansOrdered | app20.py:80-108 | no stint slice starts before the clamped start, and the slices are disjoint and in ascending order |
| StintSegmenter.WalkSpansClosed | app20.py:90-125 | only the last stint can lack a pit time, and one that lacks it runs to the end of the frame |
| StintSegmenter.WalkSpansPitTimes | app20.py:90 | each closed stint's pit time is the lap time of one of the pit laps |
| StintSegmenter.WalkSpansTotal | app20.py:81-108 | the stint slices cover at most the rest of the frame |
| StintSegmenter.LapTimes | app20.py:87-89 | one lap time per lap of the frame |
| StintSegmenter.Summary | app20.py:84-125 | a stint record carries its number and pit time; its length is the slice size, at least one; start and end are the first and last lap numbers of the slice |
| StintSegmenter.SummaryFigures | app20.py:87-115 | the best lap is the time of a lap of the slice and no lap is faster; the median is at least the best lap and at most some lap of the slice; minutes × 60 is the slice's total time |
| StintSegmenter.Stints | app20.py:92-126 | one stint record per slice |
| StintSegmenter.StintsAt | app20.py:92-102 | the k-th record summarises the k-th slice under number first + k, so numbers run without gaps |
| StintSegmenter.StintLapsTotal | app20.py:86-112 | the stint lengths add up to the total size of the slices |
| StintSegmenter.StintsFromAdvance | app20.py:80-104 | one loop step appends a stint for a non-empty slice, and then advances start and number; an empty slice leaves the number unchanged |
| StintSegmenter.StintsFromSpans | app20.py:80-126 | the stints of the loop are the summaries of the walk's slices, numbered from the starting number |
| StintSegmenter.AsWrittenStintsSpans | app20.py:71-128 | the analyser's stints are the summaries of its slices, numbered from 1 |
| StintSegmenter.CloseStint | app20.py:81-104 | one pass of the loop body: the next start is the pit label + 1, and what it appends plus the rest of the walk equals the walk from the old state |
| StintSegmenter.CutStints | app20.py:76-126 | the loop over pit labels and the final stint produce exactly the specified stints |
| StintSegmenter.AnalyzeStints | app20.py:71-128 | returns the filtered frame and exactly the specified stints |
| StintProperties.AsWrittenSpansShape | app20.py:80-109 | the analyser's slices lie within the filtered frame, are ordered and disjoint, only the last can be open and it then runs to the end, and their total is at most the filtered count |
| StintProperties.AsWrittenPitTimes | app20.py:73-90 | every recorded pit time exceeds the threshold and is the lap time of a retained lap |
| StintProperties.AsWrittenStintAt | app20.py:78-125 | stint k is numbered k + 1, has at least one lap, carries its slice's pit time and summarises its slice; total stint laps ≤ filtered count |
| StintProperties.RetainedByLapNumber | app20.py:67-72 | filtering a table ordered by lap number leaves it ordered |
| StintProperties.StintsInOrder | app20.py:84-111 | over a frame ordered by lap number, each stint starts no later than it ends and no stint ends after a later one starts |
| StintProperties.AsWrittenStintsInOrder | app20.py:67-128 | the analyser's stints, over a cleaned table, run in ascending lap order |
| StintProperties.NoPitSingleStint | app20.py:107-126 | without a pit lap, the whole filtered frame is one open stint numbered 1 |
| StintProperties.SegmentsShape | app20.py:73-128 | the reference slices lie within the frame, none starts before the scan start, and they are ordered and disjoint |
| StintProperties.SegmentsRacing | app20.py:73 | the reference slices contain no pit lap |
| StintProperties.SegmentsCover | app20.py:73 | every racing lap lies in some reference slice |
| StintProperties.SegmentsMaximal | app20.py:73-90 | each reference slice is a maximal racing run, and a closed one is followed by the pit lap whose time it records |
| StintProperties.SegmentsCount | app20.py:73 | the reference slices plus the pit laps account for every lap |
| StintProperties.ReferenceSpans | app20.py:73-128 | the reference slices lie within the frame |
| StintProperties.ReferenceSpansPartition | app20.py:73-128 | the reference stints split the laps exactly: ordered, racing only, covering every racing lap, maximal, each pit time read from the next lap, and stint laps + pit laps = lap count |
| StintProperties.CorrectedStintAt | app20.py:78-125 | corrected stint k summarises reference slice k under number k + 1, and its pit time is the lap right after it |
| StintProperties.WalkSpansShift | app20.py:80-104 | a walk that skips a leading pit lap is the walk without it |
| StintProperties.WalkMatchesSegments | app20.py:74-108 | when labels are positions, the pit-label walk is the reference scan |
| StintProperties.AsWrittenMatchesReference | app20.py:71-128 | with no lap excluded, the analyser's slices and stints are exactly the reference ones |
| StintProperties.AsWrittenLapCount | app20.py:72-128 | with no lap excluded, the analyser's stint lengths plus its pit laps add up to the number of laps |
| StintProperties.OnePitExample | app20.py:71-128 | laps 70, 72, 68, 95, 71 with threshold 80 give stint 1 = laps 1–3 with pit time 95, then stint 2 = lap 5 with no pit time |
| StintProperties.LeadingPitsExample | app20.py:71-128 | laps 95, 96, 60, 62 give one stint, laps 3–4, with no pit time |
| StintProperties.ShiftFrame | app20.py:72 | excluding lap 2 of a five-lap table keeps labels 0, 2, 3, 4 |
| StintProperties.ExclusionShiftExample | app20.py:74-108 | with lap 2 excluded, the analyser's only stint swallows pit lap 4 and lap 5 is lost, while the reference gives laps 1, 3 and then lap 5 |

## Left out

- Browser driving, the page fetch, the wait and the driver shutdown (app20.py:20-26, 44-53, 56-57) are network and DOM I/O. The model starts from the rows' cell texts, already stripped.
- The memoisation decorators (app20.py:42, 70) are framework caching, not logic.
- The Streamlit interface (app20.py:130-243) is not modelled: inputs, team naming, the exclusion picker, plot filtering, plotting, auto-refresh and the wall clock.
- Rounding to 2 or 3 decimals (app20.py:97-100, 122-124) is not modelled. The figures are exact reals, and binary floating point is not modelled at all.
- TimeParser.ParseInt: accepts only an optional sign followed by digits. Python's whitespace, underscores and other spellings are not modelled, nor `pd.to_numeric` turning `"3.0"` into a lap number.
- TimeParser.ParseFloat: accepts only an optional sign, then digits with an optional point, or a point followed by digits. Exponents, `inf`/`nan`, whitespace and underscores are not modelled.
- Lap numbers are modelled as integers. `pd.to_numeric` would produce floats if any value were fractional.
- Sorting.SortByOrderedPermutation: the model sorts with a stable insertion sort, but only "ordered and a permutation" is claimed. pandas' default sort is not stable, so ties by lap number may come out in any order.
- A `DataFrame` wider than six cells, and the six-cell check for narrower pages, are modelled as `Err(ColumnCountMismatch)` rather than as an exception. Rows of 4–6 cells are not required of the caller.
- The code keeps duplicate lap numbers and turns a page with no usable rows into an empty table, not an error (app20.py:66-67). The model does the same (`DuplicateLapNumbersKept`; an empty table gives no stints).
- A filtered lap table that is not ordered by lap number is allowed as input to the stint analysis. The ordering facts (`AsWrittenStintsInOrder`) assume one that is, as `scrape_lap_data` produces.
- Pandas dtype conversions (`int(...)` of the lap numbers at app20.py:84-85, 110-111) are identities here, since lap numbers are already integers.

## Findings

| source | as written | input that shows it | evidently intended | confidence | as-written member | corrected member |
|---|---|---|---|---|---|---|
| app20.py:74-108 | pit labels of the filtered frame, which are positions in the unfiltered table, are used as `iloc` positions in the filtered frame | laps 70, 200, 72, 95, 71 with threshold 80 and lap 2 excluded: the filtered frame has labels 0, 2, 3, 4; pit label 3 makes `iloc[0:3]` include pit lap 4, and the final stint starts at position 4, past the end, so lap 5 is dropped | stints are the maximal runs of retained racing laps between pit laps: laps 1 and 3 with pit time 95, then lap 5 | not executed | StintProperties.ExclusionShiftExample | StintProperties.ReferenceSpansPartition |
