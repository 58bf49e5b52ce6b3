# Web-log analyzer: counting engine

This project models `LogAnalyzer` from a small Java repository that analyzes web-server access logs. The analyzer keeps four fixed-size `int` arrays of counters:

- `hourCounts[24]`, indexed by the hour of day;
- `dailyCounts[28]`, indexed by `day - 1`;
- `monthlyCounts[12]`, indexed by `month - 1`;
- `yearlyCounts[5]`, indexed by `year - 2015`.

Ingestion is one pass, `analyzeData`. It pulls every remaining record from a `LogfileReader` and increments one cell in each array. The queries are linear scans over the arrays:

- the total number of accesses;
- the busiest and quietest hour, day and month, each with a first-index tie-break;
- the busiest cyclic two-hour window, where hour 23 pairs with hour 0;
- the monthly array itself.

The model is split into four modules:

- `Counting` (`counting.dfy`): generic facts about buckets held as sequences.
  - `Sum` of the cells.
  - `Bump`, one `counts[i]++` on a value. `Bump` is total: an index outside the bucket leaves it unchanged. The analyzer never produces such an index, because its array updates require the index in bounds.
  - `Tally`, which bumps the cell of each slot index in order.
  - `Occurrences` of a slot value.
  - The predicates `IsFirstMax` and `IsFirstMin`: the chosen cell is `>=` (or `<=`) every cell and strictly beats every lower-indexed cell.
  - `CyclicPairSums`: cell `h` holds `s[h] + s[(h+1) % |s|]`.
- `Records` (`log_entry.dfy`):
  - The `LogEntry` record and the four `Period`s, with their widths and index mappings (`Slot`).
  - The field ranges under which every index is in bounds (`WellFormed`).
  - `Histogram(p, es)`: the bucket for period `p` after counting `es`, one record at a time, into zeroed cells. `CountOnto` is the same one-record-at-a-time count started from any cells, and `CountOntoTally` shows that it equals tallying the records' slots.
  - `Counted`: the four buckets, as values, are the four histograms of the same records.
- `Reader` (`logfile_reader.dfy`): `LogfileReader`, a class over a constant sequence of parsed records and a `cursor` that `Next` advances by one.
- `Analyzer` (`log_analyzer.dfy`): the class `LogAnalyzer`.
  - Its four `array<int>` fields, its reader, and the object invariant `Valid()`. `Valid()` says the arrays have 24, 28, 12 and 5 cells. It also says that every record the reader has delivered so far is in range, and that each array equals `Histogram` of those records.
  - `analyzeData` and each modelled query are Dafny methods with the same loop. Their postconditions are stated with the specification functions above.
  - The body of the `analyzeData` loop, after `reader.next()`, is the method `CountEntry`. It has the same four local variables and the same four increments.

The queries have no `modifies` clause, so Dafny checks that none of them changes a counter array or the reader. `TotalAccessesPerMonth` returns the `monthlyCounts` array itself (`counts == monthlyCounts`), not a copy. A caller may write through that alias. The queries therefore require only the lengths of the arrays they scan, as the Java methods do, and answer on whatever the cells hold. What ties a result to the log (the number of records read, the records per month) is stated under `Valid()`, which such a write can falsify. `AnalyzeData` likewise requires only the array lengths, a consistent reader and records in range, and counts on top of whatever the cells hold, as the Java loop does.

In `busiestTwoHour`, the best window so far is re-read as `hourCounts[busiest] + hourCounts[busiest + 1]`. The model keeps that expression. The loop invariant `busiest == 0 || busiest < hour` proves that index 24 is never read: `busiest` can become 23 only in the last round.

Counters are unbounded integers, so Java `int` wrap-around is not modelled. The file reader is replaced by a parameter: each constructor takes the parsed records of its log file. The default constructor's file is `demo.log`.

Two consequences of the code that the model makes explicit:

- `analyzeData` loops while `reader.hasNext()`, so the first pass exhausts the reader. A second `AnalyzeData` therefore consumes no record and changes no counter: its postcondition is `Tally` over no slots, which is the identity. The invariant `Valid()` holds across any number of calls. Whether `LogfileReader` can be rewound is not part of this model.
- Records at hours 0, 0, 1, 5, 5, 5 give busiest hour 5 and quietest hour 2, the first hour with a zero count (`HourlyScenario`).

## Model

| member | source | states |
|---|---|---|
| `Analyzer.LogAnalyzer.Demo` | LogAnalyzer.java:19-27 | The default constructor allocates fresh arrays of 24, 28, 12 and 5 cells, all zero, and a fresh reader on `demo.log` positioned before the first record. The invariant holds. |
| `Analyzer.LogAnalyzer.constructor` | LogAnalyzer.java:33-42 | The file-name constructor does the same, with a reader on the given file. |
| `Analyzer.LogAnalyzer.AnalyzeData` | LogAnalyzer.java:47-59 | Requires only arrays of 24, 28, 12 and 5 cells, a reader whose cursor is within its log, and every record of the log with hour in [0,23], day in [1,28], month in [1,12] and year in [2015,2019]. Afterwards the reader is exhausted. Each array is its old contents, whatever they were, with the cell of every remaining record bumped once, in order: `hour`, `day-1`, `month-1`, `year-2015`. No other cell changes. If the arrays held exactly the histograms of the delivered records before (`Valid()`), they hold the histograms of the whole log after. |
| `Analyzer.LogAnalyzer.CountEntry` | LogAnalyzer.java:50-57 | For a record in range, increments exactly cell `hour` of `hourCounts`, `day-1` of `dailyCounts`, `month-1` of `monthlyCounts` and `year-2015` of `yearlyCounts`. Every other cell is left alone. |
| `Analyzer.LogAnalyzer.BucketTotals` | LogAnalyzer.java:47-59 | In any valid state, each of the four arrays sums to the number of records the reader has delivered. After `AnalyzeData` that is every record of the log. |
| `Analyzer.LogAnalyzer.NumberOfAccesses` | LogAnalyzer.java:95-103 | Returns the sum of `hourCounts`. While `Valid()` holds, that sum is the number of records read. Changes nothing. |
| `Analyzer.LogAnalyzer.BusiestHour` | LogAnalyzer.java:109-118 | Returns a 0-based hour in [0,23] whose count is `>=` every hour's count and strictly `>` every earlier hour's count. |
| `Analyzer.LogAnalyzer.QuietestHour` | LogAnalyzer.java:124-133 | Returns a 0-based hour in [0,23] whose count is `<=` every hour's count and strictly `<` every earlier hour's count. |
| `Analyzer.LogAnalyzer.BusiestTwoHour` | LogAnalyzer.java:140-158 | Returns the lowest hour h in [0,23] that maximises `hourCounts[h] + hourCounts[(h+1) mod 24]`, so hour 23 pairs with hour 0. No index outside the array is read. |
| `Analyzer.LogAnalyzer.BusiestDay` | LogAnalyzer.java:164-173 | Returns a 1-based day d in [1,28] such that cell d-1 is the first maximum of `dailyCounts`. |
| `Analyzer.LogAnalyzer.QuietestDay` | LogAnalyzer.java:179-188 | Returns a 1-based day d in [1,28] such that cell d-1 is the first minimum of `dailyCounts`. |
| `Analyzer.LogAnalyzer.BusiestMonth` | LogAnalyzer.java:194-203 | Returns a 1-based month m in [1,12] such that cell m-1 is the first maximum of `monthlyCounts`. |
| `Analyzer.LogAnalyzer.QuietestMonth` | LogAnalyzer.java:209-218 | Returns a 1-based month m in [1,12] such that cell m-1 is the first minimum of `monthlyCounts`. |
| `Analyzer.LogAnalyzer.TotalAccessesPerMonth` | LogAnalyzer.java:224-226 | Returns the `monthlyCounts` array itself, an alias and not a copy, with 12 cells. While `Valid()` holds, cell i is the number of records read whose month is i+1. |
| `Analyzer.WrapWindowWins` | LogAnalyzer.java:149-154 | When hours 23 and 0 together exceed every other adjacent pair, 23 is the first maximum of the cyclic pair sums, so `BusiestTwoHour` returns 23. |
| `Analyzer.HourlyScenario` | LogAnalyzer.java:109-133 | Records at hours 0,0,1,5,5,5 give hourly counts 2,1,0,0,0,3,0,…. Hour 5 is the first maximum and hour 2 is the first minimum. |
| `Reader.LogfileReader.constructor` | LogAnalyzer.java:41-41 | A reader made for a file (here, and for `demo.log` at line 26) holds that file's records with the cursor before the first one, so all of them remain to be delivered. |
| `Reader.LogfileReader.HasNext` | LogAnalyzer.java:48-48 | The loop condition. In a consistent reader, a false answer means the cursor has passed every record, which is why one `analyzeData` pass exhausts the log. |
| `Reader.LogfileReader.Next` | LogAnalyzer.java:48-49 | Delivers the record under the cursor and advances the cursor by exactly one. |
| `Counting.FirstMaxUnique` | LogAnalyzer.java:109-118 | At most one index satisfies the strict first-index tie-break for a maximum, so the busiest queries' postconditions determine their results. |
| `Counting.FirstMinUnique` | LogAnalyzer.java:124-133 | At most one index satisfies the tie-break for a minimum, so the quietest queries' results are determined. |
| `Counting.UniformExtremum` | LogAnalyzer.java:124-133 | If all counts are equal, index 0 is the first maximum and the first minimum, and no other index is either. The hour queries then return 0, and the day and month queries return 1. |
| `Counting.SumBump` | LogAnalyzer.java:51-57 | One `counts[i]++` adds exactly one to the array's sum. |
| `Counting.TallySum` | LogAnalyzer.java:48-58 | Bumping the cells of n slots adds n to the sum. |
| `Counting.TallyCell` | LogAnalyzer.java:48-58 | After tallying, cell j has grown by the number of slots equal to j, and by nothing else. |
| `Counting.TallyAppend` | LogAnalyzer.java:48-58 | Tallying two runs of slots one after the other equals tallying their concatenation. |
| `Records.WellFormedSlots` | LogAnalyzer.java:50-57 | A record's fields are in range exactly when `hour`, `day-1`, `month-1` and `year-2015` each index their array of 24, 28, 12 and 5 cells. |
| `Records.CountOntoStep` | LogAnalyzer.java:50-57 | The one-step law of `CountOnto`: counting one more record is `Bump` at that record's slot. `CountNext` uses it to match each loop round's `CountEntry` to the specification. |
| `Records.CountOntoTally` | LogAnalyzer.java:47-59 | Counting records one at a time onto any cells equals tallying their slot indices, in order, onto those cells. |
| `Records.HistogramSum` | LogAnalyzer.java:47-59 | Each bucket's histogram sums to the number of records counted. |
| `Records.HistogramCell` | LogAnalyzer.java:47-59 | Cell i of a bucket's histogram is the number of records whose index in that bucket is i. |
| `Records.HistogramAppend` | LogAnalyzer.java:47-59 | The histogram of earlier records followed by later ones is the histogram of the earlier ones with the later records counted onto it, so a second pass resumes where the first stopped. |

## Left out

- `printHourlyCounts`, `printMonthlyCounts` and `printData` (LogAnalyzer.java:66-89) only write to the console.
- `averageAccessesPerMonth` (LogAnalyzer.java:232-236) is floating-point division. It divides `numberOfAccesses()` by the constant 12, not by the number of months observed. Dafny has no IEEE doubles, so it is not modelled.
- The internals of `LogfileReader` and `LogEntry`: opening the file, parsing lines, and the reader's own data printing. They are not part of this model. The reader is a constant sequence of already parsed records with a cursor. The file name is kept only as a label.
- `Reader.LogfileReader.Next`: calling it on an exhausted reader is excluded by a precondition. `analyzeData` calls it only after `hasNext()` returns true.
- Java `int` overflow: the model uses unbounded integers. This covers the counters, the running `total` of `numberOfAccesses` (LogAnalyzer.java:99) and the pair sums that `busiestTwoHour` compares (LogAnalyzer.java:144-151). The total and the pair sums can wrap before any single counter does, for example with more than 2^31 records spread over the hours. `NumberOfAccesses` and `BusiestTwoHour` are therefore stated on the mathematical sums.
- Out-of-range record fields: the code has no guard, so the ranges are a precondition of `AnalyzeData` and no error path is modelled.
