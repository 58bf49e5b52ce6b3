/**
 * The counting engine of the web-log analyzer: four counter arrays filled
 * by one pass over the log, and linear-scan queries over them.
 */
module Analyzer {
  import opened Counting
  import opened Records
  import opened Reader

  class LogAnalyzer {
    var hourCounts: array<int>
    var dailyCounts: array<int>
    var monthlyCounts: array<int>
    var yearlyCounts: array<int>
    var reader: LogfileReader

    /** The records the reader has delivered so far. */
    ghost function Delivered(): seq<LogEntry>
      reads this, reader
      requires reader.Valid()
    {
      reader.entries[..reader.cursor]
    }

    /**
     * The object invariant: the arrays have 24, 28, 12 and 5 cells (so they
     * are four distinct arrays), and each holds, cell by cell, how many of
     * the delivered records fall into that cell.
     */
    ghost predicate Valid()
      reads this, reader, hourCounts, dailyCounts, monthlyCounts, yearlyCounts
    {
      && hourCounts.Length == 24
      && dailyCounts.Length == 28
      && monthlyCounts.Length == 12
      && yearlyCounts.Length == 5
      && reader.Valid()
      && AllWellFormed(Delivered())
      && Counted(hourCounts[..], dailyCounts[..], monthlyCounts[..], yearlyCounts[..], Delivered())
    }

    /** An analyzer over the default log file, whose records are `demoLog`. */
    constructor Demo(demoLog: seq<LogEntry>)
      ensures Valid()
      ensures fresh(reader) && fresh(hourCounts) && fresh(dailyCounts) && fresh(monthlyCounts) && fresh(yearlyCounts)
      ensures reader.filename == "demo.log" && reader.entries == demoLog && reader.cursor == 0
      ensures hourCounts[..] == Zeros(24) && dailyCounts[..] == Zeros(28)
      ensures monthlyCounts[..] == Zeros(12) && yearlyCounts[..] == Zeros(5)
    {
      hourCounts := new int[24](_ => 0);
      dailyCounts := new int[28](_ => 0);
      monthlyCounts := new int[12](_ => 0);
      yearlyCounts := new int[5](_ => 0);
      reader := new LogfileReader("demo.log", demoLog);
      new;
      ZeroBuckets();
    }

    /** An analyzer over the log file `filename`, whose records are `log`. */
    constructor (filename: string, log: seq<LogEntry>)
      ensures Valid()
      ensures fresh(reader) && fresh(hourCounts) && fresh(dailyCounts) && fresh(monthlyCounts) && fresh(yearlyCounts)
      ensures reader.filename == filename && reader.entries == log && reader.cursor == 0
      ensures hourCounts[..] == Zeros(24) && dailyCounts[..] == Zeros(28)
      ensures monthlyCounts[..] == Zeros(12) && yearlyCounts[..] == Zeros(5)
    {
      hourCounts := new int[24](_ => 0);
      dailyCounts := new int[28](_ => 0);
      monthlyCounts := new int[12](_ => 0);
      yearlyCounts := new int[5](_ => 0);
      reader := new LogfileReader(filename, log);
      new;
      ZeroBuckets();
    }

    /** Freshly zeroed arrays over an unread log satisfy the invariant. */
    lemma ZeroBuckets()
      requires hourCounts.Length == 24 && dailyCounts.Length == 28
      requires monthlyCounts.Length == 12 && yearlyCounts.Length == 5
      requires forall i :: 0 <= i < 24 ==> hourCounts[i] == 0
      requires forall i :: 0 <= i < 28 ==> dailyCounts[i] == 0
      requires forall i :: 0 <= i < 12 ==> monthlyCounts[i] == 0
      requires forall i :: 0 <= i < 5 ==> yearlyCounts[i] == 0
      requires reader.Valid() && reader.cursor == 0
      ensures Valid()
      ensures hourCounts[..] == Zeros(24) && dailyCounts[..] == Zeros(28)
      ensures monthlyCounts[..] == Zeros(12) && yearlyCounts[..] == Zeros(5)
    {
    }

    /**
     * Reads every remaining record and counts it once in each bucket, at
     * `hour`, `day - 1`, `month - 1` and `year - FirstYear`, on top of
     * whatever the arrays hold. The fields are used as indices unchecked,
     * so every remaining record must be in range; this is asked of the whole
     * log, whose delivered part the loop does not touch again. When the
     * arrays counted exactly the delivered records before, they count the
     * whole log after.
     */
    method AnalyzeData()
      requires hourCounts.Length == 24 && dailyCounts.Length == 28
      requires monthlyCounts.Length == 12 && yearlyCounts.Length == 5
      requires reader.Valid()
      requires AllWellFormed(reader.entries)
      modifies reader, hourCounts, dailyCounts, monthlyCounts, yearlyCounts
      ensures old(Valid()) ==> Valid()
      ensures reader.Valid() && !reader.HasNext()
      ensures hourCounts[..] == Tally(old(hourCounts[..]), Slots(Hour, old(reader.entries[reader.cursor..])))
      ensures dailyCounts[..] == Tally(old(dailyCounts[..]), Slots(Day, old(reader.entries[reader.cursor..])))
      ensures monthlyCounts[..] == Tally(old(monthlyCounts[..]), Slots(Month, old(reader.entries[reader.cursor..])))
      ensures yearlyCounts[..] == Tally(old(yearlyCounts[..]), Slots(Year, old(reader.entries[reader.cursor..])))
    {
      ghost var c0 := reader.cursor;
      ghost var before := Delivered();
      ghost var h0, d0, m0, y0 := hourCounts[..], dailyCounts[..], monthlyCounts[..], yearlyCounts[..];
      assert reader.entries[c0..reader.cursor] == [];
      while reader.HasNext()
        invariant reader.Valid() && c0 <= reader.cursor
        invariant CountedOnto(hourCounts[..], dailyCounts[..], monthlyCounts[..], yearlyCounts[..],
                              h0, d0, m0, y0, reader.entries[c0..reader.cursor])
        decreases |reader.entries| - reader.cursor
      {
        assert WellFormed(reader.entries[reader.cursor]);
        CountNext(hourCounts[..], dailyCounts[..], monthlyCounts[..], yearlyCounts[..],
                  h0, d0, m0, y0, reader.entries, c0, reader.cursor);
        var entry := reader.Next();
        CountEntry(entry);
      }
      Settle(h0, d0, m0, y0, c0, before, old(Valid()));
    }

    /**
     * Once the reader is exhausted, arrays that hold the records from `c0`
     * on counted onto `h0`, `d0`, `m0`, `y0` are those buckets with the
     * records' slots tallied on top; and if the buckets counted the first
     * `c0` records, the arrays count the whole log.
     */
    lemma Settle(h0: seq<int>, d0: seq<int>, m0: seq<int>, y0: seq<int>, c0: nat, before: seq<LogEntry>, wasValid: bool)
      requires hourCounts.Length == 24 && dailyCounts.Length == 28
      requires monthlyCounts.Length == 12 && yearlyCounts.Length == 5
      requires reader.Valid() && !reader.HasNext() && c0 <= |reader.entries|
      requires AllWellFormed(reader.entries)
      requires before == reader.entries[..c0]
      requires wasValid ==> Counted(h0, d0, m0, y0, before)
      requires CountedOnto(hourCounts[..], dailyCounts[..], monthlyCounts[..], yearlyCounts[..],
                           h0, d0, m0, y0, reader.entries[c0..reader.cursor])
      ensures wasValid ==> Valid()
      ensures hourCounts[..] == Tally(h0, Slots(Hour, reader.entries[c0..]))
      ensures dailyCounts[..] == Tally(d0, Slots(Day, reader.entries[c0..]))
      ensures monthlyCounts[..] == Tally(m0, Slots(Month, reader.entries[c0..]))
      ensures yearlyCounts[..] == Tally(y0, Slots(Year, reader.entries[c0..]))
    {
      var rest := reader.entries[c0..];
      assert reader.entries[c0..reader.cursor] == rest;
      CountOntoTally(Hour, h0, rest);
      CountOntoTally(Day, d0, rest);
      CountOntoTally(Month, m0, rest);
      CountOntoTally(Year, y0, rest);
      if wasValid {
        assert reader.entries[..reader.cursor] == reader.entries[..c0] + rest;
        CountTheRest(h0, d0, m0, y0, hourCounts[..], dailyCounts[..], monthlyCounts[..], yearlyCounts[..],
                     reader.entries[..c0], rest);
      }
    }

    /** The body of the ingestion loop for one record: `hour`, `day - 1`, `month - 1` and `year - FirstYear` each index their array unchecked. */
    method CountEntry(entry: LogEntry)
      requires hourCounts.Length == 24 && dailyCounts.Length == 28
      requires monthlyCounts.Length == 12 && yearlyCounts.Length == 5
      requires WellFormed(entry)
      modifies hourCounts, dailyCounts, monthlyCounts, yearlyCounts
      ensures hourCounts[..] == Bump(old(hourCounts[..]), entry.hour)
      ensures dailyCounts[..] == Bump(old(dailyCounts[..]), entry.day - 1)
      ensures monthlyCounts[..] == Bump(old(monthlyCounts[..]), entry.month - 1)
      ensures yearlyCounts[..] == Bump(old(yearlyCounts[..]), entry.year - FirstYear)
    {
      var hour := entry.hour;
      hourCounts[hour] := hourCounts[hour] + 1;
      var day := entry.day;
      dailyCounts[day - 1] := dailyCounts[day - 1] + 1;
      var month := entry.month;
      monthlyCounts[month - 1] := monthlyCounts[month - 1] + 1;
      var year := entry.year;
      yearlyCounts[year - FirstYear] := yearlyCounts[year - FirstYear] + 1;
    }

    /** Every bucket sums to the number of records delivered: the four buckets agree. */
    lemma BucketTotals()
      requires Valid()
      ensures Sum(hourCounts[..]) == reader.cursor
      ensures Sum(dailyCounts[..]) == reader.cursor
      ensures Sum(monthlyCounts[..]) == reader.cursor
      ensures Sum(yearlyCounts[..]) == reader.cursor
    {
      HistogramSum(Hour, Delivered());
      HistogramSum(Day, Delivered());
      HistogramSum(Month, Delivered());
      HistogramSum(Year, Delivered());
    }

    /** The total of the hourly counts; while the invariant holds, the number of records read. */
    method NumberOfAccesses() returns (total: int)
      requires hourCounts.Length == 24
      ensures total == Sum(hourCounts[..])
      ensures Valid() ==> total == reader.cursor
    {
      total := 0;
      for index := 0 to hourCounts.Length
        invariant total == Sum(hourCounts[..index])
      {
        assert hourCounts[..index + 1] == hourCounts[..index] + [hourCounts[index]];
        SumSnoc(hourCounts[..index], hourCounts[index]);
        total := total + hourCounts[index];
      }
      assert hourCounts[..hourCounts.Length] == hourCounts[..];
      assert Valid() ==> total == reader.cursor by {
        if Valid() {
          BucketTotals();
        }
      }
    }

    /** The first hour (0-based) with the most accesses. */
    method BusiestHour() returns (busiest: int)
      requires hourCounts.Length == 24
      ensures 0 <= busiest <= 23
      ensures IsFirstMax(hourCounts[..], busiest)
    {
      busiest := 0;
      for hour := 0 to hourCounts.Length
        invariant 0 <= busiest < hourCounts.Length
        invariant forall j :: 0 <= j < hour ==> hourCounts[j] <= hourCounts[busiest]
        invariant forall j :: 0 <= j < busiest ==> hourCounts[j] < hourCounts[busiest]
      {
        if hourCounts[hour] > hourCounts[busiest] {
          busiest := hour;
        }
      }
    }

    /** The first hour (0-based) with the fewest accesses. */
    method QuietestHour() returns (quietest: int)
      requires hourCounts.Length == 24
      ensures 0 <= quietest <= 23
      ensures IsFirstMin(hourCounts[..], quietest)
    {
      quietest := 0;
      for hour := 0 to hourCounts.Length
        invariant 0 <= quietest < hourCounts.Length
        invariant forall j :: 0 <= j < hour ==> hourCounts[quietest] <= hourCounts[j]
        invariant forall j :: 0 <= j < quietest ==> hourCounts[quietest] < hourCounts[j]
      {
        if hourCounts[hour] < hourCounts[quietest] {
          quietest := hour;
        }
      }
    }

    /**
     * The first hour of the busiest two-hour window, where hour 23 pairs
     * with hour 0. The best-so-far window is re-read as `busiest` and
     * `busiest + 1`, which stays in bounds because `busiest` can only
     * become 23 in the last round.
     */
    method BusiestTwoHour() returns (busiest: int)
      requires hourCounts.Length == 24
      ensures 0 <= busiest <= 23
      ensures IsFirstMax(CyclicPairSums(hourCounts[..]), busiest)
    {
      ghost var pairs := CyclicPairSums(hourCounts[..]);
      busiest := 0;
      for hour := 0 to hourCounts.Length
        invariant 0 <= busiest < 24 && (busiest == 0 || busiest < hour)
        invariant forall j :: 0 <= j < hour ==> pairs[j] <= pairs[busiest]
        invariant forall j :: 0 <= j < busiest ==> pairs[j] < pairs[busiest]
      {
        assert hourCounts[busiest] + hourCounts[busiest + 1] == pairs[busiest];
        if hour != 23 {
          assert hourCounts[hour] + hourCounts[hour + 1] == pairs[hour];
          if (hourCounts[hour] + hourCounts[hour + 1]) > (hourCounts[busiest] + hourCounts[busiest + 1]) {
            busiest := hour;
          }
        } else if hour == 23 {
          assert hourCounts[23] + hourCounts[0] == pairs[23];
          if (hourCounts[23] + hourCounts[0]) > (hourCounts[busiest] + hourCounts[busiest + 1]) {
            busiest := 23;
          }
        }
      }
    }

    /** The first day of the month (1-based) with the most accesses. */
    method BusiestDay() returns (day: int)
      requires dailyCounts.Length == 28
      ensures 1 <= day <= 28
      ensures IsFirstMax(dailyCounts[..], day - 1)
    {
      var busiest := 0;
      for d := 0 to dailyCounts.Length
        invariant 0 <= busiest < dailyCounts.Length
        invariant forall j :: 0 <= j < d ==> dailyCounts[j] <= dailyCounts[busiest]
        invariant forall j :: 0 <= j < busiest ==> dailyCounts[j] < dailyCounts[busiest]
      {
        if dailyCounts[d] > dailyCounts[busiest] {
          busiest := d;
        }
      }
      day := busiest + 1;
    }

    /** The first day of the month (1-based) with the fewest accesses. */
    method QuietestDay() returns (day: int)
      requires dailyCounts.Length == 28
      ensures 1 <= day <= 28
      ensures IsFirstMin(dailyCounts[..], day - 1)
    {
      var quietest := 0;
      for d := 0 to dailyCounts.Length
        invariant 0 <= quietest < dailyCounts.Length
        invariant forall j :: 0 <= j < d ==> dailyCounts[quietest] <= dailyCounts[j]
        invariant forall j :: 0 <= j < quietest ==> dailyCounts[quietest] < dailyCounts[j]
      {
        if dailyCounts[d] < dailyCounts[quietest] {
          quietest := d;
        }
      }
      day := quietest + 1;
    }

    /** The first month (1-based) with the most accesses. */
    method BusiestMonth() returns (month: int)
      requires monthlyCounts.Length == 12
      ensures 1 <= month <= 12
      ensures IsFirstMax(monthlyCounts[..], month - 1)
    {
      var busiest := 0;
      for m := 0 to monthlyCounts.Length
        invariant 0 <= busiest < monthlyCounts.Length
        invariant forall j :: 0 <= j < m ==> monthlyCounts[j] <= monthlyCounts[busiest]
        invariant forall j :: 0 <= j < busiest ==> monthlyCounts[j] < monthlyCounts[busiest]
      {
        if monthlyCounts[m] > monthlyCounts[busiest] {
          busiest := m;
        }
      }
      month := busiest + 1;
    }

    /** The first month (1-based) with the fewest accesses. */
    method QuietestMonth() returns (month: int)
      requires monthlyCounts.Length == 12
      ensures 1 <= month <= 12
      ensures IsFirstMin(monthlyCounts[..], month - 1)
    {
      var quietest := 0;
      for m := 0 to monthlyCounts.Length
        invariant 0 <= quietest < monthlyCounts.Length
        invariant forall j :: 0 <= j < m ==> monthlyCounts[quietest] <= monthlyCounts[j]
        invariant forall j :: 0 <= j < quietest ==> monthlyCounts[quietest] < monthlyCounts[j]
      {
        if monthlyCounts[m] < monthlyCounts[quietest] {
          quietest := m;
        }
      }
      month := quietest + 1;
    }

    /**
     * The monthly counter array itself, not a copy. While the invariant
     * holds, cell `i` is the number of records read whose month is `i + 1`.
     */
    method TotalAccessesPerMonth() returns (counts: array<int>)
      requires monthlyCounts.Length == 12
      ensures counts == monthlyCounts && counts.Length == 12
      ensures Valid() ==> forall i :: 0 <= i < 12 ==> counts[i] == Occurrences(Slots(Month, Delivered()), i)
    {
      counts := monthlyCounts;
      assert Valid() ==> forall i :: 0 <= i < 12 ==> counts[i] == Occurrences(Slots(Month, Delivered()), i) by {
        if Valid() {
          forall i | 0 <= i < 12
            ensures counts[i] == Occurrences(Slots(Month, Delivered()), i)
          {
            HistogramCell(Month, Delivered(), i);
          }
        }
      }
    }
  }

  /** Hour 23 pairs with hour 0: when that window beats every other, hour 23 is the busiest two-hour start. */
  lemma WrapWindowWins(c: seq<int>)
    requires |c| == 24
    requires forall h :: 0 <= h < 23 ==> c[h] + c[h + 1] < c[23] + c[0]
    ensures IsFirstMax(CyclicPairSums(c), 23)
  {
  }

  /** The hourly counts of the scenario below: two at hour 0, one at hour 1, three at hour 5. */
  function ScenarioCounts(): seq<int>
  {
    seq(24, h => if h == 0 then 2 else if h == 1 then 1 else if h == 5 then 3 else 0)
  }

  lemma ScenarioOccurrences(h: int)
    ensures Occurrences([0, 0, 1, 5, 5, 5], h) == if h == 0 then 2 else if h == 1 then 1 else if h == 5 then 3 else 0
  {
    if h == 0 || h == 1 || h == 5 {
      assert [] + [0] == [0] && [0] + [0] == [0, 0] && [0, 0] + [1] == [0, 0, 1];
      assert [0, 0, 1] + [5] == [0, 0, 1, 5] && [0, 0, 1, 5] + [5] == [0, 0, 1, 5, 5];
      assert [0, 0, 1, 5, 5] + [5] == [0, 0, 1, 5, 5, 5];
      OccurrencesSnoc([], 0, h);
      OccurrencesSnoc([0], 0, h);
      OccurrencesSnoc([0, 0], 1, h);
      OccurrencesSnoc([0, 0, 1], 5, h);
      OccurrencesSnoc([0, 0, 1, 5], 5, h);
      OccurrencesSnoc([0, 0, 1, 5, 5], 5, h);
    } else {
      OccurrencesAbsent([0, 0, 1, 5, 5, 5], h);
    }
  }

  /** In the scenario's counts, hour 5 is the first maximum and hour 2 the first minimum. */
  lemma ScenarioExtrema()
    ensures IsFirstMax(ScenarioCounts(), 5)
    ensures IsFirstMin(ScenarioCounts(), 2)
  {
  }

  /** Records at hours 0, 0, 1, 5, 5, 5: hour 5 is busiest and hour 2, the first empty hour, is quietest. */
  lemma HourlyScenario()
    ensures var log := [LogEntry(0, 1, 1, FirstYear), LogEntry(0, 1, 1, FirstYear), LogEntry(1, 1, 1, FirstYear),
                        LogEntry(5, 1, 1, FirstYear), LogEntry(5, 1, 1, FirstYear), LogEntry(5, 1, 1, FirstYear)];
            && AllWellFormed(log)
            && Histogram(Hour, log) == ScenarioCounts()
            && IsFirstMax(Histogram(Hour, log), 5)
            && IsFirstMin(Histogram(Hour, log), 2)
  {
    var log := [LogEntry(0, 1, 1, FirstYear), LogEntry(0, 1, 1, FirstYear), LogEntry(1, 1, 1, FirstYear),
                LogEntry(5, 1, 1, FirstYear), LogEntry(5, 1, 1, FirstYear), LogEntry(5, 1, 1, FirstYear)];
    assert AllWellFormed(log);
    assert Slots(Hour, log) == [0, 0, 1, 5, 5, 5];
    forall h | 0 <= h < 24
      ensures Histogram(Hour, log)[h] == ScenarioCounts()[h]
    {
      HistogramCell(Hour, log, h);
      ScenarioOccurrences(h);
    }
    assert Histogram(Hour, log) == ScenarioCounts();
    ScenarioExtrema();
  }
}
