/**
 * One parsed access-log record and the four time buckets it is counted in.
 */
module Records {
  import opened Counting

  /** The first year of the fixed five-year window the yearly bucket covers. */
  const FirstYear: int := 2015

  /** The fields the analyzer reads from a parsed log line. */
  datatype LogEntry = LogEntry(hour: int, day: int, month: int, year: int)

  /** The four buckets: hour of day, day of month, month of year, year in the window. */
  datatype Period = Hour | Day | Month | Year

  /** The number of cells of each bucket. */
  function Width(p: Period): nat
  {
    match p
    case Hour => 24
    case Day => 28
    case Month => 12
    case Year => 5
  }

  /** The cell a record is counted in: hours are already 0-based, days and months are 1-based, years start at `FirstYear`. */
  function Slot(p: Period, e: LogEntry): int
  {
    match p
    case Hour => e.hour
    case Day => e.day - 1
    case Month => e.month - 1
    case Year => e.year - FirstYear
  }

  /** The field ranges under which every index the analyzer computes is in bounds. */
  predicate WellFormed(e: LogEntry)
  {
    && 0 <= e.hour <= 23
    && 1 <= e.day <= 28
    && 1 <= e.month <= 12
    && FirstYear <= e.year <= FirstYear + 4
  }

  predicate AllWellFormed(es: seq<LogEntry>)
  {
    forall k :: 0 <= k < |es| ==> WellFormed(es[k])
  }

  /** A record lies in range exactly when each of its four slots indexes its bucket. */
  lemma WellFormedSlots(e: LogEntry)
    ensures WellFormed(e) <==> forall p: Period :: 0 <= Slot(p, e) < Width(p)
  {
    if !WellFormed(e) {
      if !(0 <= e.hour <= 23) {
        assert !(0 <= Slot(Hour, e) < Width(Hour));
      } else if !(1 <= e.day <= 28) {
        assert !(0 <= Slot(Day, e) < Width(Day));
      } else if !(1 <= e.month <= 12) {
        assert !(0 <= Slot(Month, e) < Width(Month));
      } else {
        assert !(0 <= Slot(Year, e) < Width(Year));
      }
    }
  }

  /** The slots of a run of records, in order. */
  function Slots(p: Period, es: seq<LogEntry>): seq<int>
  {
    seq(|es|, k requires 0 <= k < |es| => Slot(p, es[k]))
  }

  lemma SlotsInRange(p: Period, es: seq<LogEntry>)
    requires AllWellFormed(es)
    ensures InRange(Slots(p, es), Width(p))
  {
  }

  lemma SlotsAppend(p: Period, a: seq<LogEntry>, b: seq<LogEntry>)
    ensures Slots(p, a + b) == Slots(p, a) + Slots(p, b)
  {
  }

  /** The bucket `c` after counting the records `es` into it, in order, one `counts[slot]++` each. */
  function CountOnto(p: Period, c: seq<int>, es: seq<LogEntry>): (r: seq<int>)
    ensures |r| == |c|
  {
    if es == [] then c
    else Bump(CountOnto(p, c, es[..|es| - 1]), Slot(p, es[|es| - 1]))
  }

  /** The bucket for period `p` after counting `es` into fresh zero cells. */
  function Histogram(p: Period, es: seq<LogEntry>): (r: seq<int>)
    ensures |r| == Width(p)
  {
    CountOnto(p, Zeros(Width(p)), es)
  }

  /** Counting records one at a time onto a bucket is tallying their slots in order. */
  lemma {:induction false} CountOntoTally(p: Period, c: seq<int>, es: seq<LogEntry>)
    ensures CountOnto(p, c, es) == Tally(c, Slots(p, es))
  {
    if es != [] {
      var n := |es| - 1;
      assert Slots(p, es)[..n] == Slots(p, es[..n]);
      CountOntoTally(p, c, es[..n]);
    }
  }

  /** Counting one more record bumps its own cell and no other. */
  lemma CountOntoStep(p: Period, c: seq<int>, es: seq<LogEntry>, e: LogEntry)
    ensures CountOnto(p, c, es + [e]) == Bump(CountOnto(p, c, es), Slot(p, e))
  {
    assert (es + [e])[..|es|] == es;
  }

  /** Each bucket sums to the number of records counted: the four buckets agree on the total. */
  lemma HistogramSum(p: Period, es: seq<LogEntry>)
    requires AllWellFormed(es)
    ensures Sum(Histogram(p, es)) == |es|
  {
    CountOntoTally(p, Zeros(Width(p)), es);
    SlotsInRange(p, es);
    TallySum(Zeros(Width(p)), Slots(p, es));
    SumZeros(Width(p));
  }

  /** Cell `i` holds the number of records whose slot is `i`. */
  lemma HistogramCell(p: Period, es: seq<LogEntry>, i: int)
    requires AllWellFormed(es) && 0 <= i < Width(p)
    ensures Histogram(p, es)[i] == Occurrences(Slots(p, es), i)
  {
    CountOntoTally(p, Zeros(Width(p)), es);
    SlotsInRange(p, es);
    TallyCell(Zeros(Width(p)), Slots(p, es), i);
  }

  /** Counting more records on top of a histogram bumps exactly their cells. */
  lemma HistogramAppend(p: Period, a: seq<LogEntry>, b: seq<LogEntry>)
    ensures Histogram(p, a + b) == CountOnto(p, Histogram(p, a), b)
  {
    CountOntoTally(p, Zeros(Width(p)), a);
    CountOntoTally(p, Zeros(Width(p)), a + b);
    CountOntoTally(p, Histogram(p, a), b);
    SlotsAppend(p, a, b);
    TallyAppend(Zeros(Width(p)), Slots(p, a), Slots(p, b));
  }

  /** The four buckets, as values, are the four counts of the records `es` onto the buckets `h0`, `d0`, `m0`, `y0`. */
  ghost predicate CountedOnto(h: seq<int>, d: seq<int>, m: seq<int>, y: seq<int>,
                              h0: seq<int>, d0: seq<int>, m0: seq<int>, y0: seq<int>, es: seq<LogEntry>)
  {
    && h == CountOnto(Hour, h0, es)
    && d == CountOnto(Day, d0, es)
    && m == CountOnto(Month, m0, es)
    && y == CountOnto(Year, y0, es)
  }

  /** The four buckets, as values, hold exactly the counts of the records `es`. */
  ghost predicate Counted(h: seq<int>, d: seq<int>, m: seq<int>, y: seq<int>, es: seq<LogEntry>)
  {
    CountedOnto(h, d, m, y, Zeros(Width(Hour)), Zeros(Width(Day)), Zeros(Width(Month)), Zeros(Width(Year)), es)
  }

  /** Counting record `c` of a log bumps its `hour`, `day - 1`, `month - 1` and `year - FirstYear` cells, one cell per bucket. */
  lemma CountNext(h: seq<int>, d: seq<int>, m: seq<int>, y: seq<int>,
                  h0: seq<int>, d0: seq<int>, m0: seq<int>, y0: seq<int>, log: seq<LogEntry>, c0: nat, c: nat)
    requires c0 <= c < |log| && CountedOnto(h, d, m, y, h0, d0, m0, y0, log[c0..c])
    ensures CountedOnto(Bump(h, log[c].hour), Bump(d, log[c].day - 1), Bump(m, log[c].month - 1),
                        Bump(y, log[c].year - FirstYear), h0, d0, m0, y0, log[c0..c + 1])
  {
    var e := log[c];
    assert log[c0..c + 1] == log[c0..c] + [e];
    CountOntoStep(Hour, h0, log[c0..c], e);
    CountOntoStep(Day, d0, log[c0..c], e);
    CountOntoStep(Month, m0, log[c0..c], e);
    CountOntoStep(Year, y0, log[c0..c], e);
  }

  /** Buckets that count `before`, with `rest` counted on top, count `before + rest`. */
  lemma CountTheRest(h0: seq<int>, d0: seq<int>, m0: seq<int>, y0: seq<int>,
                     h: seq<int>, d: seq<int>, m: seq<int>, y: seq<int>, before: seq<LogEntry>, rest: seq<LogEntry>)
    requires Counted(h0, d0, m0, y0, before)
    requires CountedOnto(h, d, m, y, h0, d0, m0, y0, rest)
    ensures Counted(h, d, m, y, before + rest)
  {
    HistogramAppend(Hour, before, rest);
    HistogramAppend(Day, before, rest);
    HistogramAppend(Month, before, rest);
    HistogramAppend(Year, before, rest);
  }
}
