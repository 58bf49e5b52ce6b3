/**
 * Counter buckets as values: sums, tallies of slot indices, and the
 * first-index extremum predicates that the analyzer's queries are proved
 * against.
 */
module Counting {

  /** The sum of all cells, added from the front as a left-to-right scan does. */
  function Sum(s: seq<int>): int
  {
    if s == [] then 0 else Sum(s[..|s| - 1]) + s[|s| - 1]
  }

  /** A freshly allocated bucket of `n` cells. */
  function Zeros(n: nat): seq<int>
  {
    seq(n, _ => 0)
  }

  /** Every slot indexes a cell of a bucket with `n` cells. */
  predicate InRange(slots: seq<int>, n: nat)
  {
    forall k :: 0 <= k < |slots| ==> 0 <= slots[k] < n
  }

  /**
   * One `counts[i]++`. The value is total so that the specification needs no
   * side conditions; an index outside the bucket leaves it as it is, and the
   * analyzer never uses one (its array updates require the index in bounds).
   */
  function Bump(c: seq<int>, i: int): (r: seq<int>)
    ensures |r| == |c|
  {
    if 0 <= i < |c| then c[i := c[i] + 1] else c
  }

  /** The bucket `c` after bumping, in order, the cell of every slot. */
  function Tally(c: seq<int>, slots: seq<int>): (r: seq<int>)
    ensures |r| == |c|
  {
    if slots == [] then c
    else Bump(Tally(c, slots[..|slots| - 1]), slots[|slots| - 1])
  }

  /** How many times `v` occurs among the slots. */
  function Occurrences(slots: seq<int>, v: int): nat
  {
    if slots == [] then 0
    else Occurrences(slots[..|slots| - 1], v) + (if slots[|slots| - 1] == v then 1 else 0)
  }

  lemma OccurrencesSnoc(slots: seq<int>, x: int, v: int)
    ensures Occurrences(slots + [x], v) == Occurrences(slots, v) + (if x == v then 1 else 0)
  {
  }

  /** A value that no slot holds occurs zero times. */
  lemma {:induction false} OccurrencesAbsent(slots: seq<int>, v: int)
    requires forall k :: 0 <= k < |slots| ==> slots[k] != v
    ensures Occurrences(slots, v) == 0
  {
    if slots != [] {
      OccurrencesAbsent(slots[..|slots| - 1], v);
    }
  }

  lemma SumSnoc(s: seq<int>, x: int)
    ensures Sum(s + [x]) == Sum(s) + x
  {
  }

  /** One increment adds exactly one to the bucket's sum. */
  lemma {:induction false} SumBump(c: seq<int>, i: int)
    requires 0 <= i < |c|
    ensures Sum(Bump(c, i)) == Sum(c) + 1
  {
    var n := |c|;
    if i == n - 1 {
      assert Bump(c, i)[..n - 1] == c[..n - 1];
    } else {
      assert Bump(c, i)[..n - 1] == Bump(c[..n - 1], i);
      SumBump(c[..n - 1], i);
    }
  }

  /** A fresh bucket sums to zero. */
  lemma {:induction false} SumZeros(n: nat)
    ensures Sum(Zeros(n)) == 0
  {
    if n > 0 {
      assert Zeros(n)[..n - 1] == Zeros(n - 1);
      SumZeros(n - 1);
    }
  }

  /** Every slot adds exactly one to the sum: `Sum` after = before + number of slots. */
  lemma {:induction false} TallySum(c: seq<int>, slots: seq<int>)
    requires InRange(slots, |c|)
    ensures Sum(Tally(c, slots)) == Sum(c) + |slots|
  {
    if slots != [] {
      var m := |slots| - 1;
      assert InRange(slots[..m], |c|);
      TallySum(c, slots[..m]);
      SumBump(Tally(c, slots[..m]), slots[m]);
    }
  }

  /** Cell `j` grows by the number of slots equal to `j`, and by nothing else. */
  lemma {:induction false} TallyCell(c: seq<int>, slots: seq<int>, j: int)
    requires InRange(slots, |c|) && 0 <= j < |c|
    ensures Tally(c, slots)[j] == c[j] + Occurrences(slots, j)
  {
    if slots != [] {
      TallyCell(c, slots[..|slots| - 1], j);
    }
  }

  /** Tallying two runs of slots one after the other is tallying their concatenation. */
  lemma {:induction false} TallyAppend(c: seq<int>, a: seq<int>, b: seq<int>)
    ensures Tally(c, a + b) == Tally(Tally(c, a), b)
  {
    if b != [] {
      var m := |b| - 1;
      assert (a + b)[..|a| + m] == a + b[..m];
      TallyAppend(c, a, b[..m]);
    } else {
      assert a + b == a;
    }
  }

  /** `s[k]` is a maximum of `s` and no earlier cell reaches it (first-index tie-break). */
  predicate IsFirstMax(s: seq<int>, k: int)
  {
    && 0 <= k < |s|
    && (forall j :: 0 <= j < |s| ==> s[j] <= s[k])
    && (forall j :: 0 <= j < k ==> s[j] < s[k])
  }

  /** `s[k]` is a minimum of `s` and no earlier cell is as small (first-index tie-break). */
  predicate IsFirstMin(s: seq<int>, k: int)
  {
    && 0 <= k < |s|
    && (forall j :: 0 <= j < |s| ==> s[k] <= s[j])
    && (forall j :: 0 <= j < k ==> s[k] < s[j])
  }

  /** Cell `h` is the count of the period `h` plus that of its cyclic successor. */
  function CyclicPairSums(s: seq<int>): seq<int>
  {
    seq(|s|, h requires 0 <= h < |s| => s[h] + s[(h + 1) % |s|])
  }

  /** The first-index tie-break leaves no choice: at most one index is the first maximum. */
  lemma FirstMaxUnique(s: seq<int>, k1: int, k2: int)
    requires IsFirstMax(s, k1) && IsFirstMax(s, k2)
    ensures k1 == k2
  {
    // Both are maxima, so they hold the same count; each forbids that count below it.
    assert s[k1] == s[k2];
  }

  /** At most one index is the first minimum. */
  lemma FirstMinUnique(s: seq<int>, k1: int, k2: int)
    requires IsFirstMin(s, k1) && IsFirstMin(s, k2)
    ensures k1 == k2
  {
    // Both are minima, so they hold the same count; each forbids that count below it.
    assert s[k1] == s[k2];
  }

  /** When every cell holds the same count, index 0 is both the first maximum and the first minimum, and no other index is. */
  lemma UniformExtremum(s: seq<int>, k: int)
    requires |s| > 0
    requires forall i :: 0 <= i < |s| ==> s[i] == s[0]
    ensures IsFirstMax(s, k) <==> k == 0
    ensures IsFirstMin(s, k) <==> k == 0
  {
    if k != 0 && 0 <= k < |s| {
      assert s[0] == s[k];
    }
  }
}
