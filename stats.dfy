/**
 * `compute_stats` of src/stats.c: one pass over the records gives the count,
 * the average mark, the lowest and highest marks with an index each, and the
 * number of records in each grade band.
 */
module Statistics {
  import opened Students

  /** `Stats` (include/stats.h). The indices are -1 when there is none. */
  datatype Stats = Stats(
    count: nat, average: real, minMark: real, maxMark: real, minIdx: int, maxIdx: int,
    bandA: nat, bandB: nat, bandC: nat, bandD: nat, bandF: nat)

  /** The zero-initialised `Stats` with both indices set to -1. */
  const NoStats := Stats(0, 0.0, 0.0, 0.0, -1, -1, 0, 0, 0, 0, 0)

  datatype Grade = A | B | C | D | F

  /** The grade bands: A from 85, B from 75, C from 65, D from 50, F below. */
  function Band(m: real): (g: Grade)
    ensures g == A <==> 85.0 <= m
    ensures g == B <==> 75.0 <= m < 85.0
    ensures g == C <==> 65.0 <= m < 75.0
    ensures g == D <==> 50.0 <= m < 65.0
    ensures g == F <==> m < 50.0
  {
    if m >= 85.0 then A
    else if m < 85.0 && m >= 75.0 then B
    else if m < 75.0 && m >= 65.0 then C
    else if m < 65.0 && m >= 50.0 then D
    else F
  }

  /** The number of records whose mark falls in band `g`. */
  function CountBand(s: seq<Student>, g: Grade): (n: nat)
    ensures n <= |s|
  {
    if s == [] then 0
    else CountBand(s[..|s| - 1], g) + (if Band(s[|s| - 1].mark) == g then 1 else 0)
  }

  /** Every record is counted in exactly one band. */
  lemma {:induction false} BandsPartition(s: seq<Student>)
    ensures CountBand(s, A) + CountBand(s, B) + CountBand(s, C) + CountBand(s, D) + CountBand(s, F) == |s|
    decreases |s|
  {
    if s != [] {
      BandsPartition(s[..|s| - 1]);
    }
  }

  function SumMarks(s: seq<Student>): real {
    if s == [] then 0.0 else SumMarks(s[..|s| - 1]) + s[|s| - 1].mark
  }

  /** The lowest mark. */
  function MinMark(s: seq<Student>): (m: real)
    requires s != []
    ensures forall k :: 0 <= k < |s| ==> m <= s[k].mark
    ensures exists k :: 0 <= k < |s| && s[k].mark == m
  {
    if |s| == 1 then s[0].mark
    else
      var m := MinMark(s[..|s| - 1]);
      if s[|s| - 1].mark < m then s[|s| - 1].mark else m
  }

  /** The highest mark. */
  function MaxMark(s: seq<Student>): (m: real)
    requires s != []
    ensures forall k :: 0 <= k < |s| ==> s[k].mark <= m
    ensures exists k :: 0 <= k < |s| && s[k].mark == m
  {
    if |s| == 1 then s[0].mark
    else
      var m := MaxMark(s[..|s| - 1]);
      if s[|s| - 1].mark > m then s[|s| - 1].mark else m
  }

  /** The first index whose mark is `m`, or -1. */
  function FirstAt(s: seq<Student>, m: real): (r: int)
    ensures -1 <= r < |s|
    ensures r >= 0 ==> s[r].mark == m
    ensures forall j :: 0 <= j < |s| && (r == -1 || j < r) ==> s[j].mark != m
  {
    if s == [] then -1
    else
      var r := FirstAt(s[..|s| - 1], m);
      if r >= 0 then r else if s[|s| - 1].mark == m then |s| - 1 else -1
  }

  /** A sum of marks each at least `lo` is at least |s| * lo, and one of marks each at most `hi` at most |s| * hi. */
  lemma {:induction false} SumMarksBounds(s: seq<Student>, lo: real, hi: real)
    requires forall k :: 0 <= k < |s| ==> lo <= s[k].mark <= hi
    ensures (|s| as real) * lo <= SumMarks(s) <= (|s| as real) * hi
    decreases |s|
  {
    if s != [] {
      var t := s[..|s| - 1];
      var n := |t| as real;
      SumMarksBounds(t, lo, hi);
      assert (n + 1.0) * lo == n * lo + lo;
      assert (n + 1.0) * hi == n * hi + hi;
    }
  }

  /** The average mark of a non-empty sequence. */
  function Average(s: seq<Student>): real
    requires s != []
  {
    SumMarks(s) / (|s| as real)
  }

  /** The average lies between the lowest and the highest mark. */
  lemma AverageBetweenMinAndMax(s: seq<Student>)
    requires s != []
    ensures MinMark(s) <= Average(s)
    ensures Average(s) <= MaxMark(s)
  {
    var lo, hi := MinMark(s), MaxMark(s);
    SumMarksBounds(s, lo, hi);
    QuotientBounds(SumMarks(s), |s| as real, lo, hi);
  }

  lemma QuotientBounds(x: real, n: real, lo: real, hi: real)
    requires n > 0.0 && n * lo <= x <= n * hi
    ensures lo <= x / n <= hi
  {
  }

  /** One more record: how the sum and the band counts grow. */
  lemma PrefixStep(arr: seq<Student>, i: nat)
    requires i < |arr|
    ensures var p := arr[..i + 1]; var q := arr[..i];
      SumMarks(p) == SumMarks(q) + arr[i].mark &&
      forall g :: CountBand(p, g) == CountBand(q, g) + (if Band(arr[i].mark) == g then 1 else 0)
  {
    assert arr[..i + 1][..i] == arr[..i];
  }

  /** One more record: the lowest mark only moves on a strictly lower mark, and its first index with it. */
  lemma MinStep(arr: seq<Student>, i: nat)
    requires i < |arr|
    ensures var q := arr[..Seen(i)]; var p := arr[..Seen(i + 1)]; var m := arr[i].mark;
      MinMark(p) == (if m < MinMark(q) then m else MinMark(q)) &&
      FirstAt(p, MinMark(p)) == (if m < MinMark(q) then i else FirstAt(q, MinMark(q)))
  {
    if i > 0 {
      var q := arr[..i];
      var p := arr[..i + 1];
      assert p[..i] == q;
      if arr[i].mark < MinMark(q) {
        assert FirstAt(q, arr[i].mark) == -1;
      }
    } else {
      assert arr[..1][..0] == [];
    }
  }

  /** One more record: the highest mark only moves on a strictly higher mark, and its first index with it. */
  lemma MaxStep(arr: seq<Student>, i: nat)
    requires i < |arr|
    ensures var q := arr[..Seen(i)]; var p := arr[..Seen(i + 1)]; var m := arr[i].mark;
      MaxMark(p) == (if m > MaxMark(q) then m else MaxMark(q)) &&
      FirstAt(p, MaxMark(p)) == (if m > MaxMark(q) then i else FirstAt(q, MaxMark(q)))
  {
    if i > 0 {
      var q := arr[..i];
      var p := arr[..i + 1];
      assert p[..i] == q;
      if arr[i].mark > MaxMark(q) {
        assert FirstAt(q, arr[i].mark) == -1;
      }
    } else {
      assert arr[..1][..0] == [];
    }
  }

  /**
   * `min_idx` as src/stats.c:12 leaves it: that line is a comma expression
   * that sets only `max_idx`, so `min_idx` starts at -1 and only moves when a
   * mark strictly below the first record's is met.
   */
  function MinIdxAsWritten(s: seq<Student>): int
    requires s != []
  {
    if s[0].mark == MinMark(s) then -1 else FirstAt(s, MinMark(s))
  }

  /** The index of the lowest mark goes missing whenever the first record has it. */
  lemma MinIdxAsWrittenMisses(s: seq<Student>)
    requires s != [] && s[0].mark == MinMark(s)
    ensures MinIdxAsWritten(s) == -1 && FirstAt(s, MinMark(s)) == 0
  {
  }

  /** The records the loop has looked at after `i` rounds, counting the first, which starts min and max, from the outset. */
  function Seen(i: nat): nat {
    if i == 0 then 1 else i
  }

  /** The grade-band chain of `compute_stats`: exactly the counter of the mark's band goes up by one. */
  method Tally(m: real, a: nat, b: nat, c: nat, d: nat, f: nat) returns (a': nat, b': nat, c': nat, d': nat, f': nat)
    ensures a' == a + (if Band(m) == A then 1 else 0) && b' == b + (if Band(m) == B then 1 else 0)
    ensures c' == c + (if Band(m) == C then 1 else 0) && d' == d + (if Band(m) == D then 1 else 0)
    ensures f' == f + (if Band(m) == F then 1 else 0)
  {
    a', b', c', d', f' := a, b, c, d, f;
    if m >= 85.0 {
      a' := a + 1;
    } else if m < 85.0 && m >= 75.0 {
      b' := b + 1;
    } else if m < 75.0 && m >= 65.0 {
      c' := c + 1;
    } else if m < 65.0 && m >= 50.0 {
      d' := d + 1;
    } else {
      f' := f + 1;
    }
  }

  /**
   * The `stats` struct after `i` rounds of the loop, before count and average
   * are filled in: extremes and indices over the records seen so far, band
   * counts over the first `i` records.
   */
  function Partial(arr: seq<Student>, i: nat): Stats
    requires 0 < |arr| && i <= |arr|
  {
    var q := arr[..Seen(i)];
    var p := arr[..i];
    Stats(0, 0.0, MinMark(q), MaxMark(q), MinIdxAsWritten(q), FirstAt(q, MaxMark(q)),
      CountBand(p, A), CountBand(p, B), CountBand(p, C), CountBand(p, D), CountBand(p, F))
  }

  /** One round of the loop moves an extreme and its index only on a strictly lower or higher mark, and bumps one band. */
  lemma PartialStep(arr: seq<Student>, i: nat)
    requires i < |arr|
    ensures var st := Partial(arr, i); var m := arr[i].mark;
      Partial(arr, i + 1) == Stats(0, 0.0,
        if m < st.minMark then m else st.minMark, if m > st.maxMark then m else st.maxMark,
        if m < st.minMark then i else st.minIdx, if m > st.maxMark then i else st.maxIdx,
        st.bandA + (if Band(m) == A then 1 else 0), st.bandB + (if Band(m) == B then 1 else 0),
        st.bandC + (if Band(m) == C then 1 else 0), st.bandD + (if Band(m) == D then 1 else 0),
        st.bandF + (if Band(m) == F then 1 else 0))
  {
    PrefixStep(arr, i);
    MaxStep(arr, i);
    MinIdxStep(arr, i);
  }

  /** One more record: `min_idx` as written moves to `i` only on a strictly lower mark. */
  lemma MinIdxStep(arr: seq<Student>, i: nat)
    requires i < |arr|
    ensures var q := arr[..Seen(i)]; var p := arr[..Seen(i + 1)]; var m := arr[i].mark;
      MinMark(p) == (if m < MinMark(q) then m else MinMark(q)) &&
      MinIdxAsWritten(p) == (if m < MinMark(q) then i else MinIdxAsWritten(q))
  {
    MinStep(arr, i);
    var q := arr[..Seen(i)];
    var p := arr[..Seen(i + 1)];
    assert q[0] == arr[0] && p[0] == arr[0];
  }

  /** Before the first round: the extremes are the first record's mark, and only `max_idx` is 0. */
  lemma PartialStart(arr: seq<Student>)
    requires arr != []
    ensures Partial(arr, 0) == NoStats.(minMark := arr[0].mark, maxMark := arr[0].mark, maxIdx := 0)
  {
    assert arr[..1] == [arr[0]];
    assert arr[..0] == [];
  }

  /** After the last round the partial struct summarises the whole input. */
  lemma PartialComplete(arr: seq<Student>)
    requires arr != []
    ensures Partial(arr, |arr|) == Stats(0, 0.0, MinMark(arr), MaxMark(arr), MinIdxAsWritten(arr), FirstAt(arr, MaxMark(arr)),
      CountBand(arr, A), CountBand(arr, B), CountBand(arr, C), CountBand(arr, D), CountBand(arr, F))
  {
    assert arr[..|arr|] == arr;
  }

  /** One round of the loop of `compute_stats` on the mark `m` of record `i`: extremes with their indices, then the band. */
  method Round(st: Stats, m: real, i: nat) returns (r: Stats)
    ensures r == st.(
      minMark := if m < st.minMark then m else st.minMark, maxMark := if m > st.maxMark then m else st.maxMark,
      minIdx := if m < st.minMark then i else st.minIdx, maxIdx := if m > st.maxMark then i else st.maxIdx,
      bandA := st.bandA + (if Band(m) == A then 1 else 0), bandB := st.bandB + (if Band(m) == B then 1 else 0),
      bandC := st.bandC + (if Band(m) == C then 1 else 0), bandD := st.bandD + (if Band(m) == D then 1 else 0),
      bandF := st.bandF + (if Band(m) == F then 1 else 0))
  {
    r := st;
    if m < r.minMark {
      r := r.(minMark := m, minIdx := i);
    }
    if m > r.maxMark {
      r := r.(maxMark := m, maxIdx := i);
    }
    var a, b, c, d, f := Tally(m, r.bandA, r.bandB, r.bandC, r.bandD, r.bandF);
    r := r.(bandA := a, bandB := b, bandC := c, bandD := d, bandF := f);
  }

  /** The loop of `compute_stats` as written. */
  method ComputeStats(arr: seq<Student>) returns (st: Stats)
    ensures DescribesAsWritten(st, arr)
  {
    st := NoStats;
    if |arr| == 0 {
      return;
    }
    var sum;
    st, sum := Rounds(arr);
    PartialComplete(arr);
    st := st.(count := |arr|, average := sum / (|arr| as real));
  }

  /** The loop of `compute_stats` from the first record's mark on: the partial struct over all records, and the sum of the marks. */
  method Rounds(arr: seq<Student>) returns (st: Stats, sum: real)
    requires arr != []
    ensures st == Partial(arr, |arr|) && sum == SumMarks(arr)
  {
    sum := 0.0;
    st := NoStats.(minMark := arr[0].mark, maxMark := arr[0].mark, maxIdx := 0);
    PartialStart(arr);
    for i := 0 to |arr|
      invariant st == Partial(arr, i)
      invariant sum == SumMarks(arr[..i])
    {
      var m := arr[i].mark;
      PartialStep(arr, i);
      PrefixStep(arr, i);
      sum := sum + m;
      st := Round(st, m, i);
    }
    assert arr[..|arr|] == arr;
  }

  /**
   * The statistics of the records: all zero for none; otherwise the count,
   * the average, both extreme marks with the first index holding each, and
   * the number of records in every band.
   */
  predicate Describes(st: Stats, arr: seq<Student>) {
    if arr == [] then st == NoStats
    else
      st.count == |arr| && st.average == Average(arr) &&
      st.minMark == MinMark(arr) && st.maxMark == MaxMark(arr) &&
      st.maxIdx == FirstAt(arr, MaxMark(arr)) && st.minIdx == FirstAt(arr, MinMark(arr)) &&
      st.bandA == CountBand(arr, A) && st.bandB == CountBand(arr, B) && st.bandC == CountBand(arr, C) &&
      st.bandD == CountBand(arr, D) && st.bandF == CountBand(arr, F)
  }

  /**
   * The statistics `compute_stats` reports as written: those `Describes`
   * gives, except that `min_idx` is `MinIdxAsWritten`, -1 whenever the first
   * record holds the lowest mark.
   */
  predicate DescribesAsWritten(st: Stats, arr: seq<Student>) {
    if arr == [] then st == NoStats
    else st.minIdx == MinIdxAsWritten(arr) && Describes(st.(minIdx := FirstAt(arr, MinMark(arr))), arr)
  }

  /**
   * What SHOW SUMMARY can name as written: a lowest-mark index is reported,
   * and then holds the lowest mark, exactly when the first record does not
   * hold it.
   */
  lemma AsWrittenLowestIndex(st: Stats, arr: seq<Student>)
    requires arr != [] && DescribesAsWritten(st, arr)
    ensures st.minIdx >= 0 <==> arr[0].mark != MinMark(arr)
    ensures st.minIdx >= 0 ==> st.minIdx < |arr| && arr[st.minIdx].mark == MinMark(arr)
  {
  }

  /**
   * `compute_stats` with line 12 read as intended, both indices starting at 0:
   * `min_idx` is then the first index of the lowest mark. Starting at 0
   * instead of -1 changes only the case where no later mark is lower.
   */
  method ComputeStatsFixed(arr: seq<Student>) returns (st: Stats)
    ensures Describes(st, arr)
  {
    st := ComputeStats(arr);
    if arr != [] && st.minIdx == -1 {
      st := st.(minIdx := 0);
    }
  }

  /** Finding: for marks 40 then 50 the lowest mark is at index 0, yet `min_idx` is reported as -1. */
  lemma MinIdxTypoExample()
    ensures var s := [Student(100001, "Ann", "CS", 40.0), Student(100002, "Bob", "CS", 50.0)];
      MinIdxAsWritten(s) == -1 && FirstAt(s, MinMark(s)) == 0 && s[0].mark == MinMark(s)
  {
  }
}
