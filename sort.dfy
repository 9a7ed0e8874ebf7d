/**
 * `store_sort` of src/sort.c: the stored records are sorted in place,
 * ascending by id or by mark with the comparators `cmp_id_asc` and
 * `cmp_mark_asc`, and the prefix is then reversed when a descending order
 * was asked for.
 */
module Sorting {
  import opened Students
  import opened RecordStore

  /** `SortKey` (include/sort.h). */
  datatype SortKey = ById | ByMark

  /** `cmp_id_asc`: the sign of the difference of the ids, computed without subtraction. */
  function CmpIdAsc(x: Student, y: Student): (c: int)
    ensures -1 <= c <= 1
    ensures c < 0 <==> x.id < y.id
    ensures c == 0 <==> x.id == y.id
  {
    (if x.id > y.id then 1 else 0) - (if x.id < y.id then 1 else 0)
  }

  /** `cmp_mark_asc`: the sign of the difference of the marks. */
  function CmpMarkAsc(x: Student, y: Student): (c: int)
    ensures -1 <= c <= 1
    ensures c < 0 <==> x.mark < y.mark
    ensures c == 0 <==> x.mark == y.mark
  {
    (if x.mark > y.mark then 1 else 0) - (if x.mark < y.mark then 1 else 0)
  }

  /** The comparator `store_sort` hands to qsort for a key. */
  function Cmp(key: SortKey, x: Student, y: Student): int {
    match key
    case ById => CmpIdAsc(x, y)
    case ByMark => CmpMarkAsc(x, y)
  }

  /** Both comparators are antisymmetric: swapping the arguments flips the sign. */
  lemma CmpAntisymmetric(key: SortKey, x: Student, y: Student)
    ensures Cmp(key, x, y) == -Cmp(key, y, x)
  {
  }

  /** `x` may come before `y` in ascending order. */
  predicate Le(key: SortKey, x: Student, y: Student) {
    Cmp(key, x, y) <= 0
  }

  /** Non-decreasing by the key. */
  predicate Ascending(s: seq<Student>, key: SortKey) {
    forall i, j :: 0 <= i < j < |s| ==> Le(key, s[i], s[j])
  }

  /** Non-increasing by the key. */
  predicate Descending(s: seq<Student>, key: SortKey) {
    forall i, j :: 0 <= i < j < |s| ==> Le(key, s[j], s[i])
  }

  /** The sequence read back to front. */
  function Reversed(s: seq<Student>): (r: seq<Student>)
    ensures |r| == |s|
    ensures forall k :: 0 <= k < |s| ==> r[k] == s[|s| - 1 - k]
  {
    seq(|s|, k requires 0 <= k < |s| => s[|s| - 1 - k])
  }

  /** Reading an ascending sequence back to front gives a descending one. */
  lemma ReversedAscending(s: seq<Student>, key: SortKey)
    requires Ascending(s, key)
    ensures Descending(Reversed(s), key)
  {
    var r := Reversed(s);
    forall i, j | 0 <= i < j < |r| ensures Le(key, r[j], r[i]) {
      assert r[j] == s[|s| - 1 - j] && r[i] == s[|s| - 1 - i];
    }
  }

  /** Reversal is a permutation. */
  lemma {:induction false} ReversedMultiset(s: seq<Student>)
    ensures multiset(Reversed(s)) == multiset(s)
    decreases |s|
  {
    if s != [] {
      var t := s[1..];
      ReversedMultiset(t);
      assert Reversed(s) == Reversed(t) + [s[0]];
      assert s == [s[0]] + t;
    }
  }

  /** With distinct ids, sorting by id orders the ids strictly. */
  lemma AscendingByIdStrict(s: seq<Student>)
    requires Ascending(s, ById) && DistinctIds(s)
    ensures forall i, j :: 0 <= i < j < |s| ==> s[i].id < s[j].id
  {
    forall i, j | 0 <= i < j < |s| ensures s[i].id < s[j].id {
      assert Le(ById, s[i], s[j]);
    }
  }

  lemma DescendingByIdStrict(s: seq<Student>)
    requires Descending(s, ById) && DistinctIds(s)
    ensures forall i, j :: 0 <= i < j < |s| ==> s[i].id > s[j].id
  {
    forall i, j | 0 <= i < j < |s| ensures s[i].id > s[j].id {
      assert Le(ById, s[j], s[i]);
    }
  }

  /** An exchange of two entries of the prefix `a[..n]`. */
  method Swap(a: array<Student>, n: nat, i: nat, j: nat)
    requires i < n && j < n && n <= a.Length
    modifies a
    ensures a[..] == old(a[..])[i := old(a[j])][j := old(a[i])]
    ensures multiset(a[..n]) == multiset(old(a[..n]))
  {
    ghost var before := a[..n];
    a[i], a[j] := a[j], a[i];
    assert a[..n] == before[i := before[j]][j := before[i]];
  }

  /**
   * The library `qsort` on the prefix `a[..n]` with the key's comparator, as a
   * selection sort: the result is ascending and a permutation, and the rest
   * of the array is untouched.
   */
  method SortPrefix(a: array<Student>, n: nat, key: SortKey)
    requires n <= a.Length
    modifies a
    ensures Ascending(a[..n], key)
    ensures multiset(a[..n]) == multiset(old(a[..n]))
    ensures a[n..] == old(a[n..])
  {
    var i := 0;
    while i < n
      invariant i <= n
      invariant forall p, q :: 0 <= p < q < n && p < i ==> Le(key, a[p], a[q])
      invariant multiset(a[..n]) == multiset(old(a[..n]))
      invariant a[n..] == old(a[n..])
    {
      var m := i;
      var j := i + 1;
      while j < n
        invariant i <= m < n && i < j <= n
        invariant forall t :: i <= t < j ==> Le(key, a[m], a[t])
      {
        if Cmp(key, a[j], a[m]) < 0 {
          m := j;
        }
        j := j + 1;
      }
      Swap(a, n, i, m);
      i := i + 1;
    }
  }

  /** `s` after the first `i` exchanges of the reversal of `s[..n]`: both ends of the prefix are swapped, the middle and the rest are not. */
  function HalfReversed(s: seq<Student>, n: nat, i: nat): (r: seq<Student>)
    requires n <= |s|
    ensures |r| == |s|
    ensures forall k :: 0 <= k < |s| ==>
      r[k] == if k < n && (k < i || n - 1 - i < k) then s[n - 1 - k] else s[k]
  {
    seq(|s|, k requires 0 <= k < |s| => if k < n && (k < i || n - 1 - i < k) then s[n - 1 - k] else s[k])
  }

  /** One more exchange. */
  lemma HalfReversedStep(s: seq<Student>, n: nat, i: nat)
    requires n <= |s| && i < n - 1 - i
    ensures var r := HalfReversed(s, n, i);
      r[i := r[n - 1 - i]][n - 1 - i := r[i]] == HalfReversed(s, n, i + 1)
  {
    var r := HalfReversed(s, n, i);
    var t := r[i := r[n - 1 - i]][n - 1 - i := r[i]];
    var u := HalfReversed(s, n, i + 1);
    forall k | 0 <= k < |s| ensures t[k] == u[k] {
    }
  }

  /** Once the two indices meet, the prefix is reversed and the rest untouched. */
  lemma HalfReversedDone(s: seq<Student>, n: nat, i: nat)
    requires 1 <= n <= |s| && n - 1 - i <= i
    ensures HalfReversed(s, n, i)[..n] == Reversed(s[..n])
    ensures HalfReversed(s, n, i)[n..] == s[n..]
  {
    var r := HalfReversed(s, n, i);
    assert forall k :: 0 <= k < |s| - n ==> r[n..][k] == r[n + k];
  }

  /** The two-index reversal loop of `store_sort` on `a[..n]`, for a non-empty prefix. */
  method ReversePrefix(a: array<Student>, n: nat)
    requires 1 <= n <= a.Length
    modifies a
    ensures a[..n] == Reversed(old(a[..n]))
    ensures a[n..] == old(a[n..])
  {
    ghost var orig := a[..];
    var i: nat, j: nat := 0, n - 1;
    while i < j
      invariant i + j == n - 1 && i <= j + 1
      invariant a[..] == HalfReversed(orig, n, i)
    {
      HalfReversedStep(orig, n, i);
      a[i], a[j] := a[j], a[i];
      i, j := i + 1, j - 1;
    }
    HalfReversedDone(orig, n, i);
  }

  /**
   * `store_sort`: with at most one record nothing is touched; otherwise the
   * records are rearranged into ascending order by the key, or descending
   * order when `asc` is false.
   */
  method StoreSort(s: Store, key: SortKey, asc: bool)
    requires s.Valid()
    modifies s.data
    ensures s.Valid()
    ensures multiset(s.Records()) == multiset(old(s.Records()))
    ensures asc ==> Ascending(s.Records(), key)
    ensures !asc ==> Descending(s.Records(), key)
    ensures old(s.size) <= 1 ==> s.Records() == old(s.Records())
  {
    if s.size <= 1 {
      return;
    }
    SortPrefix(s.data, s.size, key);
    if !asc {
      ghost var sorted := s.data[..s.size];
      ReversePrefix(s.data, s.size);
      ReversedAscending(sorted, key);
      ReversedMultiset(sorted);
    }
  }
}
