/**
 * A student record (include/student.h) and the invariant the record store
 * keeps over its records: every record passes the validators of src/util.c
 * and no two records share an id.
 */
module Students {
  import opened Wrappers
  import opened Util

  /** A student record. The C `float` mark is a real number here. */
  datatype Student = Student(id: int, name: string, programme: string, mark: real)

  /** The four checks `store_insert` makes before storing a record. */
  predicate ValidStudent(st: Student) {
    ValidId(st.id) && ValidMark(st.mark) && ValidText(Some(st.name)) && ValidText(Some(st.programme))
  }

  predicate AllValid(recs: seq<Student>) {
    forall i :: 0 <= i < |recs| ==> ValidStudent(recs[i])
  }

  predicate DistinctIds(recs: seq<Student>) {
    forall i, j :: 0 <= i < j < |recs| ==> recs[i].id != recs[j].id
  }

  /** The record store's invariant. */
  predicate WellFormed(recs: seq<Student>) {
    AllValid(recs) && DistinctIds(recs)
  }

  predicate HasId(recs: seq<Student>, id: int) {
    exists i :: 0 <= i < |recs| && recs[i].id == id
  }

  /** The first index whose record carries `id`, or -1 when none does. */
  function IndexOf(recs: seq<Student>, id: int): (k: int)
    ensures -1 <= k < |recs|
    ensures k >= 0 ==> recs[k].id == id
    ensures forall j :: 0 <= j < |recs| && (k == -1 || j < k) ==> recs[j].id != id
  {
    if |recs| == 0 then -1
    else if recs[0].id == id then 0
    else
      var k := IndexOf(recs[1..], id);
      if k == -1 then -1 else k + 1
  }

  /** IndexOf reports -1 exactly when no record carries the id. */
  lemma IndexOfAbsent(recs: seq<Student>, id: int)
    ensures IndexOf(recs, id) == -1 <==> !HasId(recs, id)
  {
  }

  /** With distinct ids, the record at any index is found at that index. */
  lemma IndexOfDistinct(recs: seq<Student>, k: nat)
    requires DistinctIds(recs) && k < |recs|
    ensures IndexOf(recs, recs[k].id) == k
  {
  }

  /** Two arrangements of the same records have the same ids. */
  lemma PermutationKeepsIds(a: seq<Student>, b: seq<Student>, id: int)
    requires multiset(a) == multiset(b)
    ensures HasId(a, id) <==> HasId(b, id)
  {
    if HasId(a, id) {
      var i :| 0 <= i < |a| && a[i].id == id;
      assert a[i] in multiset(b);
    }
    if HasId(b, id) {
      var i :| 0 <= i < |b| && b[i].id == id;
      assert b[i] in multiset(a);
    }
  }

  /** The number of records satisfying `hit`. */
  function CountWhere(recs: seq<Student>, hit: Student -> bool): (n: nat)
    ensures n <= |recs|
    ensures n == 0 <==> forall i :: 0 <= i < |recs| ==> !hit(recs[i])
  {
    if recs == [] then 0
    else
      var init := recs[..|recs| - 1];
      assert forall i :: 0 <= i < |init| ==> init[i] == recs[i];
      CountWhere(init, hit) + (if hit(recs[|recs| - 1]) then 1 else 0)
  }

  /** The indices of the records satisfying `hit`. */
  function Where(recs: seq<Student>, hit: Student -> bool): set<nat> {
    set i: nat | i < |recs| && hit(recs[i])
  }

  /** The count is the number of indices satisfying `hit`. */
  lemma {:induction false} CountWhereIsCard(recs: seq<Student>, hit: Student -> bool)
    ensures CountWhere(recs, hit) == |Where(recs, hit)|
    decreases |recs|
  {
    if recs != [] {
      var init := recs[..|recs| - 1];
      var n := |recs| - 1;
      CountWhereIsCard(init, hit);
      var a := Where(init, hit);
      var b := Where(recs, hit);
      if hit(recs[n]) {
        assert b == a + {n};
        assert n !in a;
      } else {
        assert b == a;
      }
    }
  }

  lemma {:induction false} CountWhereAppend(a: seq<Student>, b: seq<Student>, hit: Student -> bool)
    ensures CountWhere(a + b, hit) == CountWhere(a, hit) + CountWhere(b, hit)
    decreases |b|
  {
    if b == [] {
      assert a + b == a;
    } else {
      assert (a + b)[..|a + b| - 1] == a + b[..|b| - 1];
      CountWhereAppend(a, b[..|b| - 1], hit);
    }
  }

  /** A sequence is what comes before `k`, the entry at `k`, and what comes after. */
  lemma SplitAt(b: seq<Student>, k: nat)
    requires k < |b|
    ensures b == b[..k] + [b[k]] + b[k + 1..]
  {
  }

  lemma CountWhereSingle(x: Student, hit: Student -> bool)
    ensures CountWhere([x], hit) == if hit(x) then 1 else 0
  {
    assert [x][..0] == [];
  }

  /** Taking out the record at `k` takes out its share of the count. */
  lemma CountWhereRemove(b: seq<Student>, k: nat, hit: Student -> bool)
    requires k < |b|
    ensures CountWhere(b, hit) == CountWhere(b[..k] + b[k + 1..], hit) + (if hit(b[k]) then 1 else 0)
  {
    var u, x, v := b[..k], b[k], b[k + 1..];
    SplitAt(b, k);
    CountWhereAppend(u + [x], v, hit);
    CountWhereAppend(u, [x], hit);
    CountWhereAppend(u, v, hit);
    CountWhereSingle(x, hit);
  }

  /** Taking the last record off one arrangement and a copy of it off another leaves two arrangements of the same records. */
  lemma RemoveMatching(a: seq<Student>, b: seq<Student>) returns (k: nat)
    requires multiset(a) == multiset(b) && a != []
    ensures k < |b| && b[k] == a[|a| - 1]
    ensures multiset(a[..|a| - 1]) == multiset(b[..k] + b[k + 1..])
  {
    var n := |a| - 1;
    assert a[n] in multiset(b);
    k :| 0 <= k < |b| && b[k] == a[n];
    MultisetRemove(b, k);
    MultisetRemove(a, n);
    assert a[..n] + a[n + 1..] == a[..n];
  }

  /** Taking out the record at `k` takes one copy of it out of the multiset. */
  lemma MultisetRemove(b: seq<Student>, k: nat)
    requires k < |b|
    ensures multiset(b[..k] + b[k + 1..]) == multiset(b) - multiset{b[k]}
  {
    SplitAt(b, k);
    assert multiset(b) == multiset(b[..k]) + multiset([b[k]]) + multiset(b[k + 1..]);
  }

  /** The count depends only on the multiset of records, not on their order. */
  lemma {:induction false} CountWhereMultiset(a: seq<Student>, b: seq<Student>, hit: Student -> bool)
    requires multiset(a) == multiset(b)
    ensures CountWhere(a, hit) == CountWhere(b, hit)
    decreases |a|
  {
    if a != [] {
      var k := RemoveMatching(a, b);
      CountWhereMultiset(a[..|a| - 1], b[..k] + b[k + 1..], hit);
      CountWhereRemove(b, k, hit);
    }
  }

  /** The test "carries `id`". */
  function IdIs(id: int): Student -> bool {
    (st: Student) => st.id == id
  }

  /** The number of records carrying `id`. */
  function CountId(recs: seq<Student>, id: int): (n: nat)
    ensures n <= |recs|
    ensures n == 0 <==> !HasId(recs, id)
  {
    CountWhere(recs, IdIs(id))
  }

  /** Distinct ids means every id is carried at most once. */
  lemma {:induction false} DistinctIdsCount(recs: seq<Student>)
    ensures DistinctIds(recs) <==> forall id :: CountId(recs, id) <= 1
    decreases |recs|
  {
    if recs != [] {
      var init := recs[..|recs| - 1];
      var last := recs[|recs| - 1];
      DistinctIdsCount(init);
      if DistinctIds(recs) {
        assert DistinctIds(init);
        assert !HasId(init, last.id);
        forall id ensures CountId(recs, id) <= 1 {
          assert CountId(recs, id) == CountId(init, id) + (if last.id == id then 1 else 0);
          assert CountId(init, id) <= 1;
          if id == last.id {
            assert CountId(init, id) == 0;
          }
        }
      } else {
        var i, j :| 0 <= i < j < |recs| && recs[i].id == recs[j].id;
        var id := recs[i].id;
        if j < |recs| - 1 {
          assert !DistinctIds(init) by {
            assert init[i].id == init[j].id;
          }
          var id' :| CountId(init, id') > 1;
          assert CountId(recs, id') == CountId(init, id') + (if last.id == id' then 1 else 0);
        } else {
          assert init[i].id == id;
          assert CountId(recs, id) == CountId(init, id) + 1;
        }
      }
    }
  }

  /** Rearranging the records keeps the store's invariant. */
  lemma PermutationPreservesWellFormed(a: seq<Student>, b: seq<Student>)
    requires WellFormed(a) && multiset(a) == multiset(b)
    ensures WellFormed(b)
  {
    forall i | 0 <= i < |b| ensures ValidStudent(b[i]) {
      assert b[i] in multiset(a);
    }
    DistinctIdsCount(a);
    forall id ensures CountId(b, id) <= 1 {
      CountWhereMultiset(a, b, IdIs(id));
      assert CountId(a, id) == CountWhere(a, IdIs(id)) && CountId(b, id) == CountWhere(b, IdIs(id));
      assert CountId(a, id) <= 1;
    }
    DistinctIdsCount(b);
  }
}
