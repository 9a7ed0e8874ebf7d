/**
 * The record store of src/store.c: a growable array of student records with
 * a size and a capacity, a linear lookup by id, a validated insert, a
 * sentinel-patch update and a swap-with-last delete.
 */
module RecordStore {
  import opened Wrappers
  import opened Util
  import opened Students

  /** START_CAP: the capacity of the first allocation. */
  const StartCap: nat := 16

  // ---------------------------------------------------------------------
  // Capacity growth (ensure_cap)
  // ---------------------------------------------------------------------

  /** `c` doubled until it reaches `need`. */
  function DoubleUntil(c: nat, need: nat): (r: nat)
    requires c > 0
    ensures r >= need && r >= c
    decreases need - c
  {
    if c >= need then c else DoubleUntil(2 * c, need)
  }

  /** The capacity `ensure_cap` leaves when it was `cap` and `need` records must fit. */
  function GrownCap(cap: nat, need: nat): nat {
    if cap >= need then cap else DoubleUntil(if cap == 0 then StartCap else cap, need)
  }

  /** A capacity the store can have: 0 before the first allocation, START_CAP times a power of two after it. */
  predicate CapShape(c: nat)
    decreases c
  {
    c == 0 || c == StartCap || (c > StartCap && c % 2 == 0 && CapShape(c / 2))
  }

  lemma {:induction false} DoubleUntilShape(c: nat, need: nat)
    requires c > 0 && CapShape(c)
    ensures CapShape(DoubleUntil(c, need))
    decreases need - c
  {
    if c < need {
      assert (2 * c) / 2 == c;
      DoubleUntilShape(2 * c, need);
    }
  }

  /** Growing keeps a capacity of the shape above. */
  lemma GrownCapShape(cap: nat, need: nat)
    requires CapShape(cap)
    ensures CapShape(GrownCap(cap, need))
  {
    if cap < need {
      DoubleUntilShape(if cap == 0 then StartCap else cap, need);
    }
  }

  lemma {:induction false} CapShapeAtLeastStart(c: nat)
    requires CapShape(c) && c != 0
    ensures c >= StartCap
  {
  }

  /** Once grown, the capacity is below twice what was needed: doubling stops at the first sufficient value. */
  lemma {:induction false} DoubleUntilTight(c: nat, need: nat)
    requires c > 0
    ensures DoubleUntil(c, need) == c || DoubleUntil(c, need) < 2 * need
    decreases need - c
  {
    if c < need {
      DoubleUntilTight(2 * c, need);
    }
  }

  /**
   * What ensure_cap promises: room for `need` records; no change when there
   * already was room; otherwise max(cap, START_CAP) doubled until it suffices,
   * which overshoots `need` by less than a factor of two unless START_CAP alone
   * suffices.
   */
  lemma GrownCapProperties(cap: nat, need: nat)
    requires CapShape(cap)
    ensures GrownCap(cap, need) >= need
    ensures cap >= need ==> GrownCap(cap, need) == cap
    ensures cap < need ==> GrownCap(cap, need) == DoubleUntil(if cap < StartCap then StartCap else cap, need)
    ensures cap < need ==> GrownCap(cap, need) == StartCap || GrownCap(cap, need) < 2 * need
  {
    if cap != 0 {
      CapShapeAtLeastStart(cap);
    }
    if cap < need {
      DoubleUntilTight(if cap == 0 then StartCap else cap, need);
    }
  }

  // ---------------------------------------------------------------------
  // store_update on values
  // ---------------------------------------------------------------------

  /** Whether `store_update` completed, and the record as it stands afterwards. */
  datatype Patched = Patched(ok: bool, rec: Student)

  /** `patch->id` asks for a re-key: it is positive and differs from the target id. */
  predicate Rekeys(id: int, patch: Student) {
    patch.id > 0 && patch.id != id
  }

  /** The id step of `store_update`: a re-key needs a valid id that no record holds. */
  function PatchId(recs: seq<Student>, cur: Student, id: int, patch: Student): Patched {
    if !Rekeys(id, patch) then Patched(true, cur)
    else if !ValidId(patch.id) || IndexOf(recs, patch.id) != -1 then Patched(false, cur)
    else Patched(true, cur.(id := patch.id))
  }

  /** The name step: a non-empty name must pass `valid_text`; nothing happens after an earlier failure. */
  function PatchName(p: Patched, patch: Student): Patched {
    if !p.ok || patch.name == [] then p
    else if !ValidText(Some(patch.name)) then Patched(false, p.rec)
    else Patched(true, p.rec.(name := patch.name))
  }

  /** The programme step, as the name step. */
  function PatchProgramme(p: Patched, patch: Student): Patched {
    if !p.ok || patch.programme == [] then p
    else if !ValidText(Some(patch.programme)) then Patched(false, p.rec)
    else Patched(true, p.rec.(programme := patch.programme))
  }

  /** The mark step: a non-negative mark must pass `valid_mark`. */
  function PatchMark(p: Patched, patch: Student): Patched {
    if !p.ok || patch.mark < 0.0 then p
    else if !ValidMark(patch.mark) then Patched(false, p.rec)
    else Patched(true, p.rec.(mark := patch.mark))
  }

  /**
   * The effect of `store_update(s, id, patch)` on the record `cur` found for
   * `id` in `recs`. The fields are checked and written in source order, and a
   * failed check stops the update with the earlier writes kept.
   * A patch field is a sentinel when it is not positive or equal to the target
   * (id), empty (name, programme) or negative (mark).
   */
  function ApplyPatch(recs: seq<Student>, cur: Student, id: int, patch: Student): (r: Patched)
    ensures r.ok ==> (Rekeys(id, patch) ==> r.rec.id == patch.id) && (patch.name != [] ==> r.rec.name == patch.name)
    ensures r.ok ==> (patch.programme != [] ==> r.rec.programme == patch.programme) && (patch.mark >= 0.0 ==> r.rec.mark == patch.mark)
  {
    PatchMark(PatchProgramme(PatchName(PatchId(recs, cur, id, patch), patch), patch), patch)
  }

  /** The update succeeds exactly when every non-sentinel field passes its check and a new id is free. */
  lemma ApplyPatchOk(recs: seq<Student>, cur: Student, id: int, patch: Student)
    ensures ApplyPatch(recs, cur, id, patch).ok <==>
      (Rekeys(id, patch) ==> ValidId(patch.id) && !HasId(recs, patch.id)) &&
      (patch.name != [] ==> ValidText(Some(patch.name))) &&
      (patch.programme != [] ==> ValidText(Some(patch.programme))) &&
      (patch.mark >= 0.0 ==> ValidMark(patch.mark))
  {
    IndexOfAbsent(recs, patch.id);
  }

  /** Sentinel fields leave the record's field as it was, whether or not the update succeeds. */
  lemma ApplyPatchSentinels(recs: seq<Student>, cur: Student, id: int, patch: Student)
    ensures var r := ApplyPatch(recs, cur, id, patch);
      (!Rekeys(id, patch) ==> r.rec.id == cur.id) &&
      (patch.name == [] ==> r.rec.name == cur.name) &&
      (patch.programme == [] ==> r.rec.programme == cur.programme) &&
      (patch.mark < 0.0 ==> r.rec.mark == cur.mark)
  {
  }

  /** Every field that changes takes the patch's value, and that value passed its check; a new id was free. */
  lemma ApplyPatchWritesChecked(recs: seq<Student>, cur: Student, id: int, patch: Student)
    ensures var r := ApplyPatch(recs, cur, id, patch);
      (r.rec.id != cur.id ==> r.rec.id == patch.id && ValidId(patch.id) && !HasId(recs, patch.id)) &&
      (r.rec.name != cur.name ==> r.rec.name == patch.name && ValidText(Some(patch.name))) &&
      (r.rec.programme != cur.programme ==> r.rec.programme == patch.programme && ValidText(Some(patch.programme))) &&
      (r.rec.mark != cur.mark ==> r.rec.mark == patch.mark && ValidMark(patch.mark))
  {
    IndexOfAbsent(recs, patch.id);
  }

  /** store_update is not atomic: a mark above 100 fails after the name was already written. */
  lemma UpdateNotAtomic()
    ensures var cur := Student(100001, "Ann", "CS", 70.0);
      var patch := Student(-1, "Bea", "", 150.0);
      var r := ApplyPatch([cur], cur, 100001, patch);
      !r.ok && r.rec == Student(100001, "Bea", "CS", 70.0)
  {
  }

  /** Writing a patched record into a well-formed store keeps it well formed, whether or not the update succeeded. */
  lemma ApplyPatchPreservesWellFormed(recs: seq<Student>, id: int, patch: Student)
    requires WellFormed(recs) && IndexOf(recs, id) >= 0
    ensures var k := IndexOf(recs, id);
      WellFormed(recs[k := ApplyPatch(recs, recs[k], id, patch).rec])
  {
    var k := IndexOf(recs, id);
    var cur := recs[k];
    var r := ApplyPatch(recs, cur, id, patch);
    ApplyPatchWritesChecked(recs, cur, id, patch);
    var recs' := recs[k := r.rec];
    assert ValidStudent(r.rec);
    forall i, j | 0 <= i < j < |recs'| ensures recs'[i].id != recs'[j].id {
      if i == k && r.rec.id != cur.id {
        assert recs[j].id == recs'[j].id;
      } else if j == k && r.rec.id != cur.id {
        assert recs[i].id == recs'[i].id;
      }
    }
  }

  // ---------------------------------------------------------------------
  // store_delete on values
  // ---------------------------------------------------------------------

  /** The records after the one at `k` is overwritten by the last and the size drops by one. */
  function SwapRemove(recs: seq<Student>, k: nat): (r: seq<Student>)
    requires k < |recs|
    ensures |r| == |recs| - 1
    ensures k < |r| ==> r[k] == recs[|recs| - 1]
    ensures forall i :: 0 <= i < |r| && i != k ==> r[i] == recs[i]
  {
    recs[k := recs[|recs| - 1]][..|recs| - 1]
  }

  /** The records kept by SwapRemove are the old ones less the removed one. */
  lemma SwapRemoveMultiset(recs: seq<Student>, k: nat)
    requires k < |recs|
    ensures multiset(SwapRemove(recs, k)) == multiset(recs) - multiset{recs[k]}
  {
    if k == |recs| - 1 {
      assert recs == SwapRemove(recs, k) + [recs[k]];
    } else {
      SwapRemoveInnerMultiset(recs, k);
    }
  }

  /** SwapRemoveMultiset away from the end. */
  lemma SwapRemoveInnerMultiset(recs: seq<Student>, k: nat)
    requires k < |recs| - 1
    ensures multiset(SwapRemove(recs, k)) == multiset(recs) - multiset{recs[k]}
  {
    var n := |recs| - 1;
    var a, b := recs[..k], recs[k + 1..n];
    assert recs == a + [recs[k]] + b + [recs[n]] by {
      assert recs == recs[..k] + [recs[k]] + recs[k + 1..];
      assert recs[k + 1..] == b + [recs[n]];
    }
    SwapRemoveShape(recs, k);
    MultisetSwapOut(a, b, recs[k], recs[n]);
  }

  /** Away from the end, SwapRemove puts the last record in place of the removed one. */
  lemma SwapRemoveShape(recs: seq<Student>, k: nat)
    requires k < |recs| - 1
    ensures SwapRemove(recs, k) == recs[..k] + [recs[|recs| - 1]] + recs[k + 1..|recs| - 1]
  {
  }

  /** Moving the last element into the place of `x` removes one `x`. */
  lemma MultisetSwapOut(a: seq<Student>, b: seq<Student>, x: Student, y: Student)
    ensures multiset(a + [y] + b) == multiset(a + [x] + b + [y]) - multiset{x}
  {
  }

  /** Deleting keeps the store well formed, and the id is no longer found. */
  lemma SwapRemovePreservesWellFormed(recs: seq<Student>, k: nat)
    requires WellFormed(recs) && k < |recs|
    ensures WellFormed(SwapRemove(recs, k))
    ensures IndexOf(SwapRemove(recs, k), recs[k].id) == -1
  {
    var r := SwapRemove(recs, k);
    var n := |recs| - 1;
    forall i, j | 0 <= i < j < |r| ensures r[i].id != r[j].id {
      if i == k {
        assert r[j] == recs[j] && r[i] == recs[n];
      } else if j == k {
        assert r[i] == recs[i] && r[j] == recs[n];
      }
    }
    forall i | 0 <= i < |r| ensures r[i].id != recs[k].id {
      if i == k {
        assert r[i] == recs[n];
      }
    }
    IndexOfAbsent(r, recs[k].id);
  }

  /** Inserting a valid record with a fresh id keeps the store well formed, and the record is then found at the end. */
  lemma AppendPreservesWellFormed(recs: seq<Student>, st: Student)
    requires WellFormed(recs) && ValidStudent(st) && !HasId(recs, st.id)
    ensures WellFormed(recs + [st])
    ensures IndexOf(recs + [st], st.id) == |recs|
  {
    var r := recs + [st];
    forall i, j | 0 <= i < j < |r| ensures r[i].id != r[j].id {
      if j == |recs| {
        assert r[i] == recs[i];
      }
    }
    IndexOfDistinct(r, |recs|);
  }

  // ---------------------------------------------------------------------
  // The store
  // ---------------------------------------------------------------------

  /** `Store`: `data[0..size)` holds the records and `cap` is the allocated length of `data`. */
  class Store {
    var data: array<Student>
    var size: nat
    var cap: nat

    predicate Valid()
      reads this
    {
      data.Length == cap && size <= cap && CapShape(cap)
    }

    /** The stored records, in array order. */
    function Records(): seq<Student>
      reads this, data
      requires Valid()
    {
      data[..size]
    }

    /** `store_init`: an empty store with no allocation. */
    constructor ()
      ensures Valid() && size == 0 && cap == 0 && Records() == []
    {
      data := new Student[0];
      size := 0;
      cap := 0;
    }

    /** `store_free`: the allocation is dropped and the store is empty again. */
    method Reset()
      modifies this
      ensures Valid() && size == 0 && cap == 0 && Records() == [] && fresh(data)
    {
      data := new Student[0];
      size := 0;
      cap := 0;
    }

    /** `ensure_cap`: room for `need` records, growing the allocation by doubling. realloc is taken to succeed. */
    method EnsureCap(need: nat)
      requires Valid()
      modifies this
      ensures Valid()
      ensures cap == GrownCap(old(cap), need) && cap >= need
      ensures size == old(size) && Records() == old(Records())
      ensures old(cap) >= need ==> data == old(data)
      ensures old(cap) < need ==> fresh(data)
    {
      if cap >= need {
        return;
      }
      var newCap := if cap != 0 then cap else StartCap;
      while newCap < need
        invariant newCap > 0
        invariant DoubleUntil(newCap, need) == GrownCap(cap, need)
        decreases need - newCap
      {
        newCap := newCap * 2;
      }
      GrownCapShape(cap, need);
      var a := new Student[newCap];
      forall i | 0 <= i < size {
        a[i] := data[i];
      }
      data := a;
      cap := newCap;
    }

    /** `store_find_index_by_id`: the first index holding `id`, or -1. */
    method FindIndexById(id: int) returns (idx: int)
      requires Valid()
      ensures idx == IndexOf(Records(), id)
    {
      var i := 0;
      while i < size
        invariant i <= size
        invariant forall j :: 0 <= j < i ==> data[j].id != id
      {
        if data[i].id == id {
          IndexOfFirst(Records(), id, i);
          return i;
        }
        i := i + 1;
      }
      IndexOfAbsent(Records(), id);
      idx := -1;
    }

    /**
     * `store_insert`: a record that passes the validators and whose id is not
     * yet stored goes at the end; otherwise nothing changes.
     */
    method Insert(st: Student) returns (ok: bool)
      requires Valid()
      modifies this, data
      ensures Valid()
      ensures ok <==> ValidStudent(st) && !HasId(old(Records()), st.id)
      ensures ok ==> size == old(size) + 1 && Records() == old(Records()) + [st]
      ensures !ok ==> unchanged(this) && unchanged(data)
      ensures data == old(data) || fresh(data)
    {
      if !ValidId(st.id) || !ValidMark(st.mark) || !ValidText(Some(st.name)) || !ValidText(Some(st.programme)) {
        return false;
      }
      var k := FindIndexById(st.id);
      IndexOfAbsent(Records(), st.id);
      if k != -1 {
        return false;
      }
      EnsureCap(size + 1);
      data[size] := st;
      size := size + 1;
      ok := true;
    }

    /**
     * `store_update`: the record holding `id` is patched field by field;
     * false when `id` is not stored or a field fails its check, which may
     * come after earlier fields were written.
     */
    method Update(id: int, patch: Student) returns (ok: bool)
      requires Valid()
      modifies data
      ensures Valid()
      ensures var k := IndexOf(old(Records()), id);
        if k == -1 then !ok && Records() == old(Records())
        else
          var r := ApplyPatch(old(Records()), old(Records())[k], id, patch);
          ok == r.ok && Records() == old(Records())[k := r.rec]
    {
      ghost var recs := Records();
      var idx := FindIndexById(id);
      if idx < 0 {
        return false;
      }
      var cur;
      ok, cur := PatchIdStep(idx, id, patch);
      if !ok {
        assert ApplyPatch(recs, recs[idx], id, patch) == PatchId(recs, recs[idx], id, patch);
        return false;
      }
      ok := PatchFields(idx, cur, patch);
      assert Records() == recs[idx := ApplyPatch(recs, recs[idx], id, patch).rec];
    }

    /** The id step of `store_update` on the record at `idx`: a re-key is refused or written. */
    method PatchIdStep(idx: nat, id: int, patch: Student) returns (ok: bool, cur: Student)
      requires Valid() && idx < size
      modifies data
      ensures Valid()
      ensures var p := PatchId(old(Records()), old(Records())[idx], id, patch);
        ok == p.ok && cur == p.rec && Records() == if ok then old(Records())[idx := cur] else old(Records())
      ensures ok ==> data[idx] == cur
    {
      ghost var recs := Records();
      cur := data[idx];
      ok := true;
      if patch.id > 0 && patch.id != id {
        if !ValidId(patch.id) {
          return false, cur;
        }
        var other := FindIndexById(patch.id);
        if other != -1 {
          return false, cur;
        }
        cur := cur.(id := patch.id);
        SetRecord(idx, cur);
      } else {
        assert recs[idx := cur] == recs;
      }
    }

    /** The name, programme and mark steps of `store_update` on the record `cur` at `idx`. */
    method PatchFields(idx: nat, cur: Student, patch: Student) returns (ok: bool)
      requires Valid() && idx < size && data[idx] == cur
      modifies data
      ensures Valid()
      ensures var r := PatchMark(PatchProgramme(PatchName(Patched(true, cur), patch), patch), patch);
        ok == r.ok && Records() == old(Records())[idx := r.rec]
    {
      ghost var recs := Records();
      var c := cur;
      assert Records() == recs[idx := c];
      ghost var p := PatchName(Patched(true, cur), patch);
      if patch.name != [] {
        if !ValidText(Some(patch.name)) {
          return false;
        }
        c := c.(name := patch.name);
        SetRecord(idx, c);
      }
      assert p.ok && c == p.rec && Records() == recs[idx := c];
      p := PatchProgramme(p, patch);
      if patch.programme != [] {
        if !ValidText(Some(patch.programme)) {
          return false;
        }
        c := c.(programme := patch.programme);
        SetRecord(idx, c);
      }
      assert p.ok && c == p.rec && Records() == recs[idx := c];
      p := PatchMark(p, patch);
      if patch.mark >= 0.0 {
        if !ValidMark(patch.mark) {
          return false;
        }
        c := c.(mark := patch.mark);
        SetRecord(idx, c);
      }
      ok := true;
    }

    /** A write through `cur`: the record at `idx` is replaced. */
    method SetRecord(idx: nat, rec: Student)
      requires Valid() && idx < size
      modifies data
      ensures Valid() && Records() == old(Records())[idx := rec]
    {
      data[idx] := rec;
      assert Records() == old(Records())[idx := rec];
    }

    /** `store_delete`: the record holding `id` is overwritten by the last record and the size drops by one. */
    method Delete(id: int) returns (ok: bool)
      requires Valid()
      modifies this, data
      ensures Valid() && data == old(data) && cap == old(cap)
      ensures var k := IndexOf(old(Records()), id);
        if k == -1 then !ok && Records() == old(Records()) && size == old(size)
        else ok && size == old(size) - 1 && Records() == SwapRemove(old(Records()), k)
    {
      ghost var recs := Records();
      var idx := FindIndexById(id);
      if idx < 0 {
        return false;
      }
      data[idx] := data[size - 1];
      size := size - 1;
      assert Records() == SwapRemove(recs, idx);
      ok := true;
    }
  }

  /** A record holding `id` at `i`, with none before it, is what IndexOf finds. */
  lemma IndexOfFirst(recs: seq<Student>, id: int, i: nat)
    requires i < |recs| && recs[i].id == id
    requires forall j :: 0 <= j < i ==> recs[j].id != id
    ensures IndexOf(recs, id) == i
  {
  }
}
