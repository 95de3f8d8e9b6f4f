/** Sorted lists of disjoint address intervals and the address map they stand for. */
module Regions {

  /** VM_READ, VM_WRITE, VM_EXEC, VM_ZERO, VM_SHARED, VM_GROWSDOWN, VM_DONTEXPAND. */
  datatype Flags = Flags(r: bool, w: bool, x: bool, zero: bool, shared: bool, down: bool, dontExpand: bool)

  /** An interval of addresses; end is its last address. */
  datatype Region = Region(start: nat, end: nat, flags: Flags) {
    function Size(): int { end - start + 1 }
    predicate Has(a: int) { start <= a <= end }
  }

  /** In ascending order, disjoint, not empty, within the limit. */
  ghost predicate Sorted(rs: seq<Region>, limit: nat) {
    && (forall i: nat {:trigger Sane(rs, i, limit)} :: i < |rs| ==> Sane(rs, i, limit))
    && (forall i: nat, j: nat {:trigger Apart(rs, i, j)} :: i < j < |rs| ==> Apart(rs, i, j))
  }

  ghost predicate Sane(rs: seq<Region>, i: nat, limit: nat)
    requires i < |rs|
  {
    rs[i].start <= rs[i].end <= limit
  }

  ghost predicate Apart(rs: seq<Region>, i: nat, j: nat)
    requires i < j < |rs|
  {
    rs[i].end < rs[j].start
  }

  /** Address a is mapped with flags f. */
  ghost predicate Maps(rs: seq<Region>, a: int, f: Flags) {
    exists i :: 0 <= i < |rs| && rs[i].Has(a) && rs[i].flags == f
  }

  ghost predicate Mapped(rs: seq<Region>, a: int) {
    exists i :: 0 <= i < |rs| && rs[i].Has(a)
  }

  /** No address of [a, a + n) is mapped. */
  ghost predicate FreeRange(rs: seq<Region>, a: int, n: int) {
    forall x :: a <= x < a + n ==> !Mapped(rs, x)
  }

  /** [a, a + n) is free and within the limit: a region of n addresses could go there. */
  ghost predicate Fits(rs: seq<Region>, limit: nat, a: int, n: int) {
    0 <= a && a + n <= limit + 1 && FreeRange(rs, a, n)
  }

  /** The address map is a function: an address has one set of flags. */
  lemma MapsUnique(rs: seq<Region>, limit: nat, a: int, f: Flags, g: Flags)
    requires Sorted(rs, limit) && Maps(rs, a, f) && Maps(rs, a, g)
    ensures f == g
  {
    var i :| 0 <= i < |rs| && rs[i].Has(a) && rs[i].flags == f;
    var j :| 0 <= j < |rs| && rs[j].Has(a) && rs[j].flags == g;
    if i != j {
      DistinctHas(rs, limit, i, j, a);
    }
  }

  lemma DistinctHas(rs: seq<Region>, limit: nat, k: nat, j: nat, a: int)
    requires Sorted(rs, limit) && k < |rs| && j < |rs| && j != k && rs[j].Has(a)
    ensures !rs[k].Has(a)
  {
    if j < k {
      assert Apart(rs, j, k);
    } else {
      assert Apart(rs, k, j);
    }
  }

  // ---- Changing the list ----

  function Removed<T>(rs: seq<T>, k: nat): seq<T>
    requires k < |rs|
  {
    seq(|rs| - 1, i requires 0 <= i < |rs| - 1 => if i < k then rs[i] else rs[i + 1])
  }

  function Inserted<T>(rs: seq<T>, k: nat, r: T): seq<T>
    requires k <= |rs|
  {
    seq(|rs| + 1, i requires 0 <= i <= |rs| => if i < k then rs[i] else if i == k then r else rs[i - 1])
  }

  lemma RemovedAt<T>(rs: seq<T>, k: nat, i: nat)
    requires k < |rs| && i < |rs| - 1
    ensures |Removed(rs, k)| == |rs| - 1
    ensures Removed(rs, k)[i] == rs[if i < k then i else i + 1]
  {
  }

  lemma RemovedSorted(rs: seq<Region>, limit: nat, k: nat)
    requires Sorted(rs, limit) && k < |rs|
    ensures Sorted(Removed(rs, k), limit)
  {
    var rs' := Removed(rs, k);
    forall i: nat | i < |rs'| ensures Sane(rs', i, limit) {
      RemovedAt(rs, k, i);
      assert Sane(rs, if i < k then i else i + 1, limit);
    }
    forall i: nat, j: nat | i < j < |rs'| ensures Apart(rs', i, j) {
      RemovedAt(rs, k, i);
      RemovedAt(rs, k, j);
      assert Apart(rs, if i < k then i else i + 1, if j < k then j else j + 1);
    }
  }

  lemma RemovedMaps(rs: seq<Region>, limit: nat, k: nat, a: int, f: Flags)
    requires Sorted(rs, limit) && k < |rs|
    ensures Maps(Removed(rs, k), a, f) <==> Maps(rs, a, f) && !rs[k].Has(a)
  {
    if Maps(Removed(rs, k), a, f) {
      var i :| 0 <= i < |Removed(rs, k)| && Removed(rs, k)[i].Has(a) && Removed(rs, k)[i].flags == f;
      RemovedAt(rs, k, i);
      DistinctHas(rs, limit, k, if i < k then i else i + 1, a);
    }
    if Maps(rs, a, f) && !rs[k].Has(a) {
      var i :| 0 <= i < |rs| && rs[i].Has(a) && rs[i].flags == f;
      RemovedAt(rs, k, if i < k then i else i - 1);
    }
  }

  /** r fits between its neighbours at position k. */
  ghost predicate Between(rs: seq<Region>, k: nat, r: Region) {
    && k <= |rs|
    && (forall i :: 0 <= i < k ==> rs[i].end < r.start)
    && (forall i :: k <= i < |rs| ==> r.end < rs[i].start)
  }

  lemma InsertedAt<T>(rs: seq<T>, k: nat, r: T, i: nat)
    requires k <= |rs| && i < |rs| + 1
    ensures |Inserted(rs, k, r)| == |rs| + 1
    ensures Inserted(rs, k, r)[i] == if i < k then rs[i] else if i == k then r else rs[i - 1]
  {
  }

  lemma InsertedSorted(rs: seq<Region>, limit: nat, k: nat, r: Region)
    requires Sorted(rs, limit) && Between(rs, k, r) && r.start <= r.end <= limit
    ensures Sorted(Inserted(rs, k, r), limit)
  {
    var rs' := Inserted(rs, k, r);
    forall i: nat | i < |rs'| ensures Sane(rs', i, limit) {
      InsertedAt(rs, k, r, i);
      if i != k {
        assert Sane(rs, if i < k then i else i - 1, limit);
      }
    }
    forall i: nat, j: nat | i < j < |rs'| ensures Apart(rs', i, j) {
      InsertedAt(rs, k, r, i);
      InsertedAt(rs, k, r, j);
      if i != k && j != k {
        assert Apart(rs, if i < k then i else i - 1, if j < k then j else j - 1);
      }
    }
  }

  lemma InsertedMaps(rs: seq<Region>, k: nat, r: Region, a: int, f: Flags)
    requires k <= |rs|
    ensures Maps(Inserted(rs, k, r), a, f) <==> Maps(rs, a, f) || (r.Has(a) && r.flags == f)
  {
    var rs' := Inserted(rs, k, r);
    assert rs'[k] == r;
    if Maps(rs', a, f) {
      var i :| 0 <= i < |rs'| && rs'[i].Has(a) && rs'[i].flags == f;
      if i != k {
        var j := if i < k then i else i - 1;
        assert rs[j] == rs'[i];
      }
    }
    if Maps(rs, a, f) {
      var i :| 0 <= i < |rs| && rs[i].Has(a) && rs[i].flags == f;
      var j := if i < k then i else i + 1;
      assert rs'[j] == rs[i];
    }
  }

  /** Region k replaced by r', inside the room its neighbours leave. */
  lemma UpdatedSorted(rs: seq<Region>, limit: nat, k: nat, r': Region)
    requires Sorted(rs, limit) && k < |rs| && r'.start <= r'.end <= limit
    requires k > 0 ==> rs[k - 1].end < r'.start
    requires k + 1 < |rs| ==> r'.end < rs[k + 1].start
    ensures Sorted(rs[k := r'], limit)
  {
    var rs' := rs[k := r'];
    forall i: nat | i < |rs'| ensures Sane(rs', i, limit) {
      assert i != k ==> Sane(rs, i, limit);
    }
    forall i: nat, j: nat | i < j < |rs'| ensures Apart(rs', i, j) {
      assert Apart(rs, i, j) && Sane(rs, i, limit) && Sane(rs, j, limit);
      if j == k && i < k - 1 {
        assert Apart(rs, i, k - 1) && Sane(rs, k - 1, limit);
      }
      if i == k && k + 1 < j {
        assert Apart(rs, k + 1, j) && Sane(rs, k + 1, limit);
      }
    }
  }

  lemma UpdatedMaps(rs: seq<Region>, limit: nat, k: nat, r': Region, a: int, f: Flags)
    requires Sorted(rs, limit) && k < |rs|
    ensures Maps(rs[k := r'], a, f) <==> (Maps(rs, a, f) && !rs[k].Has(a)) || (r'.Has(a) && r'.flags == f)
  {
    var rs' := rs[k := r'];
    if Maps(rs', a, f) {
      var i :| 0 <= i < |rs'| && rs'[i].Has(a) && rs'[i].flags == f;
      if i != k {
        assert rs[i] == rs'[i];
        DistinctHas(rs, limit, k, i, a);
      }
    }
    if r'.Has(a) && r'.flags == f {
      assert rs'[k] == r';
    }
    if Maps(rs, a, f) && !rs[k].Has(a) {
      var i :| 0 <= i < |rs| && rs[i].Has(a) && rs[i].flags == f;
      assert rs'[i] == rs[i];
    }
  }

  // ---- Where an address falls ----

  /** The first k regions start at or before a, the others after it. */
  ghost predicate SplitAt(rs: seq<Region>, k: nat, a: int) {
    && k <= |rs|
    && (forall j :: 0 <= j < k ==> rs[j].start <= a)
    && (forall j :: k <= j < |rs| ==> a < rs[j].start)
  }

  lemma SplitByRegion(rs: seq<Region>, limit: nat, k: nat, a: int)
    requires Sorted(rs, limit) && k < |rs| && rs[k].Has(a)
    ensures SplitAt(rs, k + 1, a)
  {
    forall j: nat | j < |rs| ensures if j <= k then rs[j].start <= a else a < rs[j].start {
      if j < k {
        assert Apart(rs, j, k) && Sane(rs, j, limit);
      } else if k < j {
        assert Apart(rs, k, j);
      }
    }
  }

  lemma SplitByStart(rs: seq<Region>, limit: nat, k: nat, a: int)
    requires Sorted(rs, limit) && k <= |rs| && (forall j :: 0 <= j < k ==> rs[j].start <= a)
    requires k < |rs| ==> a < rs[k].start
    ensures SplitAt(rs, k, a)
  {
    forall j: nat | k < j < |rs| ensures a < rs[j].start {
      assert Apart(rs, k, j) && Sane(rs, k, limit);
    }
  }

  /** The first k regions end before a, the others at or after it. */
  ghost predicate EndsAt(rs: seq<Region>, k: nat, a: int) {
    && k <= |rs|
    && (forall j :: 0 <= j < k ==> rs[j].end < a)
    && (forall j :: k <= j < |rs| ==> a <= rs[j].end)
  }

  lemma EndsByRegion(rs: seq<Region>, limit: nat, k: nat, a: int)
    requires Sorted(rs, limit) && k < |rs| && rs[k].Has(a)
    ensures EndsAt(rs, k, a)
  {
    forall j: nat | j < |rs| ensures if j < k then rs[j].end < a else a <= rs[j].end {
      if j < k {
        assert Apart(rs, j, k);
      } else if k < j {
        assert Apart(rs, k, j) && Sane(rs, j, limit);
      }
    }
  }

  lemma EndsByEnd(rs: seq<Region>, limit: nat, k: nat, a: int)
    requires Sorted(rs, limit) && k <= |rs| && (forall j :: k <= j < |rs| ==> a <= rs[j].end)
    requires k > 0 ==> rs[k - 1].end < a
    ensures EndsAt(rs, k, a)
  {
    forall j: nat | j < k - 1 ensures rs[j].end < a {
      assert Apart(rs, j, k - 1) && Sane(rs, k - 1, limit);
    }
  }

  /** Around an unmapped address the regions before it end before it; the hole reaches to the next region. */
  lemma HoleAround(rs: seq<Region>, limit: nat, k: nat, a: int)
    requires Sorted(rs, limit) && SplitAt(rs, k, a) && !Mapped(rs, a) && a <= limit
    ensures forall j :: 0 <= j < k ==> rs[j].end < a
    ensures var e := if k == |rs| then limit + 1 else rs[k].start;
            e <= limit + 1 && FreeRange(rs, a, e - a) && (e == limit + 1 || Mapped(rs, e))
  {
    forall j | 0 <= j < k ensures rs[j].end < a {
      assert !rs[j].Has(a);
    }
    var e := if k == |rs| then limit + 1 else rs[k].start;
    assert k < |rs| ==> Sane(rs, k, limit);
    forall x | a <= x < e ensures !Mapped(rs, x) {
      forall j | 0 <= j < |rs| ensures !rs[j].Has(x) {
        if k < j {
          assert Apart(rs, k, j) && Sane(rs, k, limit);
        }
      }
    }
    if k < |rs| {
      assert Sane(rs, k, limit);
      assert rs[k].Has(e);
    }
  }

  /** A free range lies between two neighbours. */
  lemma FreeIsBetween(rs: seq<Region>, limit: nat, k: nat, r: Region)
    requires Sorted(rs, limit) && r.start <= r.end && FreeRange(rs, r.start, r.Size()) && k <= |rs|
    requires forall j :: 0 <= j < k ==> rs[j].start < r.start
    requires k < |rs| ==> r.start <= rs[k].start
    ensures Between(rs, k, r)
  {
    forall j: nat | j < |rs| ensures if j < k then rs[j].end < r.start else r.end < rs[j].start {
      assert Sane(rs, j, limit);
      if j < k {
        FreeNotIn(rs, r.start, r.Size(), j, r.start);
      } else {
        if k < j {
          assert Apart(rs, k, j) && Sane(rs, k, limit);
        }
        if rs[j].start <= r.end {
          FreeNotIn(rs, r.start, r.Size(), j, rs[j].start);
        }
      }
    }
  }

  /** What starts before a free range ends before it. */
  lemma FreeEndsBefore(rs: seq<Region>, r: Region)
    requires r.start <= r.end && FreeRange(rs, r.start, r.Size())
    ensures forall j :: 0 <= j < |rs| && rs[j].start < r.start ==> rs[j].end < r.start
  {
    forall j | 0 <= j < |rs| && rs[j].start < r.start ensures rs[j].end < r.start {
      FreeNotIn(rs, r.start, r.Size(), j, r.start);
    }
  }

  lemma FreeNotIn(rs: seq<Region>, a: int, n: int, j: nat, x: int)
    requires FreeRange(rs, a, n) && j < |rs| && a <= x < a + n
    ensures !rs[j].Has(x)
  {
    assert !Mapped(rs, x);
  }

  lemma FreeNotMaps(rs: seq<Region>, a: int, n: int, x: int, f: Flags)
    requires FreeRange(rs, a, n) && a <= x < a + n
    ensures !Maps(rs, x, f)
  {
    assert !Mapped(rs, x);
  }

  lemma FreeRangesJoin(rs: seq<Region>, a: int, m: int, n: int)
    requires FreeRange(rs, a, m) && FreeRange(rs, a + m, n) && m >= 0
    ensures FreeRange(rs, a, m + n)
  {
  }
}
