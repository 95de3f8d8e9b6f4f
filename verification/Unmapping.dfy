/** vmr_split and mmap_unmap (kernel/mm/mmap.c). */
module Unmapping {
  import opened Regions
  import opened AddressSpace

  // ---- The address map while a range is being cleared ----

  /** Between rs0 and rs, everything in [s, p) has gone, nothing outside [s, e) has, and nothing was added. */
  ghost predicate Cleared(rs0: seq<Region>, rs: seq<Region>, s: int, p: int, e: int) {
    forall a, f :: Clear(rs0, rs, s, p, e, a, f)
  }

  ghost predicate Clear(rs0: seq<Region>, rs: seq<Region>, s: int, p: int, e: int, a: int, f: Flags) {
    && (Maps(rs, a, f) ==> Maps(rs0, a, f) && !(s <= a < p))
    && (Maps(rs0, a, f) && !(s <= a < e) ==> Maps(rs, a, f))
  }

  lemma ClearedThen(rs0: seq<Region>, rs1: seq<Region>, rs2: seq<Region>, s: int, p: int, q: int, e: int)
    requires Cleared(rs0, rs1, s, p, e) && Cleared(rs1, rs2, p, q, e) && s <= p
    ensures Cleared(rs0, rs2, s, q, e)
  {
    forall a, f ensures Clear(rs0, rs2, s, q, e, a, f) {
      assert Clear(rs0, rs1, s, p, e, a, f) && Clear(rs1, rs2, p, q, e, a, f);
    }
  }

  lemma RemoveClears(rs: seq<Region>, limit: nat, k: nat, q: int, e: int)
    requires Sorted(rs, limit) && k < |rs| && q <= rs[k].end + 1 <= e
    ensures Cleared(rs, Removed(rs, k), rs[k].start, q, e)
  {
    forall a, f ensures Clear(rs, Removed(rs, k), rs[k].start, q, e, a, f) {
      RemovedMaps(rs, limit, k, a, f);
      if Maps(rs, a, f) && rs[k].start <= a < q {
        assert rs[k].Has(a);
      }
    }
  }

  /** Cutting region k down to r clears [s, p) and at most [s, e). */
  lemma TrimClears(rs: seq<Region>, limit: nat, k: nat, r: Region, s: int, p: int, e: int)
    requires Sorted(rs, limit) && k < |rs| && r.flags == rs[k].flags
    requires rs[k].start <= r.start && r.end <= rs[k].end
    requires forall a :: s <= a < p ==> rs[k].Has(a) && !r.Has(a)
    requires forall a :: rs[k].Has(a) && !r.Has(a) ==> s <= a < e
    ensures Cleared(rs, rs[k := r], s, p, e)
  {
    var rs' := rs[k := r];
    forall a, f ensures Clear(rs, rs', s, p, e, a, f) {
      UpdatedMaps(rs, limit, k, r, a, f);
      if Maps(rs, a, f) && rs[k].Has(a) {
        assert Maps(rs, a, rs[k].flags);
        MapsUnique(rs, limit, a, f, rs[k].flags);
      }
      if r.Has(a) {
        assert rs[k].Has(a);
      }
    }
  }

  lemma HoleClears(rs: seq<Region>, s: int, n: int, e: int)
    requires FreeRange(rs, s, n)
    ensures Cleared(rs, rs, s, s + n, e)
  {
    var p := s + n;
    forall a, f ensures Clear(rs, rs, s, p, e, a, f) {
      if Maps(rs, a, f) {
        assert Mapped(rs, a);
      }
    }
  }

  /** The list after vmr_split of region k at addr. */
  ghost function SplitList(rs: seq<Region>, k: nat, addr: nat): seq<Region>
    requires k < |rs| && rs[k].start < addr <= rs[k].end
  {
    Inserted(rs[k := rs[k].(end := addr - 1)], k + 1, rs[k].(start := addr))
  }

  /** Splitting a region changes no address. */
  lemma SplitKeepsMap(rs: seq<Region>, limit: nat, k: nat, addr: nat, a: int, f: Flags)
    requires Sorted(rs, limit) && k < |rs| && rs[k].start < addr <= rs[k].end
    ensures Maps(SplitList(rs, k, addr), a, f) <==> Maps(rs, a, f)
  {
    var low, high := rs[k].(end := addr - 1), rs[k].(start := addr);
    UpdatedMaps(rs, limit, k, low, a, f);
    InsertedMaps(rs[k := low], k + 1, high, a, f);
    assert rs[k].Has(a) <==> low.Has(a) || high.Has(a);
    if Maps(rs, a, f) && rs[k].Has(a) {
      assert Maps(rs, a, rs[k].flags);
      MapsUnique(rs, limit, a, f, rs[k].flags);
    }
    if rs[k].Has(a) && rs[k].flags == f {
      assert Maps(rs, a, f);
    }
  }

  lemma SplitClears(rs: seq<Region>, limit: nat, k: nat, addr: nat, e: int)
    requires Sorted(rs, limit) && k < |rs| && rs[k].start < addr <= rs[k].end
    ensures Cleared(rs, SplitList(rs, k, addr), addr, addr, e)
  {
    forall a, f ensures Clear(rs, SplitList(rs, k, addr), addr, addr, e, a, f) {
      SplitKeepsMap(rs, limit, k, addr, a, f);
    }
  }

  /** The upper part of a cut region is free once the region is cut. */
  lemma UpperPartFree(rs: seq<Region>, limit: nat, k: nat, addr: nat)
    requires Sorted(rs, limit) && k < |rs| && rs[k].start < addr <= rs[k].end
    ensures FreeRange(rs[k := rs[k].(end := addr - 1)], addr, rs[k].end - addr + 1)
  {
    var rs' := rs[k := rs[k].(end := addr - 1)];
    forall x | addr <= x <= rs[k].end ensures !Mapped(rs', x) {
      forall i: nat | i < |rs'| ensures !rs'[i].Has(x) {
        if i != k {
          DistinctHas(rs, limit, i, k, x);
        }
      }
    }
  }

  /** There is only one place for a region. */
  lemma OnePlace(rs: seq<Region>, limit: nat, k: nat, k': nat, r: Region)
    requires Sorted(rs, limit) && r.start <= r.end && Between(rs, k, r) && k' <= |rs|
    requires k' > 0 ==> rs[k' - 1].end < r.start
    requires k' < |rs| ==> r.end < rs[k'].start
    ensures k == k'
  {
    assert k' > 0 ==> Sane(rs, k' - 1, limit);
    assert k' < |rs| ==> Sane(rs, k', limit);
  }

  // ---- The regions that are removed whole ----

  /** Whether mmap_unmap of [s, e) removes the part of r in the range as a region of its own, and so unmaps its pages: r
      does not reach beyond the range, and is not cut off at its last address. */
  predicate Goes(r: Region, s: int, e: int) {
    s <= r.end < e && !(r.start < s && r.end == s)
  }

  /** The part of r from s on. */
  function Piece(r: Region, s: nat): Region {
    if r.start < s then r.(start := s) else r
  }

  /** g is such a part of one of the regions. */
  ghost predicate Goner(rs: seq<Region>, s: nat, e: int, g: Region) {
    exists i: nat {:trigger rs[i]} :: i < |rs| && Goes(rs[i], s, e) && g == Piece(rs[i], s)
  }

  /** On the way from rs0, with the range from s, to rs, with the range from p, the regions gone have been removed. */
  ghost predicate Account(rs0: seq<Region>, s: nat, rs: seq<Region>, p: nat, e: int, gone: seq<Region>) {
    forall g {:trigger Goner(rs0, s, e, g)} :: Goner(rs0, s, e, g) <==> g in gone || Goner(rs, p, e, g)
  }

  lemma AccountThen(rs0: seq<Region>, s: nat, rs1: seq<Region>, p: nat, rs2: seq<Region>, q: nat, e: int,
                    gone: seq<Region>, more: seq<Region>)
    requires Account(rs0, s, rs1, p, e, gone) && Account(rs1, p, rs2, q, e, more)
    ensures Account(rs0, s, rs2, q, e, gone + more)
  {
    forall g ensures Goner(rs0, s, e, g) <==> g in gone + more || Goner(rs2, q, e, g) {
      assert Goner(rs1, p, e, g) <==> g in more || Goner(rs2, q, e, g);
    }
  }

  /** Regions other than k lie before its start or after its end. */
  lemma OtherSide(rs: seq<Region>, limit: nat, k: nat, i: nat)
    requires Sorted(rs, limit) && k < |rs| && i < |rs| && i != k
    ensures rs[i].start <= rs[i].end && (rs[i].end < rs[k].start || rs[k].end < rs[i].start)
  {
    assert Sane(rs, i, limit);
    if i < k {
      assert Apart(rs, i, k);
    } else {
      assert Apart(rs, k, i);
    }
  }

  lemma RemoveAccount(rs: seq<Region>, limit: nat, k: nat, p: nat, e: int)
    requires Sorted(rs, limit) && k < |rs| && rs[k].end <= p <= rs[k].end + 1 <= e
    ensures Account(rs, rs[k].start, Removed(rs, k), p, e, [rs[k]])
  {
    var s := rs[k].start;
    assert Sane(rs, k, limit);
    forall g ensures Goner(rs, s, e, g) <==> g in [rs[k]] || Goner(Removed(rs, k), p, e, g) {
      if i: nat :| i < |rs| && Goes(rs[i], s, e) && g == Piece(rs[i], s) && i != k {
        OtherSide(rs, limit, k, i);
        RemovedAt(rs, k, if i < k then i else i - 1);
      }
      if j: nat :| j < |Removed(rs, k)| && Goes(Removed(rs, k)[j], p, e) && g == Piece(Removed(rs, k)[j], p) {
        RemovedAt(rs, k, j);
        OtherSide(rs, limit, k, if j < k then j else j + 1);
      }
      assert Goes(rs[k], s, e);
    }
  }

  /** Region k, which holds s, reaches beyond the range: nothing is removed whole. */
  lemma TrimAccount(rs: seq<Region>, limit: nat, k: nat, rs': seq<Region>, p: nat, e: int)
    requires Sorted(rs, limit) && k < |rs| && e <= rs[k].end && p >= e
    ensures Account(rs, rs[k].start, rs', p, e, [])
  {
    forall g ensures !Goner(rs, rs[k].start, e, g) {
      if i: nat :| i < |rs| && Goes(rs[i], rs[k].start, e) && i != k {
        OtherSide(rs, limit, k, i);
      }
    }
  }

  /** Region k loses its last address, with which the range begins. */
  lemma CutAccount(rs: seq<Region>, limit: nat, k: nat, e: int)
    requires Sorted(rs, limit) && k < |rs| && rs[k].start < rs[k].end
    ensures Account(rs, rs[k].end, rs[k := rs[k].(end := rs[k].end - 1)], rs[k].end, e, [])
  {
    var s, rs' := rs[k].end, rs[k := rs[k].(end := rs[k].end - 1)];
    forall g ensures Goner(rs, s, e, g) <==> Goner(rs', s, e, g) {
      if i: nat :| i < |rs| && Goes(rs[i], s, e) && g == Piece(rs[i], s) {
        assert rs'[i] == rs[i];
      }
      if i: nat :| i < |rs'| && Goes(rs'[i], s, e) && g == Piece(rs'[i], s) {
        assert rs'[i] == rs[i];
      }
    }
  }

  lemma SplitAccount(rs: seq<Region>, k: nat, s: nat, e: int)
    requires k < |rs| && rs[k].start < s < rs[k].end
    ensures Account(rs, s, SplitList(rs, k, s), s, e, [])
  {
    var rs' := SplitList(rs, k, s);
    forall g ensures Goner(rs, s, e, g) <==> Goner(rs', s, e, g) {
      if i: nat :| i < |rs| && Goes(rs[i], s, e) && g == Piece(rs[i], s) {
        SplitAt(rs, k, s, if i < k then i else i + 1);
      }
      if j: nat :| j < |rs'| && Goes(rs'[j], s, e) && g == Piece(rs'[j], s) {
        SplitAt(rs, k, s, j);
        assert Goes(rs[if j <= k then j else j - 1], s, e);
      }
    }
  }

  lemma SplitAt(rs: seq<Region>, k: nat, s: nat, j: nat)
    requires k < |rs| && rs[k].start < s <= rs[k].end && j <= |rs|
    ensures |SplitList(rs, k, s)| == |rs| + 1
    ensures SplitList(rs, k, s)[j] == if j == k then rs[k].(end := s - 1) else if j == k + 1 then rs[k].(start := s)
                                      else rs[if j < k then j else j - 1]
  {
    InsertedAt(rs[k := rs[k].(end := s - 1)], k + 1, rs[k].(start := s), j);
  }

  lemma HoleAccount(rs: seq<Region>, limit: nat, s: nat, n: nat, e: int)
    requires Sorted(rs, limit) && FreeRange(rs, s, n)
    ensures Account(rs, s, rs, s + n, e, [])
  {
    forall g ensures Goner(rs, s, e, g) <==> Goner(rs, s + n, e, g) {
      if i: nat :| i < |rs| && Goes(rs[i], s, e) && g == Piece(rs[i], s) {
        NotInHole(rs, limit, s, n, i);
      }
      if i: nat :| i < |rs| && Goes(rs[i], s + n, e) && g == Piece(rs[i], s + n) {
        NotInHole(rs, limit, s, n, i);
      }
    }
  }

  lemma NotInHole(rs: seq<Region>, limit: nat, s: nat, n: nat, i: nat)
    requires Sorted(rs, limit) && FreeRange(rs, s, n) && i < |rs|
    ensures rs[i].start <= rs[i].end && (n > 0 ==> rs[i].end < s || s + n <= rs[i].start)
  {
    assert Sane(rs, i, limit);
    if n > 0 && s <= rs[i].end && rs[i].start < s + n {
      FreeNotIn(rs, s, n, i, if rs[i].start < s then s else rs[i].start);
    }
  }

  // ---- Where a region is split ----

  /** Address a lies in a region, and is neither its first nor its last address. */
  ghost predicate Inside(rs: seq<Region>, a: int) {
    exists i: nat {:trigger rs[i]} :: i < |rs| && rs[i].start < a < rs[i].end
  }

  lemma InsideMeans(rs: seq<Region>, limit: nat, k: nat, a: int)
    requires Sorted(rs, limit) && k < |rs| && rs[k].Has(a)
    ensures Inside(rs, a) <==> rs[k].start < a < rs[k].end
  {
    if i: nat :| i < |rs| && rs[i].start < a < rs[i].end && i != k {
      DistinctHas(rs, limit, i, k, a);
    }
  }

  /** The end of a region that is gone, and the address after it, are in no region or begin one. */
  lemma RemovedInside(rs: seq<Region>, limit: nat, k: nat, p: int)
    requires Sorted(rs, limit) && k < |rs| && rs[k].end <= p <= rs[k].end + 1
    ensures !Inside(Removed(rs, k), p)
  {
    forall j: nat | j < |Removed(rs, k)| ensures !(Removed(rs, k)[j].start < p < Removed(rs, k)[j].end) {
      RemovedAt(rs, k, j);
      OtherSide(rs, limit, k, if j < k then j else j + 1);
      assert Sane(rs, k, limit);
    }
  }

  lemma CutInside(rs: seq<Region>, limit: nat, k: nat)
    requires Sorted(rs, limit) && k < |rs| && rs[k].start < rs[k].end
    ensures !Inside(rs[k := rs[k].(end := rs[k].end - 1)], rs[k].end)
  {
    var rs' := rs[k := rs[k].(end := rs[k].end - 1)];
    forall i: nat | i < |rs'| ensures !(rs'[i].start < rs[k].end < rs'[i].end) {
      if i != k {
        OtherSide(rs, limit, k, i);
      }
    }
  }

  lemma SplitInside(rs: seq<Region>, limit: nat, k: nat, s: nat)
    requires Sorted(rs, limit) && k < |rs| && rs[k].start < s <= rs[k].end
    ensures !Inside(SplitList(rs, k, s), s)
  {
    forall j: nat | j < |SplitList(rs, k, s)| ensures !(SplitList(rs, k, s)[j].start < s < SplitList(rs, k, s)[j].end) {
      SplitAt(rs, k, s, j);
      if j != k && j != k + 1 {
        OtherSide(rs, limit, k, if j < k then j else j - 1);
      }
    }
  }

  /** Where a hole ends, a region begins, or none is left. */
  lemma HoleInside(rs: seq<Region>, limit: nat, s: nat, n: nat)
    requires Sorted(rs, limit) && FreeRange(rs, s, n) && n > 0
    ensures !Inside(rs, s) && !Inside(rs, s + n)
  {
    forall i: nat | i < |rs| ensures !(rs[i].start < s < rs[i].end) && !(rs[i].start < s + n < rs[i].end) {
      NotInHole(rs, limit, s, n, i);
    }
  }

  lemma AboveInside(rs: seq<Region>, limit: nat, a: int)
    requires Sorted(rs, limit) && a > limit
    ensures !Inside(rs, a)
  {
    forall i: nat | i < |rs| ensures rs[i].end < a {
      assert Sane(rs, i, limit);
    }
  }

  // ---- The operations ----

  /** The list's nodes are old ones or new ones. */
  twostate predicate OldOrNew(m: MMap)
    reads m
  {
    forall i :: 0 <= i < |m.nodes| ==> m.nodes[i] in old(m.nodes) || fresh(m.nodes[i])
  }

  /** vmr_split: cut region k in two at addr; both halves keep the flags. */
  method Split(m: MMap, r: Vmr, addr: nat, ghost k: nat) returns (err: Err, high: Vmr?)
    requires m.Valid() && k < |m.nodes| && m.nodes[k] == r
    modifies m, m.nodes
    ensures m.Valid() && OldOrNew(m)
    ensures err == if old(r.start) < addr < old(r.end) then OK else EINVAL
    ensures err != OK ==> high == null && m.Same()
    ensures err == OK ==> old(m.rs)[k].start < addr <= old(m.rs)[k].end && m.rs == SplitList(old(m.rs), k, addr)
    ensures err == OK ==> high != null && fresh(high) && m.nodes == Inserted(old(m.nodes), k + 1, high)
  {
    if !(r.start < addr < r.end) {
      return EINVAL, null;
    }
    ghost var rs := m.rs;
    assert m.NodeAt(k) && Sane(rs, k, m.limit);
    high := new Vmr(addr, r.end, r.flags);
    ghost var low := rs[k].(end := addr - 1);
    assert k > 0 ==> Apart(rs, k - 1, k);
    assert k + 1 < |rs| ==> Apart(rs, k, k + 1);
    UpperPartFree(rs, m.limit, k, addr);
    m.Update(r, k, r.start, addr - 1, r.flags);
    ghost var k';
    err, k' := m.MapIn(high);
    OnePlace(rs[k := low], m.limit, k', k + 1, Region(addr, rs[k].end, rs[k].flags));
  }

  /** 2 inside a region, 1 at its start, 0 in a hole. */
  ghost function Status(rs: seq<Region>, a: int): nat {
    if !Mapped(rs, a) then 0 else if exists i :: 0 <= i < |rs| && rs[i].start == a then 1 else 2
  }

  lemma StatusInside(rs: seq<Region>, limit: nat, k: nat, a: int)
    requires Sorted(rs, limit) && k < |rs| && rs[k].Has(a)
    ensures Status(rs, a) == if rs[k].start == a then 1 else 2
  {
    if i :| 0 <= i < |rs| && rs[i].start == a && i != k {
      assert Sane(rs, i, limit);
      DistinctHas(rs, limit, i, k, a);
    }
  }

  lemma StatusRemoved(rs: seq<Region>, limit: nat, k: nat, a: int)
    requires Sorted(rs, limit) && k < |rs| && rs[k].Has(a)
    ensures Status(Removed(rs, k), a) == 0
  {
    if Mapped(Removed(rs, k), a) {
      var i :| 0 <= i < |Removed(rs, k)| && Removed(rs, k)[i].Has(a);
      RemovedAt(rs, k, i);
      DistinctHas(rs, limit, if i < k then i else i + 1, k, a);
    }
  }

  lemma StatusTrimmed(rs: seq<Region>, limit: nat, k: nat, r: Region, a: int)
    requires Sorted(rs, limit) && k < |rs| && rs[k].Has(a) && !r.Has(a)
    ensures Status(rs[k := r], a) == 0
  {
    if Mapped(rs[k := r], a) {
      var i :| 0 <= i < |rs| && rs[k := r][i].Has(a);
      DistinctHas(rs, limit, i, k, a);
    }
  }

  lemma StatusSplit(rs: seq<Region>, k: nat, a: nat)
    requires k < |rs| && rs[k].start < a <= rs[k].end
    ensures Status(SplitList(rs, k, a), a) <= 1
  {
    InsertedAt(rs[k := rs[k].(end := a - 1)], k + 1, rs[k].(start := a), k + 1);
    assert SplitList(rs, k, a)[k + 1].start == a;
  }

  /** One turn of the loop of mmap_unmap.  It clears [start, p) where p is the new start, or the end of
      the range when no length is left. */
  method Step(m: MMap, start: nat, len: nat)
      returns (start': nat, len': nat, stop: bool, gone: seq<Region>, ghost splits: bool)
    requires m.Valid() && start < WORD && 0 < len < WORD && Wrap(start + len - 1) <= m.limit
    modifies m, m.nodes
    ensures m.Valid() && OldOrNew(m)
    ensures (len' > 0 ==> start' + len' == start + len) && start <= start' < WORD
    ensures Cleared(old(m.rs), m.rs, start, if len' == 0 then start + len else start', start + len)
    ensures Account(old(m.rs), start, m.rs, if len' == 0 then start + len else start', start + len, gone)
    ensures (splits <==> Inside(old(m.rs), start)) && (len' > 0 ==> !Inside(m.rs, start'))
    ensures if stop then start' > m.limit else
              len' < len || (len' == len && Status(m.rs, start') < Status(old(m.rs), start))
  {
    start', len', stop, gone, splits := start, len, false, [], false;
    var end := Wrap(start + len - 1);
    ghost var k;
    var vmr, err;
    vmr, k := m.FindExact(start, end);
    if vmr != null {
      start', len', gone := StepExact(m, start, len, end, vmr, k);
      return;
    }
    vmr, k := m.Find(start);
    if vmr != null {
      assert m.rs[k] in m.rs && Sane(m.rs, k, m.limit);
      InsideMeans(m.rs, m.limit, k, start);
      if vmr.start == start {
        start', len', gone := StepAtStart(m, start, len, vmr, k);
      } else {
        splits := StepInRegion(m, start, len, vmr, k);
      }
    } else {
      var holesz;
      err, holesz := m.HoleSize(start);
      if holesz == 0 {
        stop := true;
        HoleClears(m.rs, start, 0, start + len);
        HoleAccount(m.rs, m.limit, start, 0, start + len);
        AboveInside(m.rs, m.limit, start);
        return;
      }
      holesz := if holesz > len then len else holesz;
      HoleClears(m.rs, start, holesz, start + len);
      HoleAccount(m.rs, m.limit, start, holesz, start + len);
      HoleInside(m.rs, m.limit, start, holesz);
      start' := start + holesz;
      len' := len - holesz;
    }
  }

  /** The same where region k is the whole range: all but its last address count as done. */
  method StepExact(m: MMap, start: nat, len: nat, end: nat, vmr: Vmr, ghost k: nat)
      returns (start': nat, len': nat, gone: seq<Region>)
    requires m.Valid() && start < WORD && 0 < len < WORD && end == Wrap(start + len - 1) <= m.limit
    requires k < |m.nodes| && m.nodes[k] == vmr && m.NodeAt(k) && m.rs[k].start == start && m.rs[k].end == end
    modifies m, m.nodes
    ensures m.Valid() && OldOrNew(m)
    ensures len' == 1 && start' + len' == start + len && start <= start' < WORD
    ensures Cleared(old(m.rs), m.rs, start, start', start + len)
    ensures Account(old(m.rs), start, m.rs, start', start + len, gone)
    ensures !Inside(old(m.rs), start) && !Inside(m.rs, start')
    ensures len' < len || (len' == len && Status(m.rs, start') < Status(old(m.rs), start))
  {
    assert Sane(m.rs, k, m.limit);
    len' := len - (end - start);
    start' := start + (end - start);
    RemoveClears(m.rs, m.limit, k, start', start + len);
    StatusInside(m.rs, m.limit, k, start);
    StatusRemoved(m.rs, m.limit, k, start);
    RemoveAccount(m.rs, m.limit, k, start', start + len);
    InsideMeans(m.rs, m.limit, k, start);
    RemovedInside(m.rs, m.limit, k, start');
    gone := [Region(vmr.start, vmr.end, vmr.flags)];
    ghost var k';
    var err;
    err, k' := m.Remove(vmr);
  }

  /** The same where region k begins at start and is not the whole range. */
  method StepAtStart(m: MMap, start: nat, len: nat, vmr: Vmr, ghost k: nat)
      returns (start': nat, len': nat, gone: seq<Region>)
    requires m.Valid() && start < WORD && 0 < len < WORD && Wrap(start + len - 1) <= m.limit
    requires k < |m.nodes| && m.nodes[k] == vmr && m.NodeAt(k) && m.rs[k].start == start && m.rs[k].end != start + len - 1
    modifies m, m.nodes
    ensures m.Valid() && OldOrNew(m)
    ensures (len' > 0 ==> start' + len' == start + len) && start <= start' < WORD && len' < len
    ensures Cleared(old(m.rs), m.rs, start, if len' == 0 then start + len else start', start + len)
    ensures Account(old(m.rs), start, m.rs, if len' == 0 then start + len else start', start + len, gone)
    ensures len' > 0 ==> !Inside(m.rs, start')
  {
    start', len', gone := start, len, [];
    ghost var rs := m.rs;
    assert Sane(rs, k, m.limit);
    var size := vmr.end - vmr.start + 1;
    if size > len {
      assert k > 0 ==> Apart(rs, k - 1, k);
      assert k + 1 < |rs| ==> Apart(rs, k, k + 1);
      TrimClears(rs, m.limit, k, rs[k].(start := start + len), start, start + len, start + len);
      TrimAccount(rs, m.limit, k, rs[k := rs[k].(start := start + len)], start + len, start + len);
      m.Update(vmr, k, vmr.start + len, vmr.end, vmr.flags);
      len' := 0;
    } else if size < len {
      start' := vmr.end + 1;
      len' := len - size;
      RemoveClears(rs, m.limit, k, start', start + len);
      RemoveAccount(rs, m.limit, k, start', start + len);
      RemovedInside(rs, m.limit, k, start');
      gone := [Region(vmr.start, vmr.end, vmr.flags)];
      ghost var k';
      var err;
      err, k' := m.Remove(vmr);
    }
  }

  /** The same where start lies in region k, which begins before it. */
  method StepInRegion(m: MMap, start: nat, len: nat, vmr: Vmr, ghost k: nat) returns (ghost splits: bool)
    requires m.Valid() && start < WORD && 0 < len < WORD
    requires k < |m.nodes| && m.nodes[k] == vmr && m.NodeAt(k) && m.rs[k].Has(start) && m.rs[k].start < start
    modifies m, m.nodes
    ensures m.Valid() && OldOrNew(m)
    ensures Cleared(old(m.rs), m.rs, start, start, start + len)
    ensures Account(old(m.rs), start, m.rs, start, start + len, [])
    ensures (splits <==> Inside(old(m.rs), start)) && !Inside(m.rs, start)
    ensures Status(m.rs, start) < Status(old(m.rs), start)
  {
    ghost var rs := m.rs;
    assert Sane(rs, k, m.limit);
    InsideMeans(rs, m.limit, k, start);
    StatusInside(rs, m.limit, k, start);
    if vmr.end == start {
      assert k > 0 ==> Apart(rs, k - 1, k);
      assert k + 1 < |rs| ==> Apart(rs, k, k + 1);
      TrimClears(rs, m.limit, k, rs[k].(end := start - 1), start, start, start + len);
      StatusTrimmed(rs, m.limit, k, rs[k].(end := start - 1), start);
      CutAccount(rs, m.limit, k, start + len);
      CutInside(rs, m.limit, k);
      m.Update(vmr, k, vmr.start, vmr.end - 1, vmr.flags);
      splits := false;
    } else {
      SplitClears(rs, m.limit, k, start, start + len);
      StatusSplit(rs, k, start);
      SplitAccount(rs, k, start, start + len);
      SplitInside(rs, m.limit, k, start);
      splits := true;
      var err, high := Split(m, vmr, start, k);
    }
  }

  /** mmap_unmap: afterwards exactly the addresses outside [start, start + len) are mapped as before.
      The length may run past the end of the address space, where start + len - 1 wraps around.  gone: the regions that
      mmap_remove took out, whose pages it unmaps.  splits: it has called vmr_split, and so stored through the null pointer it passes as
      out-pointer. */
  method Unmap(m: MMap, start: nat, len: nat) returns (err: Err, gone: seq<Region>, ghost splits: bool)
    requires m.Valid() && start < WORD && len < WORD
    modifies m, m.nodes
    ensures m.Valid() && OldOrNew(m)
    ensures err == if len == 0 || Wrap(start + len - 1) > m.limit then EINVAL else OK
    ensures err != OK ==> m.Same()
    ensures err == OK ==> forall a, f :: Maps(m.rs, a, f) <==> Maps(old(m.rs), a, f) && !(start <= a < start + len)
    ensures err != OK ==> gone == []
    ensures err == OK ==> forall g {:trigger Goner(old(m.rs), start, start + len, g)} ::
              g in gone <==> Goner(old(m.rs), start, start + len, g)
    ensures splits <==> err == OK && Inside(old(m.rs), start)
  {
    gone, splits := [], false;
    if len == 0 {
      return EINVAL, [], false;
    }
    if Wrap(start + len - 1) > m.limit {
      return EINVAL, [], false;
    }
    var s: nat, n: nat, stop := start, len, false;
    HoleClears(m.rs, start, 0, start + len);
    ghost var first := true;
    while n != 0 && !stop
      invariant m.Valid() && OldOrNew(m)
      invariant n <= len && start <= s < WORD && (n > 0 ==> s + n == start + len)
      invariant Cleared(old(m.rs), m.rs, start, if n == 0 then start + len else s, start + len)
      invariant Account(old(m.rs), start, m.rs, if n == 0 then start + len else s, start + len, gone)
      invariant stop ==> s > m.limit
      invariant if first then n == len && s == start && !stop && !splits && m.rs == old(m.rs)
                else (splits <==> Inside(old(m.rs), start)) && (n > 0 ==> !Inside(m.rs, s))
      decreases n, !stop, Status(m.rs, s)
    {
      ghost var rs, p := m.rs, s;
      var more;
      ghost var split;
      s, n, stop, more, split := Step(m, s, n);
      first, splits := false, splits || split;
      AccountThen(old(m.rs), start, rs, p, m.rs, if n == 0 then start + len else s, start + len, gone, more);
      gone := gone + more;
      ClearedThen(old(m.rs), rs, m.rs, start, p, if n == 0 then start + len else s, start + len);
    }
    AllCleared(old(m.rs), m.rs, m.limit, start, if n == 0 then start + len else s, start + len);
    NoneLeft(m.rs, m.limit, if n == 0 then start + len else s, start + len);
    return OK, gone, splits;
  }

  lemma NoneLeft(rs: seq<Region>, limit: nat, p: nat, e: int)
    requires Sorted(rs, limit) && (p == e || p > limit)
    ensures forall g :: !Goner(rs, p, e, g)
  {
    forall i: nat | i < |rs| ensures !Goes(rs[i], p, e) {
      assert Sane(rs, i, limit);
    }
  }

  lemma AllCleared(rs0: seq<Region>, rs: seq<Region>, limit: nat, s: int, p: int, e: int)
    requires Sorted(rs, limit) && Cleared(rs0, rs, s, p, e) && (p == e || p > limit)
    ensures forall a, f :: Maps(rs, a, f) <==> Maps(rs0, a, f) && !(s <= a < e)
  {
    forall a, f ensures Maps(rs, a, f) <==> Maps(rs0, a, f) && !(s <= a < e) {
      assert Clear(rs0, rs, s, p, e, a, f);
      if Maps(rs, a, f) {
        var i :| 0 <= i < |rs| && rs[i].Has(a) && rs[i].flags == f;
        assert Sane(rs, i, limit);
      }
    }
  }
}
