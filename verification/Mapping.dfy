/** mmap_map_region, mmap_vmr_expand, mmap_protect, mmap_clean and mmap_copy (kernel/mm/mmap.c). */
module Mapping {
  import opened Regions
  import opened AddressSpace
  import opened Unmapping
  import opened Holes

  const PAGE: nat := 0x1000

  datatype Prot = Prot(r: bool, w: bool, x: bool)
  datatype MapFlags = MapFlags(fixed: bool, stack: bool, priv: bool, shared: bool, zero: bool, dontExpand: bool)

  function VmFlags(prot: Prot, flags: MapFlags): Flags {
    Flags(prot.r, prot.w, prot.x, flags.zero, flags.shared, flags.stack, flags.dontExpand)
  }

  // ---- Mapping a region ----

  /** mmap_forced_mapin: r replaces whatever was mapped at its addresses. */
  method ForcedMapIn(m: MMap, r: Vmr) returns (err: Err)
    requires m.Valid() && r !in m.nodes && r.start < WORD && r.end < WORD
    modifies m, m.nodes, r`prev, r`next
    ensures err == if r.end + 1 == r.start || r.end > m.limit then EINVAL else OK
    ensures err != OK ==> m.Same()
    ensures err == OK ==> r in m.nodes
    ensures forall i :: 0 <= i < |m.nodes| ==> m.nodes[i] == r || m.nodes[i] in old(m.nodes) || fresh(m.nodes[i])
    ensures m.Valid() <==> err != OK || r.start <= r.end
    ensures err == OK && r.start <= r.end ==> forall a, f ::
              Maps(m.rs, a, f) <==> if r.R().Has(a) then f == r.flags else Maps(old(m.rs), a, f)
  {
    var size := Wrap(Wrap(r.end - r.start) + 1);
    var gone;
    ghost var splits;
    err, gone, splits := Unmap(m, r.start, size);
    if err != OK {
      return;
    }
    ghost var rs, ns, k := m.rs, m.nodes, 0;
    Emptied(rs, m.limit, r.start, size);
    err, k := m.MapIn(r);
    InsertedAt(ns, k, r, k);
    assert m.nodes[k] == r;
    forall i: nat | i < |m.nodes| ensures m.nodes[i] == r || m.nodes[i] in ns {
      InsertedAt(ns, k, r, i);
    }
    if r.start <= r.end {
      forall a, f ensures Maps(m.rs, a, f) <==> if r.R().Has(a) then f == r.flags else Maps(old(m.rs), a, f) {
        InsertedMaps(rs, k, r.R(), a, f);
      }
    }
  }

  /** Where nothing is mapped in [s, s + n) that range is free; if it runs past all addresses, every
      region ends before s. */
  lemma Emptied(rs: seq<Region>, limit: nat, s: nat, n: nat)
    requires Sorted(rs, limit) && forall a, f :: Maps(rs, a, f) ==> !(s <= a < s + n)
    ensures FreeRange(rs, s, n)
    ensures s + n > limit ==> forall i :: 0 <= i < |rs| ==> rs[i].end < s
  {
    forall x | s <= x < s + n ensures !Mapped(rs, x) {
      if i :| 0 <= i < |rs| && rs[i].Has(x) {
        assert Maps(rs, x, rs[i].flags);
      }
    }
    forall i: nat | i < |rs| && s + n > limit ensures rs[i].end < s {
      assert Sane(rs, i, limit);
      assert Maps(rs, rs[i].end, rs[i].flags);
    }
  }

  /** The argument tests of mmap_map_region. */
  predicate BadRequest(limit: nat, addr: nat, len: nat, prot: Prot, flags: MapFlags) {
    || len == 0
    || (flags.fixed && (addr % PAGE != 0 || addr > limit))
    || (flags.stack && (addr % PAGE != 0 || len % PAGE != 0))
    || flags.priv == flags.shared
    || (flags.stack && !(prot.r && prot.w))
  }

  /** The length with the guard page of a stack. */
  function Length(len: nat, flags: MapFlags): nat
    requires len < WORD
  {
    if flags.stack then Wrap(len + PAGE) else len
  }

  /** mmap_map_region.  Without MAP_FIXED the region goes where nothing was, or there is no room.  With
      MAP_FIXED it replaces what was there; a length that wraps around passes the tests and breaks the list. */
  method MapRegion(m: MMap, addr: nat, len: nat, prot: Prot, flags: MapFlags) returns (err: Err, r: Vmr?)
    requires m.Valid() && addr < WORD && len < WORD
    modifies m, m.nodes
    ensures OldOrNew(m) && (err != OK ==> m.Same())
    ensures BadRequest(m.limit, addr, len, prot, flags) ==> err == EINVAL
    ensures !BadRequest(m.limit, addr, len, prot, flags) && flags.fixed ==>
              var n := Length(len, flags);
              err == if n == 0 || Wrap(addr + n - 1) > m.limit then EINVAL else OK
    ensures !BadRequest(m.limit, addr, len, prot, flags) && !flags.fixed ==>
              var n := Length(len, flags);
              && err in {OK, EINVAL, ENOMEM}
              && (err == EINVAL <==> n == 0)
              && (err == ENOMEM <==> n > 0 && forall b :: !Fits(old(m.rs), m.limit, b, n))
    ensures m.Valid() <==> !(err == OK && flags.fixed && addr + Length(len, flags) > WORD)
    ensures err == OK ==> r != null && fresh(r) && r.flags == VmFlags(prot, flags)
    ensures err == OK && flags.fixed ==> r.start == addr
    ensures err == OK && !flags.fixed ==>
              && Fits(old(m.rs), m.limit, r.start, Length(len, flags))
              && Chosen(old(m.rs), m.limit, addr, Length(len, flags), Direction(flags), r.start)
    ensures err == OK && m.Valid() ==> r in m.nodes && r.end == r.start + Length(len, flags) - 1
    ensures err == OK && m.Valid() ==> forall a, f ::
              Maps(m.rs, a, f) <==> if r.R().Has(a) then f == r.flags else Maps(old(m.rs), a, f)
  {
    if BadRequest(m.limit, addr, len, prot, flags) {
      return EINVAL, null;
    }
    var n := Length(len, flags);
    if flags.fixed {
      r := new Vmr(addr, Wrap(addr + n - 1), VmFlags(prot, flags));
      err := ForcedMapIn(m, r);
    } else {
      WholePages(m.rs, m.limit, len, flags);
      err, r := MapFree(m, addr, n, VmFlags(prot, flags), Direction(flags));
    }
  }

  /** Stacks are searched for from the end. */
  function Direction(flags: MapFlags): Whence {
    if flags.stack then FromEnd else FromStart
  }

  /** A stack has whole pages, so the search for one never asks for a single address. */
  lemma WholePages(rs: seq<Region>, limit: nat, len: nat, flags: MapFlags)
    requires len < WORD && (flags.stack ==> len % PAGE == 0)
    ensures NoRoom(rs, limit, Length(len, flags), Direction(flags)) <==> forall b :: !Fits(rs, limit, b, Length(len, flags))
  {
    assert flags.stack ==> Length(len, flags) != 1;
    if !NoRoom(rs, limit, Length(len, flags), Direction(flags)) {
      var b :| Fits(rs, limit, b, Length(len, flags));
    }
  }

  /** A fixed request whose range wraps around and that nevertheless passes every test. */
  lemma WrappedRequestPasses(limit: nat, prot: Prot)
    requires limit >= 2 * PAGE
    ensures var flags := MapFlags(true, false, true, false, false, false);
            var addr, len := 2 * PAGE, WORD - PAGE;
            && !BadRequest(limit, addr, len, prot, flags)
            && Wrap(addr + Length(len, flags) - 1) <= limit && addr + Length(len, flags) > WORD
  {
  }

  /** The branch without MAP_FIXED: mmap_mapin cannot refuse the place that was found. */
  method MapFree(m: MMap, hint: nat, n: nat, flags: Flags, whence: Whence) returns (err: Err, r: Vmr?)
    requires m.Valid() && n < WORD
    modifies m, m.nodes
    ensures m.Valid() && OldOrNew(m) && (err != OK ==> m.Same())
    ensures err in {OK, EINVAL, ENOMEM} && (err == EINVAL <==> n == 0)
    ensures err == ENOMEM <==> n > 0 && NoRoom(old(m.rs), m.limit, n, whence)
    ensures err == OK ==> r != null && fresh(r) && r in m.nodes && r.flags == flags && r.end == r.start + n - 1
    ensures err == OK ==> Fits(old(m.rs), m.limit, r.start, n) && Chosen(old(m.rs), m.limit, hint, n, whence, r.start)
    ensures err == OK ==> forall a, f ::
              Maps(m.rs, a, f) <==> if r.R().Has(a) then f == r.flags else Maps(old(m.rs), a, f)
  {
    var place;
    err, place := FindHoleAt(m, hint, n, whence);
    if err != OK {
      return err, null;
    }
    r := new Vmr(place, place + n - 1, flags);
    ghost var rs, k := m.rs, 0;
    err, k := m.MapIn(r);
    InsertedAt(old(m.nodes), k, r, k);
    assert m.nodes[k] == r;
    forall i: nat | i < |m.nodes| ensures m.nodes[i] == r || m.nodes[i] in old(m.nodes) {
      InsertedAt(old(m.nodes), k, r, i);
    }
    forall a, f ensures Maps(m.rs, a, f) <==> if r.R().Has(a) then f == r.flags else Maps(rs, a, f) {
      InsertedMaps(rs, k, r.R(), a, f);
      if r.R().Has(a) {
        FreeNotMaps(rs, place, n, a, f);
      }
    }
  }

  // ---- Growing and shrinking ----

  /** The bounds of r after mmap_vmr_expand. */
  ghost function Resized(r: Region, incr: int): Region
    requires r.flags.down ==> incr <= r.start
    requires !r.flags.down ==> r.end + incr >= 0
  {
    if r.flags.down then r.(start := r.start - incr) else r.(end := r.end + incr)
  }

  /** The room that growing by incr needs is free. */
  ghost predicate CanGrow(rs: seq<Region>, limit: nat, r: Region, incr: int) {
    Fits(rs, limit, if r.flags.down then r.start - incr else r.end + 1, incr)
  }

  /** The address at which the room for growing by incr has to begin. */
  ghost function RoomAt(r: Region, incr: int): int {
    if !r.flags.down then r.end + 1 else if incr <= r.start then r.start - incr else r.start - incr + WORD
  }

  /** The result of growing r by incr: EINVAL if the room would begin at an address that is taken or not valid, ENOMEM if
      it is too small. */
  ghost function GrowVerdict(rs: seq<Region>, limit: nat, r: Region, incr: int): Err {
    if RoomAt(r, incr) > limit || Mapped(rs, RoomAt(r, incr)) then EINVAL
    else if CanGrow(rs, limit, r, incr) then OK
    else ENOMEM
  }

  /** The result of mmap_vmr_expand.  A new size past the largest signed word is negative. */
  ghost function ExpandVerdict(rs: seq<Region>, limit: nat, r: Region, incr: int): Err {
    if incr == 0 || r.flags.dontExpand || r.Size() + incr >= WORD / 2 || r.Size() + incr < 0 then EINVAL
    else if incr > 0 then GrowVerdict(rs, limit, r, incr)
    else OK
  }

  /** mmap_vmr_expand. */
  method Expand(m: MMap, r: Vmr, incr: int, ghost k: nat) returns (err: Err)
    requires m.Valid() && k < |m.nodes| && m.nodes[k] == r && -WORD / 2 <= incr < WORD / 2
    modifies m, m.nodes
    ensures m.Valid() && OldOrNew(m)
    ensures err == ExpandVerdict(old(m.rs), m.limit, old(m.rs)[k], incr)
    ensures err != OK ==> m.Same()
    ensures err == OK && old(m.rs)[k].Size() + incr == 0 ==> m.rs == Removed(old(m.rs), k)
    ensures err == OK && old(m.rs)[k].Size() + incr > 0 ==>
              && (if old(m.rs)[k].flags.down then incr <= old(m.rs)[k].start else old(m.rs)[k].end + incr >= 0)
              && m.rs == old(m.rs)[k := Resized(old(m.rs)[k], incr)]
  {
    ghost var rs := m.rs;
    assert m.NodeAt(k) && Sane(rs, k, m.limit);
    if incr == 0 {
      return EINVAL;
    }
    if r.flags.dontExpand {
      return EINVAL;
    }
    var oldsz := r.end - r.start + 1;
    var newsz := if oldsz + incr >= WORD / 2 then oldsz + incr - WORD else oldsz + incr;
    if newsz > oldsz {
      err := Grow(m, r, incr, k);
      return;
    }
    if newsz < 0 {
      return EINVAL;
    } else if newsz == 0 {
      ghost var ns, k' := m.nodes, 0;
      err, k' := m.Remove(r);
      forall i: nat | i < |m.nodes| ensures m.nodes[i] in ns {
        RemovedAt(ns, k', i);
      }
      return;
    }
    assert k > 0 ==> Apart(rs, k - 1, k);
    assert k + 1 < |rs| ==> Apart(rs, k, k + 1);
    if !r.flags.down {
      m.Update(r, k, r.start, r.end - (oldsz - newsz), r.flags);
    } else {
      m.Update(r, k, r.start + (oldsz - newsz), r.end, r.flags);
    }
    return OK;
  }

  method Grow(m: MMap, r: Vmr, incr: nat, ghost k: nat) returns (err: Err)
    requires m.Valid() && k < |m.nodes| && m.nodes[k] == r && 0 < incr < WORD / 2
    modifies m`rs, r`start, r`end, r`flags
    ensures m.Valid()
    ensures err == GrowVerdict(old(m.rs), m.limit, old(m.rs)[k], incr)
    ensures err == OK ==> old(m.rs)[k].flags.down ==> incr <= old(m.rs)[k].start
    ensures m.rs == if err == OK then old(m.rs)[k := Resized(old(m.rs)[k], incr)] else old(m.rs)
  {
    ghost var rs := m.rs;
    assert m.NodeAt(k) && Sane(rs, k, m.limit);
    var hole := if r.flags.down then Wrap(r.start - incr) else r.end + 1;
    var holesz;
    err, holesz := m.HoleSize(hole);
    if holesz < incr {
      NotHere(rs, m.limit, hole, incr, holesz);
    }
    if err != OK {
      return;
    }
    if holesz < incr {
      return ENOMEM;
    }
    if r.flags.down {
      RoomBelow(rs, m.limit, k, hole, holesz);
      assert k + 1 < |rs| ==> Apart(rs, k, k + 1);
      Extend(m, r, k, hole, r.end);
    } else {
      RoomAbove(rs, m.limit, k, holesz);
      assert k > 0 ==> Apart(rs, k - 1, k);
      Extend(m, r, k, r.start, r.end + incr);
    }
  }

  /** Region k gets bounds within the room its neighbours leave. */
  method Extend(m: MMap, r: Vmr, ghost k: nat, start: nat, end: nat)
    requires m.Valid() && k < |m.nodes| && m.nodes[k] == r && start <= m.rs[k].start && m.rs[k].end <= end <= m.limit
    requires k > 0 ==> m.rs[k - 1].end < start
    requires k + 1 < |m.rs| ==> end < m.rs[k + 1].start
    modifies m`rs, r`start, r`end, r`flags
    ensures m.Valid() && m.rs == old(m.rs)[k := Region(start, end, old(m.rs)[k].flags)]
  {
    assert m.NodeAt(k) && Sane(m.rs, k, m.limit);
    m.Update(r, k, start, end, r.flags);
  }

  lemma RoomAbove(rs: seq<Region>, limit: nat, k: nat, n: nat)
    requires Sorted(rs, limit) && k < |rs| && FreeRange(rs, rs[k].end + 1, n)
    ensures k + 1 < |rs| ==> rs[k].end + n < rs[k + 1].start
  {
    if k + 1 < |rs| {
      assert Apart(rs, k, k + 1) && Sane(rs, k + 1, limit);
      if rs[k + 1].start <= rs[k].end + n {
        FreeNotIn(rs, rs[k].end + 1, n, k + 1, rs[k + 1].start);
      }
    }
  }

  lemma RoomBelow(rs: seq<Region>, limit: nat, k: nat, a: nat, n: nat)
    requires Sorted(rs, limit) && k < |rs| && a < rs[k].start <= a + n && FreeRange(rs, a, n)
    ensures k > 0 ==> rs[k - 1].end < a
  {
    if k > 0 {
      assert Apart(rs, k - 1, k) && Sane(rs, k - 1, limit);
      if rs[k - 1].end >= a {
        FreeNotIn(rs, a, n, k - 1, rs[k - 1].end);
      }
    }
  }

  // ---- Changing protection ----

  /** Map in a piece at free addresses; region k keeps its node and its bounds. */
  method PutPiece(m: MMap, piece: Vmr, ghost k: nat) returns (ghost k': nat)
    requires m.Valid() && k < |m.nodes| && piece !in m.nodes && piece.start <= piece.end <= m.limit
    requires FreeRange(m.rs, piece.start, piece.R().Size())
    modifies m, m.nodes`prev, m.nodes`next, piece`prev, piece`next
    ensures m.Valid() && forall i :: 0 <= i < |m.nodes| ==> m.nodes[i] == piece || m.nodes[i] in old(m.nodes)
    ensures k' < |m.nodes| && m.nodes[k'] == old(m.nodes)[k] && m.rs[k'] == old(m.rs)[k]
    ensures forall a, f :: Maps(m.rs, a, f) <==> Maps(old(m.rs), a, f) || (piece.R().Has(a) && piece.flags == f)
    ensures forall a :: Mapped(m.rs, a) ==> Mapped(old(m.rs), a) || piece.R().Has(a)
  {
    ghost var rs, ns := m.rs, m.nodes;
    var err;
    ghost var j;
    err, j := m.MapIn(piece);
    k' := if k < j then k else k + 1;
    InsertedAt(ns, j, piece, k');
    InsertedAt(rs, j, piece.R(), k');
    forall i: nat | i < |m.nodes| ensures m.nodes[i] == piece || m.nodes[i] in old(m.nodes) {
      InsertedAt(ns, j, piece, i);
    }
    forall a, f ensures Maps(m.rs, a, f) <==> Maps(rs, a, f) || (piece.R().Has(a) && piece.flags == f) {
      InsertedMaps(rs, j, piece.R(), a, f);
    }
    forall a | Mapped(m.rs, a) ensures Mapped(rs, a) || piece.R().Has(a) {
      var i :| 0 <= i < |m.rs| && m.rs[i].Has(a);
      InsertedAt(rs, j, piece.R(), i);
    }
  }

  /** Region k is cut down to mid: what it loses is free and nothing else changes. */
  lemma CutDown(rs: seq<Region>, rs': seq<Region>, limit: nat, k: nat, mid: Region)
    requires Sorted(rs, limit) && k < |rs| && mid.flags == rs[k].flags && rs' == rs[k := mid]
    requires rs[k].start <= mid.start <= mid.end <= rs[k].end
    ensures forall a, f :: Maps(rs, a, f) <==> Maps(rs', a, f) || (rs[k].Has(a) && !mid.Has(a) && f == mid.flags)
    ensures forall a :: rs[k].Has(a) && !mid.Has(a) ==> !Mapped(rs', a)
  {
    forall a, f ensures Maps(rs, a, f) <==> Maps(rs', a, f) || (rs[k].Has(a) && !mid.Has(a) && f == mid.flags) {
      UpdatedMaps(rs, limit, k, mid, a, f);
      if rs[k].Has(a) {
        assert Maps(rs, a, rs[k].flags);
        if Maps(rs, a, f) {
          MapsUnique(rs, limit, a, f, rs[k].flags);
        }
      }
    }
    forall a | rs[k].Has(a) && !mid.Has(a) ensures !Mapped(rs', a) {
      forall i: nat | i < |rs'| ensures !rs'[i].Has(a) {
        if i != k {
          DistinctHas(rs, limit, i, k, a);
        }
      }
    }
  }

  /** The region r, which is region k, is cut down to [addr, end]. */
  method Shrink(m: MMap, r: Vmr, addr: nat, end: nat, ghost k: nat)
    requires m.Valid() && k < |m.nodes| && m.nodes[k] == r && m.rs[k].start <= addr <= end <= m.rs[k].end
    modifies m`rs, r`start, r`end, r`flags
    ensures m.Valid() && |m.rs| == |old(m.rs)| && m.rs[k] == Region(addr, end, old(m.rs)[k].flags)
    ensures var o := old(m.rs)[k]; forall a, f ::
              Maps(old(m.rs), a, f) <==> Maps(m.rs, a, f) || (o.Has(a) && !(addr <= a <= end) && f == o.flags)
    ensures var o := old(m.rs)[k]; forall a :: o.Has(a) && !(addr <= a <= end) ==> !Mapped(m.rs, a)
  {
    ghost var rs := m.rs;
    assert m.NodeAt(k) && Sane(rs, k, m.limit);
    assert k > 0 ==> Apart(rs, k - 1, k);
    assert k + 1 < |rs| ==> Apart(rs, k, k + 1);
    m.Update(r, k, addr, end, r.flags);
    CutDown(rs, m.rs, m.limit, k, Region(addr, end, rs[k].flags));
  }

  /** Cut [addr, end] out of region k as a region of its own; the rest stays mapped as it was. */
  method Carve(m: MMap, r: Vmr, addr: nat, end: nat, ghost k: nat) returns (ghost k': nat)
    requires m.Valid() && k < |m.nodes| && m.nodes[k] == r
    requires m.rs[k].start <= addr <= end <= m.rs[k].end && end - addr + 1 < m.rs[k].Size()
    modifies m, m.nodes
    ensures m.Valid() && OldOrNew(m) && k' < |m.nodes| && m.nodes[k'] == r
    ensures m.rs[k'] == Region(addr, end, old(m.rs)[k].flags)
    ensures forall a, f :: Maps(m.rs, a, f) <==> Maps(old(m.rs), a, f)
  {
    assert m.NodeAt(k) && Sane(m.rs, k, m.limit);
    if r.start == addr {
      var split0 := new Vmr(end + 1, r.end, r.flags);
      Shrink(m, r, r.start, end, k);
      k' := PutPiece(m, split0, k);
    } else if r.end == end {
      var split0 := new Vmr(r.start, addr - 1, r.flags);
      Shrink(m, r, addr, r.end, k);
      k' := PutPiece(m, split0, k);
    } else {
      k' := CarveMiddle(m, r, addr, end, k);
    }
  }

  /** Something is left of the region on both sides. */
  method CarveMiddle(m: MMap, r: Vmr, addr: nat, end: nat, ghost k: nat) returns (ghost k': nat)
    requires m.Valid() && k < |m.nodes| && m.nodes[k] == r && m.rs[k].start < addr <= end < m.rs[k].end
    modifies m, m.nodes
    ensures m.Valid() && OldOrNew(m) && k' < |m.nodes| && m.nodes[k'] == r
    ensures m.rs[k'] == Region(addr, end, old(m.rs)[k].flags)
    ensures forall a, f :: Maps(m.rs, a, f) <==> Maps(old(m.rs), a, f)
  {
    assert m.NodeAt(k) && Sane(m.rs, k, m.limit);
    var split0 := new Vmr(r.start, addr - 1, r.flags);
    var split1 := new Vmr(end + 1, r.end, r.flags);
    Shrink(m, r, addr, end, k);
    k' := PutPiece(m, split0, k);
    k' := PutPiece(m, split1, k');
  }

  /** One region holds addr and reaches to end. */
  ghost predicate Covered(rs: seq<Region>, addr: nat, end: nat) {
    exists i :: 0 <= i < |rs| && rs[i].Has(addr) && end <= rs[i].end
  }

  /** mmap_find_vmr_overlap. */
  method FindOverlap(m: MMap, start: nat, end: nat) returns (r: Vmr?, ghost k: nat)
    requires m.Valid()
    ensures r == null <==> !Covered(m.rs, start, end)
    ensures r != null ==> k < |m.nodes| && m.nodes[k] == r && m.NodeAt(k) && m.rs[k].Has(start) && end <= m.rs[k].end
  {
    r, k := m.Find(start);
    if r != null && end <= r.end {
      return;
    }
    if r != null {
      forall i: nat | i < |m.rs| && m.rs[i].Has(start) ensures m.rs[i].end < end {
        if i != k {
          DistinctHas(m.rs, m.limit, i, k, start);
        }
      }
    }
    r := null;
  }

  function ProtOf(f: Flags): Prot {
    Prot(f.r, f.w, f.x)
  }

  /** A stack, or a page that would be both writable and executable, now or across the change. */
  predicate Refused(f: Flags, prot: Prot) {
    f.down || (ProtOf(f) != prot && ((prot.w && prot.x) || (prot.w && f.x) || (prot.x && f.w)))
  }

  /** The flags that mmap_protect stores; all others are dropped. */
  function NewFlags(prot: Prot): Flags {
    Flags(prot.r, prot.w, prot.x, false, false, false, false)
  }

  /** How far mmap_protect gets: arguments refused, no region covers the range, a stack or a forbidden combination,
      nothing to do, or a change. */
  datatype Verdict = BadArguments | NotCovered | Forbidden | NothingToDo | Changes

  ghost function ProtectVerdict(rs: seq<Region>, limit: nat, addr: nat, len: nat, prot: Prot, k: nat): Verdict
    requires addr < WORD && len < WORD
  {
    if len == 0 || addr % PAGE != 0 || len % PAGE != 0 then BadArguments
    else if addr > limit || !Covered(rs, addr, Wrap(addr + len - 1)) then NotCovered
    else if k < |rs| && Refused(rs[k].flags, prot) then Forbidden
    else if k < |rs| && ProtOf(rs[k].flags) == prot then NothingToDo
    else Changes
  }

  /** mmap_protect: region k holds addr.  The addresses [addr, addr + len) get the new protection and no
      others, unless addr + len - 1 wraps around: then the whole region does.  pages: what the change of the page
      tables returns; when it fails, the regions have changed nevertheless. */
  method Protect(m: MMap, addr: nat, len: nat, prot: Prot, pages: Err) returns (err: Err, ghost k: nat)
    requires m.Valid() && addr < WORD && len < WORD
    modifies m, m.nodes
    ensures m.Valid() && OldOrNew(m)
    ensures var v := ProtectVerdict(old(m.rs), m.limit, addr, len, prot, k);
            && err == (match v case BadArguments => EINVAL case NotCovered => ENOMEM case Forbidden => EACCES
                               case NothingToDo => OK case Changes => pages)
            && (v.BadArguments? || v.NotCovered? || (k < |old(m.rs)| && old(m.rs)[k].Has(addr)))
            && (!v.Changes? ==> m.Same())
            && (v.Changes? ==> forall a, f ::
                  Maps(m.rs, a, f) <==>
                    if (if addr + len <= WORD then addr <= a < addr + len else old(m.rs)[k].Has(a)) then f == NewFlags(prot)
                    else Maps(old(m.rs), a, f))
  {
    k := 0;
    if len == 0 {
      return EINVAL, 0;
    }
    var end := Wrap(addr + len - 1);
    if addr % PAGE != 0 || len % PAGE != 0 {
      return EINVAL, 0;
    }
    if addr > m.limit {
      return ENOMEM, 0;
    }
    var r;
    r, k := FindOverlap(m, addr, end);
    if r == null {
      return ENOMEM, 0;
    }
    if r.flags.down {
      return EACCES, k;
    }
    var forged := ProtOf(r.flags);
    if forged == prot {
      return OK, k;
    }
    if (prot.w && prot.x) || (prot.w && forged.x) || (prot.x && forged.w) {
      return EACCES, k;
    }
    assert Sane(m.rs, k, m.limit);
    ghost var rs, k' := m.rs, k;
    if len < r.end - r.start + 1 {
      k' := Carve(m, r, addr, end, k);
    }
    SetFlags(m, r, NewFlags(prot), k');
    return pages, k;
  }

  /** A range that wraps around is taken to lie in a region, although it starts in the middle of it. */
  lemma WrappedRangeCovered(f: Flags)
    ensures var rs := [Region(0, 3 * PAGE - 1, f)]; var addr, len := 2 * PAGE, WORD - PAGE;
            Covered(rs, addr, Wrap(addr + len - 1)) && addr + len > WORD && rs[0].start < addr
  {
    var rs := [Region(0, 3 * PAGE - 1, f)];
    assert rs[0].Has(2 * PAGE);
  }

  /** Give region k other flags. */
  method SetFlags(m: MMap, r: Vmr, flags: Flags, ghost k: nat)
    requires m.Valid() && k < |m.nodes| && m.nodes[k] == r
    modifies m`rs, r`start, r`end, r`flags
    ensures m.Valid()
    ensures forall a, f :: Maps(m.rs, a, f) <==> if old(m.rs)[k].Has(a) then f == flags else Maps(old(m.rs), a, f)
  {
    ghost var rs := m.rs;
    assert m.NodeAt(k) && Sane(rs, k, m.limit);
    assert k > 0 ==> Apart(rs, k - 1, k);
    assert k + 1 < |rs| ==> Apart(rs, k, k + 1);
    m.Update(r, k, r.start, r.end, flags);
    forall a, f ensures Maps(m.rs, a, f) <==> if rs[k].Has(a) then f == flags else Maps(rs, a, f) {
      UpdatedMaps(rs, m.limit, k, Region(rs[k].start, rs[k].end, flags), a, f);
    }
  }

  // ---- Whole address spaces ----

  /** mmap_clean: no region is left. */
  method Clean(m: MMap) returns (err: Err)
    requires m.Valid()
    modifies m, m.nodes
    ensures err == OK && m.Valid() && m.rs == [] && m.head == null && m.refs == 0
  {
    var gone;
    ghost var splits;
    err, gone, splits := Unmap(m, 0, m.limit + 1);
    if m.rs != [] {
      assert Sane(m.rs, 0, m.limit);
      assert Maps(m.rs, m.rs[0].start, m.rs[0].flags);
    }
    assert m.nodes == [];
    m.refs := 0;
    m.head, m.tail := null, null;
  }

  /** The regions of mmap_copy: dst drops what it had and gets the regions of src, on nodes of its own, as far as there is
      memory to clone them. */
  method CopyRegions(dst: MMap, src: MMap, fit: nat) returns (err: Err)
    requires src.Valid() && dst != src && dst.limit == src.limit
    modifies dst
    ensures dst.Valid() && err == if fit < |src.rs| then ENOMEM else OK
    ensures dst.rs == src.rs[..if fit < |src.rs| then fit else |src.rs|]
    ensures forall i :: 0 <= i < |dst.nodes| ==> fresh(dst.nodes[i])
  {
    dst.refs := 0;
    dst.head, dst.tail := null, null;
    dst.nodes, dst.pos, dst.rs := [], map[], [];
    var tmp := src.head;
    var i := 0;
    while tmp != null
      invariant i <= |src.nodes| && i <= fit && tmp == src.Node(i)
      invariant src.Valid() && dst.Valid() && dst.rs == src.rs[..i]
      invariant forall j :: 0 <= j < |dst.nodes| ==> fresh(dst.nodes[j])
      decreases |src.nodes| - i
    {
      if i == fit {
        return ENOMEM;
      }
      assert src.NodeAt(i);
      CloneRegion(dst, tmp.start, tmp.end, tmp.flags, src.rs, i);
      tmp := tmp.next;
      i := i + 1;
    }
    err := OK;
  }

  /** mmap_copy: the regions, and among them those that hold the arguments, the environment and the heap.  fit: how many
      regions there is memory to clone; pages: what the copy of the page tables returns, once the regions are copied. */
  method Copy(dst: MMap, src: MMap, arg: Vmr?, env: Vmr?, heap: Vmr?, fit: nat, pages: Err)
      returns (err: Err, arg': Vmr?, env': Vmr?, heap': Vmr?)
    requires src.Valid() && dst != src && dst.limit == src.limit
    requires arg in src.nodes + [null] && env in src.nodes + [null] && heap in src.nodes + [null]
    modifies dst
    ensures dst.Valid() && err == if fit < |src.rs| then ENOMEM else pages
    ensures dst.rs == src.rs[..if fit < |src.rs| then fit else |src.rs|]
    ensures fit >= |src.rs| ==> Twin(src, dst, arg, arg') && Twin(src, dst, env, env') && Twin(src, dst, heap, heap')
    ensures fit < |src.rs| ==> arg' == env' == heap' == null
    ensures forall i :: 0 <= i < |dst.nodes| ==> fresh(dst.nodes[i])
  {
    arg', env', heap' := null, null, null;
    err := CopyRegions(dst, src, fit);
    if err != OK {
      return;
    }
    assert dst.rs == src.rs;
    arg' := FindTwin(src, dst, arg);
    env' := FindTwin(src, dst, env);
    heap' := FindTwin(src, dst, heap);
    err := pages;
  }

  /** v' stands where v stands. */
  ghost predicate Twin(src: MMap, dst: MMap, v: Vmr?, v': Vmr?)
    reads src, dst
  {
    if v == null then v' == null
    else exists i :: 0 <= i < |src.nodes| == |dst.nodes| && src.nodes[i] == v && dst.nodes[i] == v'
  }

  method FindTwin(src: MMap, dst: MMap, v: Vmr?) returns (v': Vmr?)
    requires src.Valid() && dst.Valid() && dst.rs == src.rs && v in src.nodes + [null]
    ensures Twin(src, dst, v, v')
  {
    if v == null {
      return null;
    }
    ghost var i: nat :| i < |src.nodes| && src.nodes[i] == v;
    assert src.NodeAt(i) && Sane(src.rs, i, src.limit);
    ghost var k;
    v', k := dst.Find(v.start);
    assert src.rs[i].Has(v.start);
    if k != i {
      DistinctHas(src.rs, src.limit, k, i, v.start);
    }
  }

  /** The first region of every address space: the lowest addresses, without any right. */
  const FIRST_LEN: nat := 0x1000000
  const FIRST_PROT := Prot(false, false, false)
  const FIRST_FLAGS := MapFlags(true, false, true, false, false, true)

  /** mmap_alloc and mmap_init: an address space with its first region.  root: what making the root table returns; room:
      whether there is memory for the descriptor. */
  method Alloc(limit: nat, root: Err, room: bool) returns (err: Err, m: MMap?)
    requires limit < WORD / 2
    ensures err == if root != OK then root else if !room then ENOMEM else if FIRST_LEN - 1 <= limit then OK else EINVAL
    ensures m == null <==> err != OK
    ensures err == OK ==> fresh(m) && m.Valid() && m.limit == limit && forall a, f ::
              Maps(m.rs, a, f) <==> 0 <= a < FIRST_LEN && f == VmFlags(FIRST_PROT, FIRST_FLAGS)
  {
    if root != OK {
      return root, null;
    }
    if !room {
      return ENOMEM, null;
    }
    var mmap := new MMap(limit);
    err := Clean(mmap);
    var r;
    err, r := MapRegion(mmap, 0, FIRST_LEN, FIRST_PROT, FIRST_FLAGS);
    m := if err == OK then mmap else null;
  }

  /** vmr_clone and mmap_mapin of region i behind the regions before it. */
  method CloneRegion(dst: MMap, start: nat, end: nat, flags: Flags, ghost rs: seq<Region>, ghost i: nat)
    requires dst.Valid() && Sorted(rs, dst.limit) && i < |rs| && dst.rs == rs[..i] && rs[i] == Region(start, end, flags)
    modifies dst, dst.nodes
    ensures dst.Valid() && OldOrNew(dst) && dst.rs == rs[..i + 1]
  {
    AppendOne(rs, dst.limit, i);
    var vmr := new Vmr(start, end, flags);
    var err;
    ghost var ns, k := dst.nodes, 0;
    err, k := dst.MapIn(vmr);
    OnePlace(rs[..i], dst.limit, k, i, rs[i]);
    forall j: nat | j < |dst.nodes| ensures dst.nodes[j] == vmr || dst.nodes[j] in ns {
      InsertedAt(ns, k, vmr, j);
    }
  }

  /** Behind the regions before it, region i is free. */
  lemma AppendOne(rs: seq<Region>, limit: nat, i: nat)
    requires Sorted(rs, limit) && i < |rs|
    ensures FreeRange(rs[..i], rs[i].start, rs[i].Size()) && Sane(rs, i, limit)
    ensures i > 0 ==> rs[i - 1].end < rs[i].start
  {
    assert Sane(rs, i, limit);
    assert i > 0 ==> Apart(rs, i - 1, i);
    forall x | rs[i].start <= x <= rs[i].end ensures !Mapped(rs[..i], x) {
      forall j: nat | j < i ensures !rs[..i][j].Has(x) {
        DistinctHas(rs, limit, j, i, x);
      }
    }
  }
}
