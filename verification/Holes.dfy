/** The searches for room in an address space: mmap_find_hole and mmap_find_holeat (kernel/mm/mmap.c). */
module Holes {
  import opened Regions
  import opened AddressSpace

  // ---- Gaps: gap i lies before region i; the last gap reaches to the limit ----

  ghost function Lo(rs: seq<Region>, i: nat): nat
    requires i <= |rs|
  {
    if i == 0 then 0 else rs[i - 1].end + 1
  }

  ghost function Hi(rs: seq<Region>, limit: nat, i: nat): nat
    requires i <= |rs|
  {
    if i == |rs| then limit + 1 else rs[i].start
  }

  ghost function Gap(rs: seq<Region>, limit: nat, i: nat): int
    requires i <= |rs|
  {
    Hi(rs, limit, i) - Lo(rs, i)
  }

  /** Everything between the bounds of a gap is free. */
  lemma GapIsFree(rs: seq<Region>, limit: nat, i: nat, x: int)
    requires Sorted(rs, limit) && i <= |rs| && Lo(rs, i) <= x < Hi(rs, limit, i)
    ensures !Mapped(rs, x)
  {
    forall j: nat | j < |rs| ensures !rs[j].Has(x) {
      if j + 1 < i {
        assert Apart(rs, j, i - 1) && Sane(rs, i - 1, limit);
      }
      if i < j {
        assert Apart(rs, i, j) && Sane(rs, i, limit);
      }
    }
  }

  lemma GapFits(rs: seq<Region>, limit: nat, i: nat, a: int, n: int)
    requires Sorted(rs, limit) && i <= |rs| && Lo(rs, i) <= a && a + n <= Hi(rs, limit, i)
    ensures Fits(rs, limit, a, n)
  {
    assert i < |rs| ==> Sane(rs, i, limit);
    forall x | a <= x < a + n ensures !Mapped(rs, x) {
      GapIsFree(rs, limit, i, x);
    }
  }

  /** A range that fits lies inside one gap. */
  lemma FitsInGap(rs: seq<Region>, limit: nat, a: int, n: int) returns (i: nat)
    requires Sorted(rs, limit) && Fits(rs, limit, a, n) && n > 0
    ensures i <= |rs| && Lo(rs, i) <= a && a + n <= Hi(rs, limit, i)
  {
    var r := Region(a, a + n - 1, Flags(false, false, false, false, false, false, false));
    i := 0;
    while i < |rs| && rs[i].start < a
      invariant i <= |rs| && forall j :: 0 <= j < i ==> rs[j].start < a
    {
      i := i + 1;
    }
    FreeIsBetween(rs, limit, i, r);
  }

  /** Later gaps lie higher. */
  lemma GapsAscend(rs: seq<Region>, limit: nat, i: nat, j: nat)
    requires Sorted(rs, limit) && i <= j <= |rs|
    ensures Lo(rs, i) <= Lo(rs, j) && Hi(rs, limit, i) <= Hi(rs, limit, j)
  {
    if i < j {
      if i > 0 {
        assert Apart(rs, i - 1, j - 1) && Sane(rs, j - 1, limit);
      }
      assert Sane(rs, i, limit);
      if j < |rs| {
        assert Apart(rs, i, j) && Sane(rs, i, limit);
      }
    }
  }

  lemma GapBounds(rs: seq<Region>, limit: nat, i: nat)
    requires Sorted(rs, limit) && i <= |rs|
    ensures 0 <= Gap(rs, limit, i) && Hi(rs, limit, i) <= limit + 1
  {
    if i > 0 {
      assert Sane(rs, i - 1, limit);
    }
    if i < |rs| {
      assert Sane(rs, i, limit);
      if i > 0 {
        assert Apart(rs, i - 1, i);
      }
    }
  }

  /** What mmap_holesize reports at the bottom of a gap is the size of the gap. */
  lemma HoleIsGap(rs: seq<Region>, limit: nat, i: nat, n: nat)
    requires Sorted(rs, limit) && i <= |rs|
    requires n == 0 ==> Lo(rs, i) > limit || Mapped(rs, Lo(rs, i))
    requires n > 0 ==> FreeRange(rs, Lo(rs, i), n) && Lo(rs, i) + n <= limit + 1
    requires n > 0 ==> Lo(rs, i) + n == limit + 1 || Mapped(rs, Lo(rs, i) + n)
    ensures n == Gap(rs, limit, i)
  {
    GapBounds(rs, limit, i);
    var lo := Lo(rs, i);
    if n < Gap(rs, limit, i) {
      GapIsFree(rs, limit, i, lo + n);
    } else if i < |rs| {
      assert Sane(rs, i, limit);
      if lo <= rs[i].start < lo + n {
        FreeNotIn(rs, lo, n, i, rs[i].start);
      }
    }
  }

  // ---- The scans ----

  datatype Whence = FromStart | FromEnd

  /** Gaps k + 1, k + 2, ... in ascending order, from region k on. */
  method ScanUp(m: MMap, near: Vmr?, size: nat, ghost k: nat) returns (found: bool, addr: nat, ghost i: nat)
    requires m.Valid() && size > 0 && k <= |m.nodes| && near == m.Node(k)
    ensures found ==> k < i <= |m.rs| && Gap(m.rs, m.limit, i) >= size && addr == Lo(m.rs, i)
    ensures forall j :: k < j <= |m.rs| && (found ==> j < i) ==> Gap(m.rs, m.limit, j) < size
  {
    var tmp := near;
    i := k;
    addr := 0;
    while tmp != null
      invariant k <= i <= |m.nodes| && tmp == m.Node(i)
      invariant forall j :: k < j <= i ==> Gap(m.rs, m.limit, j) < size
      decreases |m.nodes| - i
    {
      assert m.NodeAt(i);
      if tmp.next != null {
        assert m.NodeAt(i + 1) && Apart(m.rs, i, i + 1);
        var holesz := tmp.next.start - (tmp.end + 1);
        if holesz >= size {
          return true, tmp.end + 1, i + 1;
        }
        tmp := tmp.next;
        i := i + 1;
      } else {
        var err, holesz := m.HoleSize(tmp.end + 1);
        HoleIsGap(m.rs, m.limit, i + 1, holesz);
        if holesz >= size {
          return true, tmp.end + 1, i + 1;
        }
        return false, 0, i;
      }
    }
    return false, 0, i;
  }

  /** Gaps k, k - 1, ..., 0 in descending order.  The gap below a first region at address 1 is passed over. */
  method ScanDown(m: MMap, near: Vmr?, size: nat, ghost k: int) returns (found: bool, addr: nat, ghost i: nat)
    requires m.Valid() && size > 0 && -1 <= k < |m.nodes| && near == m.Node(k)
    ensures found ==> i <= k && Gap(m.rs, m.limit, i) >= size && addr == Hi(m.rs, m.limit, i) - size
    ensures forall j: nat :: j <= k && (found ==> j > i) ==> Gap(m.rs, m.limit, j) < size || Overlooked(m.rs, j, size)
    ensures found ==> !Overlooked(m.rs, i, size)
  {
    var tmp := near;
    addr, i := 0, 0;
    ghost var c := k;
    while tmp != null
      invariant -1 <= c <= k && tmp == m.Node(c)
      invariant forall j: nat :: c < j <= k ==> Gap(m.rs, m.limit, j) < size || Overlooked(m.rs, j, size)
      decreases c
    {
      assert m.NodeAt(c) && Sane(m.rs, c, m.limit);
      if tmp.prev != null {
        assert m.NodeAt(c - 1) && Apart(m.rs, c - 1, c);
        var holesz := tmp.start - (tmp.prev.end + 1);
        if holesz >= size {
          return true, tmp.start - size, c;
        }
      } else if Wrap(tmp.start - 1) > 0 {
        var holesz := tmp.start;
        if holesz >= size {
          return true, tmp.start - size, c;
        }
      }
      tmp := tmp.prev;
      c := c - 1;
    }
    return false, 0, 0;
  }

  /** The one gap that the descending scan does not see: address 0 alone. */
  ghost predicate Overlooked(rs: seq<Region>, i: nat, size: nat) {
    i == 0 && size == 1 && rs != [] && rs[0].start == 1
  }

  // ---- From gaps back to addresses ----

  /** a is the lowest place for n addresses. */
  ghost predicate Lowest(rs: seq<Region>, limit: nat, a: int, n: int) {
    Fits(rs, limit, a, n) && forall b :: Fits(rs, limit, b, n) ==> a <= b
  }

  ghost predicate Highest(rs: seq<Region>, limit: nat, a: int, n: int) {
    Fits(rs, limit, a, n) && forall b :: Fits(rs, limit, b, n) ==> b <= a
  }

  /** No place for n addresses, except that the search from the end does not see address 0 below a
      region that starts at 1. */
  ghost predicate NoRoom(rs: seq<Region>, limit: nat, n: nat, whence: Whence) {
    forall b :: Fits(rs, limit, b, n) ==> whence == FromEnd && n == 1 && b == 0 && Mapped(rs, 1)
  }

  lemma LowestGap(rs: seq<Region>, limit: nat, i: nat, n: nat)
    requires Sorted(rs, limit) && i <= |rs| && 0 < n <= Gap(rs, limit, i)
    requires forall j :: 0 <= j < i ==> Gap(rs, limit, j) < n
    ensures Lowest(rs, limit, Lo(rs, i), n)
  {
    GapFits(rs, limit, i, Lo(rs, i), n);
    forall b | Fits(rs, limit, b, n) ensures Lo(rs, i) <= b {
      var j := FitsInGap(rs, limit, b, n);
      assert Gap(rs, limit, j) >= n;
      GapsAscend(rs, limit, i, j);
    }
  }

  lemma HighestGap(rs: seq<Region>, limit: nat, i: nat, n: nat)
    requires Sorted(rs, limit) && i <= |rs| && 0 < n <= Gap(rs, limit, i)
    requires forall j: nat :: i < j <= |rs| ==> Gap(rs, limit, j) < n
    ensures Highest(rs, limit, Hi(rs, limit, i) - n, n)
  {
    GapFits(rs, limit, i, Hi(rs, limit, i) - n, n);
    forall b | Fits(rs, limit, b, n) ensures b <= Hi(rs, limit, i) - n {
      var j := FitsInGap(rs, limit, b, n);
      assert Gap(rs, limit, j) >= n;
      GapsAscend(rs, limit, j, i);
    }
  }

  lemma NoGap(rs: seq<Region>, limit: nat, n: nat, whence: Whence)
    requires Sorted(rs, limit) && n > 0
    requires forall j: nat :: j <= |rs| ==> Gap(rs, limit, j) < n || (whence == FromEnd && Overlooked(rs, j, n))
    ensures NoRoom(rs, limit, n, whence)
  {
    forall b | Fits(rs, limit, b, n) ensures whence == FromEnd && n == 1 && b == 0 && Mapped(rs, 1) {
      var j := FitsInGap(rs, limit, b, n);
      assert Gap(rs, limit, j) >= n;
      assert Sane(rs, 0, limit) && rs[0].Has(1);
    }
  }

  /** A gap that is not overlooked is room. */
  lemma SeenGap(rs: seq<Region>, limit: nat, i: nat, n: nat)
    requires Sorted(rs, limit) && i <= |rs| && 0 < n <= Gap(rs, limit, i) && !Overlooked(rs, i, n)
    ensures !NoRoom(rs, limit, n, FromEnd)
  {
    var b := Hi(rs, limit, i) - n;
    GapFits(rs, limit, i, b, n);
    assert i > 0 ==> Sane(rs, i - 1, limit);
  }

  lemma LastIsHighest(rs: seq<Region>, limit: nat, n: nat)
    requires Sorted(rs, limit) && 0 < n <= limit + 1 && FreeRange(rs, limit + 1 - n, n)
    ensures Highest(rs, limit, limit + 1 - n, n) && !NoRoom(rs, limit, n, FromEnd)
  {
    assert Fits(rs, limit, limit + 1 - n, n);
    if Mapped(rs, 1) {
      var j :| 0 <= j < |rs| && rs[j].Has(1);
      assert Sane(rs, j, limit);
    }
  }

  /** The search from the end misses a hole that the search from the start finds. */
  lemma AddressZeroIsMissed(limit: nat, f: Flags)
    requires limit > 0
    ensures var rs := [Region(1, limit, f)];
            Sorted(rs, limit) && Lowest(rs, limit, 0, 1) && NoRoom(rs, limit, 1, FromEnd)
  {
    var rs := [Region(1, limit, f)];
    assert Sorted(rs, limit);
    NoGap(rs, limit, 1, FromEnd);
    LowestGap(rs, limit, 0, 1);
  }

  /** mmap_find_hole: the lowest or the highest place for size addresses. */
  method FindHole(m: MMap, size: nat, whence: Whence) returns (err: Err, addr: nat)
    requires m.Valid() && size < WORD
    ensures err in {OK, EINVAL, ENOMEM} && (err == EINVAL <==> size == 0)
    ensures err == OK && whence == FromStart ==> Lowest(m.rs, m.limit, addr, size)
    ensures err == OK && whence == FromEnd ==> Highest(m.rs, m.limit, addr, size)
    ensures err == ENOMEM <==> size > 0 && NoRoom(m.rs, m.limit, size, whence)
  {
    if size == 0 {
      return EINVAL, 0;
    }
    var e, holesz, found;
    ghost var i;
    if whence == FromStart {
      e, holesz := m.HoleSize(0);
      HoleIsGap(m.rs, m.limit, 0, holesz);
      if holesz >= size {
        LowestGap(m.rs, m.limit, 0, size);
        return OK, 0;
      }
      found, addr, i := ScanUp(m, m.head, size, 0);
      if found {
        LowestGap(m.rs, m.limit, i, size);
        return OK, addr;
      }
    } else {
      e, holesz := m.HoleSize(Wrap(m.limit + 1 - size));
      if holesz >= size {
        LastIsHighest(m.rs, m.limit, size);
        return OK, Wrap(m.limit + 1 - size);
      }
      LastGap(m.rs, m.limit, size, holesz);
      found, addr, i := ScanDown(m, m.tail, size, |m.nodes| - 1);
      if found {
        HighestGap(m.rs, m.limit, i, size);
        SeenGap(m.rs, m.limit, i, size);
        return OK, addr;
      }
    }
    NoGap(m.rs, m.limit, size, whence);
    return ENOMEM, 0;
  }

  /** When the hole size addresses below the limit is too short, so is the last gap. */
  lemma LastGap(rs: seq<Region>, limit: nat, size: nat, holesz: nat)
    requires Sorted(rs, limit) && 0 < size && holesz < size
    requires size <= limit + 1 && !Mapped(rs, limit + 1 - size) ==>
               holesz > 0 && limit + 1 - size + holesz < limit + 1 && Mapped(rs, limit + 1 - size + holesz)
    ensures Gap(rs, limit, |rs|) < size
  {
    if Gap(rs, limit, |rs|) >= size {
      GapIsFree(rs, limit, |rs|, limit + 1 - size);
      GapIsFree(rs, limit, |rs|, limit + 1 - size + holesz);
    }
  }

  // ---- The search near a hint ----

  /** How many regions start at or below a. */
  ghost function StartingBy(rs: seq<Region>, a: int): (k: nat)
    ensures k <= |rs|
  {
    if rs == [] then 0 else if rs[|rs| - 1].start <= a then |rs| else StartingBy(rs[..|rs| - 1], a)
  }

  lemma {:induction false} SplitIsStartingBy(rs: seq<Region>, k: nat, a: int)
    requires SplitAt(rs, k, a)
    ensures k == StartingBy(rs, a)
  {
    if k < |rs| {
      SplitIsStartingBy(rs[..|rs| - 1], k, a);
    }
  }

  /** How many regions end before a. */
  ghost function EndingBefore(rs: seq<Region>, a: int): (k: nat)
    ensures k <= |rs|
  {
    if rs == [] then 0 else if rs[|rs| - 1].end < a then |rs| else EndingBefore(rs[..|rs| - 1], a)
  }

  lemma {:induction false} EndsIsEndingBefore(rs: seq<Region>, k: nat, a: int)
    requires EndsAt(rs, k, a)
    ensures k == EndingBefore(rs, a)
  {
    if k < |rs| {
      EndsIsEndingBefore(rs[..|rs| - 1], k, a);
    }
  }

  /** The first gap that the search upwards from addr looks at: the one below the first region that starts above addr;
      when there is no such region, or it is the first of all, the one above the first of all. */
  ghost function UpFrom(rs: seq<Region>, addr: nat): nat {
    var k := StartingBy(rs, addr);
    if addr == 0 || k == 0 || k == |rs| then 1 else k
  }

  /** The first gap that the search downwards from addr looks at: the one above the last region that ends below addr;
      when there is no such region, the last of all. */
  ghost function DownFrom(rs: seq<Region>, addr: nat): (g: nat)
    ensures g <= |rs|
  {
    var k := EndingBefore(rs, addr);
    if addr == 0 || k == 0 then |rs| else k
  }

  /** Gap i is the first from gap g on that is large enough. */
  ghost predicate FirstFit(rs: seq<Region>, limit: nat, g: nat, n: nat, i: nat) {
    g <= i <= |rs| && Gap(rs, limit, i) >= n && forall j: nat :: g <= j < i ==> Gap(rs, limit, j) < n
  }

  /** Gap i is the last up to gap g that is large enough and seen. */
  ghost predicate LastFit(rs: seq<Region>, limit: nat, g: nat, n: nat, i: nat) {
    && i <= g <= |rs| && Gap(rs, limit, i) >= n && !Overlooked(rs, i, n)
    && forall j: nat :: i < j <= g ==> Gap(rs, limit, j) < n || Overlooked(rs, j, n)
  }

  /** The place that the search upwards chooses: addr itself if there is room; else the bottom of the first gap from
      UpFrom on; else the lowest place of all. */
  ghost predicate ChosenUp(rs: seq<Region>, limit: nat, addr: nat, n: nat, place: nat) {
    if Fits(rs, limit, addr, n) then place == addr
    else
      || (exists i: nat :: FirstFit(rs, limit, UpFrom(rs, addr), n, i) && place == Lo(rs, i))
      || (NoneUp(rs, limit, UpFrom(rs, addr), n) && Lowest(rs, limit, place, n))
  }

  ghost predicate NoneUp(rs: seq<Region>, limit: nat, g: nat, n: nat) {
    forall j: nat :: g <= j <= |rs| ==> Gap(rs, limit, j) < n
  }

  /** The place that the search downwards chooses: the top of the last gap from DownFrom down; else the highest place
      of all. */
  ghost predicate ChosenDown(rs: seq<Region>, limit: nat, addr: nat, n: nat, place: nat) {
    || (exists i: nat :: LastFit(rs, limit, DownFrom(rs, addr), n, i) && place == Hi(rs, limit, i) - n)
    || (NoneDown(rs, limit, DownFrom(rs, addr), n) && Highest(rs, limit, place, n))
  }

  ghost predicate NoneDown(rs: seq<Region>, limit: nat, g: nat, n: nat) {
    forall j: nat :: j <= g && j <= |rs| ==> Gap(rs, limit, j) < n || Overlooked(rs, j, n)
  }

  /** The place that a search from whence near addr chooses for n addresses. */
  ghost predicate Chosen(rs: seq<Region>, limit: nat, addr: nat, n: nat, whence: Whence, place: nat) {
    if whence == FromStart then ChosenUp(rs, limit, addr, n, place) else ChosenDown(rs, limit, addr, n, place)
  }

  /** Without a hint the search upwards gives the lowest place. */
  lemma ChosenUpIsLowest(rs: seq<Region>, limit: nat, n: nat, place: nat)
    requires Sorted(rs, limit) && n > 0 && ChosenUp(rs, limit, 0, n, place)
    ensures Lowest(rs, limit, place, n)
  {
    if Fits(rs, limit, 0, n) {
    } else if NoneUp(rs, limit, 1, n) && Lowest(rs, limit, place, n) {
    } else {
      var i: nat :| FirstFit(rs, limit, 1, n, i) && place == Lo(rs, i);
      if Gap(rs, limit, 0) >= n {
        GapFits(rs, limit, 0, 0, n);
      }
      LowestGap(rs, limit, i, n);
    }
  }

  /** Without a hint the search downwards gives the highest place. */
  lemma ChosenDownIsHighest(rs: seq<Region>, limit: nat, n: nat, place: nat)
    requires Sorted(rs, limit) && n > 0 && ChosenDown(rs, limit, 0, n, place)
    ensures Highest(rs, limit, place, n)
  {
    if !(NoneDown(rs, limit, |rs|, n) && Highest(rs, limit, place, n)) {
      var i: nat :| LastFit(rs, limit, |rs|, n, i) && place == Hi(rs, limit, i) - n;
      HighestGap(rs, limit, i, n);
    }
  }

  /** mmap_find_holeat: room near addr. */
  method FindHoleAt(m: MMap, addr: nat, size: nat, whence: Whence) returns (err: Err, place: nat)
    requires m.Valid() && size < WORD
    ensures err in {OK, EINVAL, ENOMEM} && (err == EINVAL <==> size == 0)
    ensures err == OK ==> Fits(m.rs, m.limit, place, size) && Chosen(m.rs, m.limit, addr, size, whence, place)
    ensures err == ENOMEM <==> size > 0 && NoRoom(m.rs, m.limit, size, whence)
  {
    if size == 0 {
      return EINVAL, 0;
    }
    var found;
    if whence == FromStart {
      found, place := NearUp(m, addr, size);
    } else {
      found, place := NearDown(m, addr, size);
    }
    if found {
      return OK, place;
    }
    err, place := FindHole(m, size, whence);
  }

  method NearUp(m: MMap, addr: nat, size: nat) returns (found: bool, place: nat)
    requires m.Valid() && 0 < size < WORD
    ensures found ==> Fits(m.rs, m.limit, place, size) && ChosenUp(m.rs, m.limit, addr, size, place)
    ensures !found ==> !Fits(m.rs, m.limit, addr, size) && NoneUp(m.rs, m.limit, UpFrom(m.rs, addr), size)
  {
    var v, near: Vmr?, e, holesz;
    ghost var k: nat, i := 0, 0;
    near := null;
    if addr != 0 {
      v, near, k := m.FindNext(addr);
      SplitIsStartingBy(m.rs, k, addr);
    }
    e, holesz := m.HoleSize(addr);
    if holesz >= size {
      return true, addr;
    }
    NotHere(m.rs, m.limit, addr, size, holesz);
    if near == null {
      near := m.head;
      k := 0;
    }
    found, place, i := SearchUp(m, near, size, k);
  }

  /** The gap below the region near, and then those above it. */
  method SearchUp(m: MMap, near: Vmr?, size: nat, ghost k: nat) returns (found: bool, place: nat, ghost i: nat)
    requires m.Valid() && 0 < size < WORD && near == m.Node(k) && (near == null ==> k == 0)
    ensures found ==> FirstFit(m.rs, m.limit, if k == 0 then 1 else k, size, i) && place == Lo(m.rs, i)
    ensures found ==> Fits(m.rs, m.limit, place, size)
    ensures !found ==> NoneUp(m.rs, m.limit, if k == 0 then 1 else k, size)
  {
    i := k;
    assert near != null ==> m.NodeAt(k);
    if near != null && near.prev != null {
      assert m.NodeAt(k - 1) && Apart(m.rs, k - 1, k);
      var holesz := near.start - (near.prev.end + 1);
      if holesz >= size {
        GapFits(m.rs, m.limit, k, Lo(m.rs, k), size);
        return true, near.prev.end + 1, k;
      }
    }
    found, place, i := ScanUp(m, near, size, k);
    if found {
      GapFits(m.rs, m.limit, i, place, size);
    }
  }

  /** A hole shorter than size at addr leaves no room there. */
  lemma NotHere(rs: seq<Region>, limit: nat, addr: nat, size: nat, holesz: nat)
    requires 0 < size && holesz < size
    requires addr <= limit && !Mapped(rs, addr) ==> addr + holesz == limit + 1 || Mapped(rs, addr + holesz)
    ensures !Fits(rs, limit, addr, size)
  {
  }

  method NearDown(m: MMap, addr: nat, size: nat) returns (found: bool, place: nat)
    requires m.Valid() && 0 < size < WORD
    ensures found ==> Fits(m.rs, m.limit, place, size) && !NoRoom(m.rs, m.limit, size, FromEnd)
    ensures found ==> ChosenDown(m.rs, m.limit, addr, size, place)
    ensures !found ==> NoneDown(m.rs, m.limit, DownFrom(m.rs, addr), size)
  {
    var v, near: Vmr?, e, holesz;
    ghost var k: nat, i := 0, 0;
    near := null;
    if addr != 0 {
      v, near, k := m.FindPrev(addr);
      EndsIsEndingBefore(m.rs, k, addr);
    }
    if near == null {
      near := m.tail;
      k := |m.nodes|;
    }
    if near == null {
      e, holesz := m.HoleSize(Wrap(m.limit + 1 - size));
      if holesz >= size {
        LastIsHighest(m.rs, m.limit, size);
        assert LastFit(m.rs, m.limit, 0, size, 0);
        return true, Wrap(m.limit + 1 - size);
      }
      LastGap(m.rs, m.limit, size, holesz);
      return false, 0;
    }
    found, place, i := SearchDown(m, near, size, k);
  }

  /** The gap above the region near, and then those below it. */
  method SearchDown(m: MMap, near: Vmr, size: nat, ghost k: nat) returns (found: bool, place: nat, ghost i: nat)
    requires m.Valid() && 0 < size < WORD && 0 < k <= |m.nodes| && near == m.Node(k - 1)
    ensures found ==> LastFit(m.rs, m.limit, k, size, i) && place == Hi(m.rs, m.limit, i) - size
    ensures found ==> Fits(m.rs, m.limit, place, size) && !NoRoom(m.rs, m.limit, size, FromEnd)
    ensures !found ==> NoneDown(m.rs, m.limit, k, size)
  {
    found, place := GapAbove(m, near, size, k);
    i := k;
    if found {
      return;
    }
    found, place, i := ScanDown(m, near, size, k - 1);
    if found {
      GapFits(m.rs, m.limit, i, place, size);
      SeenGap(m.rs, m.limit, i, size);
    }
  }

  /** The gap k above the region near: its top end, if it is large enough. */
  method GapAbove(m: MMap, near: Vmr, size: nat, ghost k: nat) returns (found: bool, place: nat)
    requires m.Valid() && 0 < size < WORD && 0 < k <= |m.nodes| && near == m.Node(k - 1)
    ensures found <==> Gap(m.rs, m.limit, k) >= size
    ensures found ==> place == Hi(m.rs, m.limit, k) - size
    ensures found ==> Fits(m.rs, m.limit, place, size) && !NoRoom(m.rs, m.limit, size, FromEnd)
  {
    assert m.NodeAt(k - 1);
    var e, holesz;
    if near.next != null {
      assert m.NodeAt(k) && Apart(m.rs, k - 1, k);
      holesz := near.next.start - (near.end + 1);
      if holesz < size {
        return false, 0;
      }
      place := near.next.start - size;
    } else {
      e, holesz := m.HoleSize(near.end + 1);
      HoleIsGap(m.rs, m.limit, k, holesz);
      if holesz > size {
        place := near.end + 1 + holesz - size;
      } else if holesz == size {
        place := near.end + 1;
      } else {
        return false, 0;
      }
    }
    GapFits(m.rs, m.limit, k, place, size);
    SeenGap(m.rs, m.limit, k, size);
    return true, place;
  }
}
