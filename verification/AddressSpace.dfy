/** The address-space manager (kernel/mm/mmap.c): a doubly linked list of memory regions. */
module AddressSpace {
  import opened Regions

  datatype Err = OK | EINVAL | EEXIST | ENOENT | ENOMEM | EACCES

  /** uintptr_t and size_t arithmetic. */
  const WORD: int := 0x1_0000_0000_0000_0000

  function Wrap(x: int): (r: nat)
    requires -WORD <= x < 2 * WORD
  {
    if x < 0 then x + WORD else if x < WORD then x else x - WORD
  }

  class Vmr {
    var start: nat
    var end: nat
    var flags: Flags
    var prev: Vmr?
    var next: Vmr?

    constructor (start: nat, end: nat, flags: Flags)
      ensures this.start == start && this.end == end && this.flags == flags && prev == null && next == null
    {
      this.start, this.end, this.flags, this.prev, this.next := start, end, flags, null, null;
    }

    ghost function R(): Region
      reads this`start, this`end, this`flags
    {
      Region(start, end, flags)
    }
  }

  /** Positions after r has been inserted at k. */
  ghost function Shifted(pos: map<Vmr, nat>, r: Vmr, k: nat): (p: map<Vmr, nat>) {
    map n | n in pos.Keys + {r} :: if n == r then k else if pos[n] < k then pos[n] else pos[n] + 1
  }

  /** Positions after the node at k has been taken out. */
  ghost function Closed(pos: map<Vmr, nat>, k: nat): (p: map<Vmr, nat>) {
    map n | n in pos :: if pos[n] <= k then pos[n] else pos[n] - 1
  }

  /** Element i, or null outside the sequence. */
  ghost function At(ns: seq<Vmr>, i: int): (n: Vmr?)
    ensures 0 <= i < |ns| ==> n != null && n == ns[i]
    ensures n != null ==> 0 <= i < |ns|
  {
    if 0 <= i < |ns| then ns[i] else null
  }

  lemma NeighboursAfterInsert(ns: seq<Vmr>, r: Vmr, k: nat, i: nat)
    requires k <= |ns| && i <= |ns|
    ensures |Inserted(ns, k, r)| == |ns| + 1
    ensures Inserted(ns, k, r)[i] == (if i < k then ns[i] else if i == k then r else ns[i - 1])
    ensures At(Inserted(ns, k, r), i - 1) ==
            if i <= k then At(ns, i - 1) else if i - 1 == k then r else At(ns, i - 2)
    ensures At(Inserted(ns, k, r), i + 1) ==
            if i + 1 < k then At(ns, i + 1) else if i + 1 == k then r else At(ns, i)
  {
  }

  lemma NeighboursAfterRemove(ns: seq<Vmr>, k: nat, i: nat)
    requires k < |ns| && i + 1 < |ns|
    ensures |Removed(ns, k)| == |ns| - 1
    ensures Removed(ns, k)[i] == ns[if i < k then i else i + 1]
    ensures At(Removed(ns, k), i - 1) == At(ns, if i <= k then i - 1 else i)
    ensures At(Removed(ns, k), i + 1) == At(ns, if i + 1 < k then i + 1 else i + 2)
  {
  }

  class MMap {
    var head: Vmr?
    var tail: Vmr?
    var refs: int
    const limit: nat
    ghost var nodes: seq<Vmr>
    ghost var pos: map<Vmr, nat>
    ghost var rs: seq<Region>

    /** mmap_alloc, before the first region is mapped. */
    constructor (limit: nat)
      requires limit < WORD / 2
      ensures Valid() && rs == [] && this.limit == limit
    {
      head, tail, refs, this.limit, nodes, pos, rs := null, null, 0, limit, [], map[], [];
    }

    /** The nodes form one doubly linked list from head to tail and hold the regions rs. */
    ghost predicate Linked()
      reads this, nodes
    {
      && |rs| == |nodes|
      && (nodes == [] ==> head == null && tail == null)
      && (nodes != [] ==> head == nodes[0] && tail == nodes[|nodes| - 1])
      && (forall i: nat {:trigger NodeAt(i)} :: i < |nodes| ==> NodeAt(i))
    }

    /** Node i knows its neighbours and its region; pos tells where it is. */
    ghost predicate NodeAt(i: nat)
      reads this`nodes, this`pos, this`rs, nodes
      requires i < |nodes| == |rs|
    {
      && nodes[i] in pos && pos[nodes[i]] == i
      && nodes[i].prev == Node(i - 1)
      && nodes[i].next == Node(i + 1)
      && nodes[i].R() == rs[i]
    }

    ghost function Node(i: int): (n: Vmr?)
      reads this`nodes
    {
      At(nodes, i)
    }

    ghost predicate Valid()
      reads this, nodes
    {
      Linked() && Sorted(rs, limit) && refs == |nodes| && limit < WORD / 2
    }

    /** mmap_contains. */
    method Contains(r: Vmr) returns (b: bool)
      requires Linked()
      ensures b <==> r in nodes
    {
      var tmp := head;
      ghost var i := 0;
      while tmp != null
        invariant i <= |nodes| && tmp == Node(i)
        invariant r !in nodes[..i]
        decreases |nodes| - i
      {
        if tmp == r {
          return true;
        }
        assert NodeAt(i);
        tmp := tmp.next;
        i := i + 1;
      }
      assert nodes[..i] == nodes;
      return false;
    }

    /** mmap_find: the region that holds addr. */
    method Find(addr: nat) returns (v: Vmr?, ghost k: nat)
      requires Valid()
      ensures v != null ==> k < |nodes| && Node(k) == v && NodeAt(k) && rs[k].Has(addr)
      ensures v == null <==> !Mapped(rs, addr)
    {
      v := head;
      k := 0;
      while v != null
        invariant k <= |nodes| && v == Node(k)
        invariant forall j :: 0 <= j < k ==> !rs[j].Has(addr)
        decreases |nodes| - k
      {
        assert NodeAt(k);
        if addr >= v.start && addr <= v.end {
          return;
        }
        v := v.next;
        k := k + 1;
      }
    }

    /** mmap_find_exact: the region [start, end]. */
    method FindExact(start: nat, end: nat) returns (v: Vmr?, ghost k: nat)
      requires Valid()
      ensures v != null ==> k < |nodes| && Node(k) == v && NodeAt(k) && rs[k].start == start && rs[k].end == end
      ensures v == null <==> !exists f :: Region(start, end, f) in rs
    {
      v, k := Find(start);
      if v == null {
        forall i: nat | i < |rs| ensures !(rs[i].start == start && rs[i].end == end) {
          assert Sane(rs, i, limit) && !rs[i].Has(start);
        }
        return;
      }
      assert rs[k] in rs;
      if start != v.start || end != v.end {
        forall i: nat | i < |rs| ensures !(rs[i].start == start && rs[i].end == end) {
          assert Sane(rs, i, limit);
          if i != k {
            DistinctHas(rs, limit, i, k, start);
          }
        }
        return null, k;
      }
      assert rs[k] == Region(start, end, v.flags);
    }

    /** mmap_find_vmr_next: the region that holds addr, and the first one that starts after it. */
    method FindNext(addr: nat) returns (v: Vmr?, pnext: Vmr?, ghost k: nat)
      requires Valid()
      ensures v == null <==> !Mapped(rs, addr)
      ensures SplitAt(rs, k, addr) && pnext == Node(k)
      ensures v != null ==> k > 0 && nodes[k - 1] == v && rs[k - 1].Has(addr)
    {
      ghost var n;
      v, n := Find(addr);
      if v != null {
        SplitByRegion(rs, limit, n, addr);
        return v, v.next, n + 1;
      }
      pnext := head;
      k := 0;
      while pnext != null
        invariant k <= |nodes| && pnext == Node(k)
        invariant forall j :: 0 <= j < k ==> rs[j].start <= addr
        decreases |nodes| - k
      {
        assert NodeAt(k);
        if addr < pnext.start {
          SplitByStart(rs, limit, k, addr);
          return;
        }
        pnext := pnext.next;
        k := k + 1;
      }
    }

    /** mmap_find_vmr_prev: the region that holds addr, and the last one that ends before it. */
    method FindPrev(addr: nat) returns (v: Vmr?, pprev: Vmr?, ghost k: nat)
      requires Valid()
      ensures v == null <==> !Mapped(rs, addr)
      ensures EndsAt(rs, k, addr) && pprev == Node(k - 1)
      ensures v != null ==> k < |nodes| && nodes[k] == v && rs[k].Has(addr)
    {
      ghost var n;
      v, n := Find(addr);
      if v != null {
        EndsByRegion(rs, limit, n, addr);
        return v, v.prev, n;
      }
      pprev := tail;
      k := |nodes|;
      while pprev != null
        invariant k <= |nodes| && pprev == Node(k - 1)
        invariant forall j :: k <= j < |rs| ==> addr <= rs[j].end
        decreases k
      {
        assert NodeAt(k - 1);
        if pprev.end < addr {
          EndsByEnd(rs, limit, k, addr);
          return;
        }
        pprev := pprev.prev;
        k := k - 1;
      }
    }

    /** mmap_holesize: how far the hole at addr extends. */
    method HoleSize(addr: nat) returns (err: Err, len: nat)
      requires Valid()
      ensures err == OK <==> addr <= limit && !Mapped(rs, addr)
      ensures err != OK ==> err == EINVAL && len == 0
      ensures err == OK ==> len > 0 && addr + len <= limit + 1 && FreeRange(rs, addr, len)
      ensures err == OK ==> addr + len == limit + 1 || Mapped(rs, addr + len)
    {
      if addr > limit {
        return EINVAL, 0;
      }
      var v, n := Find(addr);
      if v != null {
        return EINVAL, 0;
      }
      var next;
      ghost var k;
      v, next, k := FindNext(addr);
      HoleAround(rs, limit, k, addr);
      if next == null {
        return OK, limit + 1 - addr;
      } else {
        assert NodeAt(k);
        return OK, next.start - addr;
      }
    }

    /** left, or else right, names position k. */
    ghost predicate Names(left: Vmr?, right: Vmr?, k: nat)
      reads this`nodes
    {
      k <= |nodes| && if nodes == [] then left == null && right == null
                      else if left != null then left == Node(k - 1) else right != null && right == Node(k)
    }

    /** The pointer surgery of mmap_mapin: r goes in after left, or before right when there is no left. */
    method Link(r: Vmr, left: Vmr?, right: Vmr?, ghost k: nat)
      requires Linked() && r !in nodes && Names(left, right, k)
      modifies this`head, this`tail, this`nodes, this`pos, this`rs, nodes`prev, nodes`next, r`prev, r`next
      ensures Linked() && nodes == Inserted(old(nodes), k, r) && rs == Inserted(old(rs), k, r.R())
    {
      Splice(r, left, right, k);
      ghost var ns := nodes;
      nodes, pos, rs := Inserted(ns, k, r), Shifted(pos, r, k), Inserted(rs, k, r.R());
      forall i: nat | i < |nodes| ensures NodeAt(i) {
        NeighboursAfterInsert(ns, r, k, i);
        InsertedAt(old(rs), k, r.R(), i);
        if i < k {
          assert old(NodeAt(i)) && Rewired(ns, i, r, k);
        } else if i > k {
          assert old(NodeAt(i - 1)) && Rewired(ns, i - 1, r, k);
        }
      }
    }

    method Splice(r: Vmr, left: Vmr?, right: Vmr?, ghost k: nat)
      requires Linked() && r !in nodes && Names(left, right, k)
      modifies this`head, this`tail, nodes`prev, nodes`next, r`prev, r`next
      ensures r.prev == Node(k - 1) && r.next == Node(k)
      ensures head == (if k == 0 then r else old(head)) && tail == (if k == |nodes| then r else old(tail))
      ensures forall i: nat {:trigger Rewired(nodes, i, r, k)} :: i < |nodes| ==> Rewired(nodes, i, r, k)
    {
      assert k > 0 ==> NodeAt(k - 1);
      assert k < |nodes| ==> NodeAt(k);
      r.next := null;
      r.prev := null;
      if head == null {
        head, tail := r, r;
        return;
      } else if left != null {
        r.prev := left;
        r.next := left.next;
        if left.next != null {
          left.next.prev := r;
        } else {
          tail := r;
        }
        left.next := r;
      } else if right != null {
        r.next := right;
        r.prev := right.prev;
        if right.prev != null {
          right.prev.next := r;
        } else {
          head := r;
        }
        right.prev := r;
      }
      forall i: nat | i < |nodes| ensures Rewired(nodes, i, r, k) {
        assert old(NodeAt(i));
      }
    }

    /** Node i of the list ns has been rewired for r between positions k - 1 and k. */
    twostate predicate Rewired(ns: seq<Vmr>, i: nat, r: Vmr, k: nat)
      requires i < |ns|
      reads ns
    {
      && ns[i].prev == (if i == k then r else old(ns[i].prev))
      && ns[i].next == (if i + 1 == k then r else old(ns[i].next))
      && ns[i].R() == old(ns[i].R())
    }

    /** Nothing about the list has changed. */
    twostate predicate Same()
      reads this
    {
      nodes == old(nodes) && rs == old(rs) && refs == old(refs)
    }

    /** The first loop of mmap_mapin: step from hole to hole.  Its "endless loop" panic is unreachable. */
    method Overlaps(start: nat, end: nat) returns (b: bool)
      requires Valid() && end <= limit
      ensures b <==> !FreeRange(rs, start, end - start + 1)
    {
      var addr := start;
      while addr <= end
        invariant start <= addr && FreeRange(rs, start, addr - start)
        decreases end + 1 - addr
      {
        var v, n := Find(addr);
        if v != null {
          return true;
        }
        var e, holesz := HoleSize(addr);
        FreeRangesJoin(rs, start, addr - start, holesz);
        addr := addr + holesz;
        assert holesz != 0;
      }
      return false;
    }

    /** Region k - 1 starts before start and reaches to it. */
    ghost predicate Reaches(k: nat, start: nat)
      requires k <= |rs|
      reads this`rs
    {
      k > 0 && start <= rs[k - 1].end
    }

    /** The second loop of mmap_mapin: the neighbours between which a region that starts at start belongs.  A region that
        reaches to start is passed over on the left. */
    method FindPlace(start: nat) returns (left: Vmr?, right: Vmr?, ghost k: nat)
      requires Valid()
      ensures k <= |nodes| && right == Node(k) && left == Node(if Reaches(k, start) then k - 2 else k - 1)
      ensures forall j :: 0 <= j < k ==> rs[j].start < start
      ensures k < |nodes| ==> start <= rs[k].start
    {
      left, right, k := null, head, 0;
      while right != null && right.start < start
        invariant k <= |nodes| && right == Node(k) && left == Node(if Reaches(k, start) then k - 2 else k - 1)
        invariant forall j :: 0 <= j < k ==> rs[j].start < start
        decreases |nodes| - k
      {
        assert NodeAt(k);
        if k > 0 {
          assert NodeAt(k - 1) && Apart(rs, k - 1, k) && Sane(rs, k, limit);
        }
        if right.end + 1 <= start {
          left := right;
        }
        right := right.next;
        k := k + 1;
      }
      assert k < |nodes| ==> NodeAt(k);
      if left != null {
        assert NodeAt(if Reaches(k, start) then k - 2 else k - 1);
      }
      if left != null && left.start > start {
        left := null;
      }
    }

    /** The place of a region that starts at start is lost: the only region there is starts before it and reaches to it. */
    ghost predicate Unplaced(start: nat)
      reads this`rs
    {
      |rs| == 1 && rs[0].start < start <= rs[0].end
    }

    /** mmap_mapin: insert r in its place, unless it is empty or overlaps a region.  An interval turned around (end
        before start) passes every test and breaks the list: it is linked somewhere, or counted without being linked. */
    method MapIn(r: Vmr) returns (err: Err, ghost k: nat)
      requires Valid()
      modifies this`head, this`tail, this`nodes, this`pos, this`rs, this`refs, nodes`prev, nodes`next, r`prev, r`next
      ensures err == EINVAL <==> r.end + 1 == r.start || r.end > limit
      ensures err == EEXIST <==>
              r.end + 1 != r.start && r.end <= limit && (r in old(nodes) || !FreeRange(old(rs), r.start, r.R().Size()))
      ensures err in {OK, EINVAL, EEXIST}
      ensures err != OK ==> Same()
      ensures err == OK ==> r !in old(nodes) && k <= |old(nodes)| && refs == old(refs) + 1
      ensures err == OK && !old(Unplaced(r.start)) ==>
                nodes == Inserted(old(nodes), k, r) && rs == Inserted(old(rs), k, r.R())
      ensures err == OK && old(Unplaced(r.start)) ==> r.end < r.start && nodes == old(nodes) && rs == old(rs)
      ensures err == OK && r.start <= r.end ==> Between(old(rs), k, r.R())
      ensures Linked() && (Valid() <==> err != OK || r.start <= r.end)
    {
      var left, right;
      err, left, right, k := Probe(r);
      if err == OK {
        Place(r, left, right, k);
      }
    }

    /** The tests of mmap_mapin and the search for the place of r. */
    method Probe(r: Vmr) returns (err: Err, left: Vmr?, right: Vmr?, ghost k: nat)
      requires Valid()
      ensures err == EINVAL <==> r.end + 1 == r.start || r.end > limit
      ensures err == EEXIST <==>
              r.end + 1 != r.start && r.end <= limit && (r in nodes || !FreeRange(rs, r.start, r.R().Size()))
      ensures err in {OK, EINVAL, EEXIST}
      ensures err == OK ==> r !in nodes && k <= |nodes|
      ensures err == OK ==> if Unplaced(r.start) then left == null && right == null else Names(left, right, k)
      ensures err == OK && r.start <= r.end ==> Between(rs, k, r.R()) && !Unplaced(r.start)
    {
      left, right, k := null, null, 0;
      if r.end - r.start + 1 == 0 {
        return EINVAL, null, null, 0;
      }
      if r.end > limit {
        return EINVAL, null, null, 0;
      }
      var present := Contains(r);
      if present {
        return EEXIST, null, null, 0;
      }
      var overlaps := Overlaps(r.start, r.end);
      if overlaps {
        return EEXIST, null, null, 0;
      }
      if r.start <= r.end {
        FreeEndsBefore(rs, r.R());
      }
      left, right, k := FindPlace(r.start);
      if r.start <= r.end {
        FreeIsBetween(rs, limit, k, r.R());
      }
      if k >= 2 && Reaches(k, r.start) {
        k := k - 1;
      }
      err := OK;
    }

    /** The last part of mmap_mapin, once the place is known. */
    method Place(r: Vmr, left: Vmr?, right: Vmr?, ghost k: nat)
      requires Valid() && r !in nodes && r.end <= limit && k <= |nodes|
      requires r.start <= r.end ==> Between(rs, k, r.R()) && !Unplaced(r.start)
      requires if Unplaced(r.start) then left == null && right == null else Names(left, right, k)
      modifies this`head, this`tail, this`nodes, this`pos, this`rs, this`refs, nodes`prev, nodes`next, r`prev, r`next
      ensures !old(Unplaced(r.start)) ==> nodes == Inserted(old(nodes), k, r) && rs == Inserted(old(rs), k, r.R())
      ensures old(Unplaced(r.start)) ==> nodes == old(nodes) && rs == old(rs)
      ensures Linked() && refs == old(refs) + 1 && (Valid() <==> r.start <= r.end)
    {
      ghost var rs0 := rs;
      if head != null && left == null && right == null {
        r.next, r.prev := null, null;
        refs := refs + 1;
        forall i: nat | i < |nodes| ensures NodeAt(i) {
          assert old(NodeAt(i));
        }
        return;
      }
      Link(r, left, right, k);
      refs := refs + 1;
      if r.start <= r.end {
        InsertedSorted(rs0, limit, k, r.R());
      } else {
        InsertedAt(rs0, k, r.R(), k);
        assert !Sane(rs, k, limit);
      }
    }

    /** mmap_remove. */
    method Remove(r: Vmr) returns (err: Err, ghost k: nat)
      requires Valid()
      modifies this`head, this`tail, this`nodes, this`pos, this`rs, this`refs, nodes`prev, nodes`next
      ensures Valid()
      ensures err == if r in old(nodes) then OK else ENOENT
      ensures err != OK ==> Same()
      ensures err == OK ==> k < |old(nodes)| && r == old(nodes)[k] && r in old(pos) && k == old(pos)[r]
      ensures err == OK ==> refs == old(refs) - 1
      ensures err == OK ==> nodes == Removed(old(nodes), k) && rs == Removed(old(rs), k)
    {
      k := 0;
      var present := Contains(r);
      if !present {
        return ENOENT, 0;
      }
      k :| k < |nodes| && nodes[k] == r;
      assert NodeAt(k);
      ghost var rs0 := rs;
      Unlink(r, k);
      refs := refs - 1;
      RemovedSorted(rs0, limit, k);
      return OK, k;
    }

    method Unlink(r: Vmr, ghost k: nat)
      requires Linked() && k < |nodes| && nodes[k] == r
      modifies this`head, this`tail, this`nodes, this`pos, this`rs, nodes`prev, nodes`next
      ensures Linked() && nodes == Removed(old(nodes), k) && rs == Removed(old(rs), k)
    {
      Unsplice(r, k);
      ghost var ns := nodes;
      nodes, pos, rs := Removed(ns, k), Closed(pos, k), Removed(rs, k);
      forall i: nat | i < |nodes| ensures NodeAt(i) {
        NeighboursAfterRemove(ns, k, i);
        RemovedAt(old(rs), k, i);
        if i < k {
          assert old(NodeAt(i)) && Bypassed(ns, i, k);
        } else {
          assert old(NodeAt(i + 1)) && Bypassed(ns, i + 1, k);
        }
      }
    }

    /** The pointer surgery of mmap_remove. */
    method Unsplice(r: Vmr, ghost k: nat)
      requires Linked() && k < |nodes| && nodes[k] == r
      modifies this`head, this`tail, nodes`prev, nodes`next
      ensures head == (if k == 0 then Node(1) else old(head))
      ensures tail == (if k + 1 == |nodes| then Node(k - 1) else old(tail))
      ensures forall i: nat {:trigger Bypassed(nodes, i, k)} :: i < |nodes| ==> Bypassed(nodes, i, k)
    {
      assert NodeAt(k);
      assert k > 0 ==> NodeAt(k - 1);
      assert k + 1 < |nodes| ==> NodeAt(k + 1);
      assert NodeAt(0) && NodeAt(|nodes| - 1);
      if r.prev != null {
        r.prev.next := r.next;
      }
      if r.next != null {
        r.next.prev := r.prev;
      }
      if head == r {
        head := r.next;
        if head != null {
          head.prev := null;
        }
      }
      if tail == r {
        tail := r.prev;
        if tail != null {
          tail.next := null;
        }
      }
      forall i: nat | i < |nodes| ensures Bypassed(nodes, i, k) {
        assert old(NodeAt(i));
      }
    }

    /** Node i of the list ns has been rewired around node k. */
    twostate predicate Bypassed(ns: seq<Vmr>, i: nat, k: nat)
      requires i < |ns|
      reads ns
    {
      && (i != k ==> ns[i].prev == if i == k + 1 then At(ns, k - 1) else old(ns[i].prev))
      && (i != k ==> ns[i].next == if i + 1 == k then At(ns, k + 1) else old(ns[i].next))
      && ns[i].R() == old(ns[i].R())
    }

    /** Region k gets new bounds or flags within the room its neighbours leave. */
    method Update(r: Vmr, ghost k: nat, start: nat, end: nat, flags: Flags)
      requires Valid() && k < |nodes| && nodes[k] == r && start <= end <= limit
      requires k > 0 ==> rs[k - 1].end < start
      requires k + 1 < |rs| ==> end < rs[k + 1].start
      modifies this`rs, r`start, r`end, r`flags
      ensures Valid() && rs == old(rs)[k := Region(start, end, flags)]
    {
      UpdatedSorted(rs, limit, k, Region(start, end, flags));
      assert NodeAt(k);
      r.start, r.end, r.flags := start, end, flags;
      rs := rs[k := Region(start, end, flags)];
      forall i: nat | i < |nodes| ensures NodeAt(i) {
        assert old(NodeAt(i));
      }
    }
  }

  /** An interval turned around, inside the only region there is: mmap_mapin reports success and counts it, and it is not
      in the list. */
  method CountedNotLinked(m: MMap, r: Vmr, f: Flags) returns (err: Err)
    requires m.Valid() && m.rs == [Region(0, 9, f)] && r !in m.nodes && r.start == 5 && r.end == 2
    modifies m, m.nodes, r
    ensures err == OK && m.rs == old(m.rs) && r !in m.nodes && m.refs == |m.nodes| + 1 && !m.Valid()
  {
    ghost var k;
    assert Sane(m.rs, 0, m.limit);
    err, k := m.MapIn(r);
  }
}
