/** The x86_64 page-table code (kernel/arch/x86_64/paging.c) over the frame pool. */
module Paging {
  import opened PageTree

  datatype Error = None | InvalidArgument | NotSupported | OutOfMemory

  /** iL_INV: not an index into a table. */
  predicate BadIndex(i: int) {
    i < 0 || i >= NPTE
  }

  /** The four table indices of a user address. */
  datatype Vaddr = Vaddr(i4: nat, i3: nat, i2: nat, i1: nat)

  ghost predicate UserAddress(v: Vaddr) {
    v.i4 < USER && v.i3 < NPTE && v.i2 < NPTE && v.i1 < NPTE
  }

  /** The tables on the way to an address, and its leaf entry. */
  ghost function PdptOf(root: Frame, v: Vaddr): Path { Step(Root(root), v.i4) }
  ghost function PdtOf(root: Frame, v: Vaddr): Path { Step(PdptOf(root, v), v.i3) }
  ghost function PtOf(root: Frame, v: Vaddr): Path { Step(PdtOf(root, v), v.i2) }
  ghost function PathOf(root: Frame, v: Vaddr): Path { Step(PtOf(root, v), v.i1) }

  lemma Depths(root: Frame, v: Vaddr)
    ensures Depth(PdptOf(root, v)) == 1 && Depth(PdtOf(root, v)) == 2 && Depth(PtOf(root, v)) == 3
  {
    assert Depth(Root(root)) == 0;
    assert Depth(PdptOf(root, v)) == 1;
    assert Depth(PdtOf(root, v)) == 2;
  }

  /** The tables on the way to v. */
  ghost function Way(root: Frame, v: Vaddr): set<Path> {
    {PdptOf(root, v), PdtOf(root, v), PtOf(root, v)}
  }

  /** How many of them are not among the tables k. */
  ghost function Lacking(k: set<Path>, root: Frame, v: Vaddr): nat {
    (if PdptOf(root, v) in k then 0 else 1) + (if PdtOf(root, v) in k then 0 else 1) + (if PtOf(root, v) in k then 0 else 1)
  }

  /** How many of them do not exist yet. */
  ghost function Missing(at: map<Path, Frame>, root: Frame, v: Vaddr): nat {
    Lacking(at.Keys, root, v)
  }

  ghost function Without(s: set<Path>, k: set<Path>): set<Path> {
    set d | d in s && d !in k
  }

  lemma LackingIsWay(k: set<Path>, root: Frame, v: Vaddr)
    ensures Lacking(k, root, v) == |Without(Way(root, v), k)|
  {
    Depths(root, v);
    ThreeWithout(PdptOf(root, v), PdtOf(root, v), PtOf(root, v), k);
  }

  lemma ThreeWithout(a: Path, b: Path, c: Path, k: set<Path>)
    requires a != b && b != c && a != c
    ensures |Without({a, b, c}, k)| == (if a in k then 0 else 1) + (if b in k then 0 else 1) + (if c in k then 0 else 1)
  {
    var none: set<Path> := {};
    assert Without(none, k) == {};
    OneWithout(none, a, k);
    OneWithout(none + {a}, b, k);
    OneWithout(none + {a} + {b}, c, k);
    assert none + {a} + {b} + {c} == {a, b, c};
  }

  lemma OneWithout(s: set<Path>, a: Path, k: set<Path>)
    requires a !in s
    ensures |Without(s + {a}, k)| == |Without(s, k)| + (if a in k then 0 else 1)
  {
    assert Without(s + {a}, k) == if a in k then Without(s, k) else Without(s, k) + {a};
  }

  class Machine {
    var count: map<Frame, nat>
    var data: map<Frame, Content>
    var tables: map<Frame, seq<Pte>>
    ghost var ext: map<Frame, nat>
    ghost var at: map<Path, Frame>
    ghost var who: map<Frame, Path>
    ghost var pages: map<Path, Pte>

    ghost function St(): State
      reads this
    {
      State(count, ext, data, Forest(tables, at, who, pages))
    }

    /** pmman.get_page: fails only when every frame of the pool is in use. */
    method GetPage() returns (ok: bool, f: Frame)
      requires Inv(St())
      modifies this`count, this`ext
      ensures Inv(St())
      ensures !ok ==> Free(old(count)) == {} && St() == old(St())
      ensures ok ==> f in old(count) && old(count)[f] == 0 && St() == Get(old(St()), f)
    {
      if g :| g in count && count[g] == 0 {
        GetKeeps(St(), g);
        ok, f := true, g;
        count := count[f := 1];
        ext := ext[f := 1];
      } else {
        ok, f := false, 0;
      }
    }

    /** pmman.free and __page_put: give back a reference that no table holds. */
    method PutPage(f: Frame)
      requires Inv(St()) && f in count && ext[f] > 0
      modifies this`count, this`ext
      ensures Inv(St()) && old(count)[f] > 0 && St() == Put(old(St()), f)
    {
      ghost var s := St();
      PutKeeps(s, f);
      if count[f] == 0 {
        return;
      }
      count := count[f := count[f] - 1];
      ext := ext[f := ext[f] - 1];
      assert St() == Put(s, f);
    }

    /** __page_incr: one more reference on a frame that nobody can write. */
    method IncrPage(f: Frame)
      requires Inv(St()) && f in count && !IsTable(St().t, f)
      requires forall x :: x in pages && pages[x].frame == f ==> !pages[x].w
      modifies this`count, this`ext
      ensures Inv(St()) && St() == Incr(old(St()), f)
    {
      ghost var s := St();
      IncrKeeps(s, f);
      count := count[f := count[f] + 1];
      ext := ext[f := ext[f] + 1];
      assert St() == Incr(s, f);
    }

    /** "If the entry is not present, get a zeroed frame and point the entry at it": one level of a walk that
        allocates.  table is the frame of the table at q. */
    method EnsureTable(ghost q: Path, table: Frame, i: nat) returns (ok: bool, made: bool, child: Frame)
      requires Inv(St()) && q in at && at[q] == table && Depth(q) < 3 && i < Limit(q)
      modifies this
      ensures Inv(St()) && pages == old(pages) && data == old(data) && ext == old(ext)
      ensures ok ==> Step(q, i) in at && at[Step(q, i)] == child
      ensures !ok ==> !made && Step(q, i) !in old(at) && Free(old(count)) == {}
      ensures !made ==> St() == old(St())
      ensures made ==> ok && Step(q, i) !in old(at) && at == old(at)[Step(q, i) := child]
      ensures made ==> child in old(count) && old(count)[child] == 0 && count == old(count)[child := 1]
      ensures Keeps(old(St().t), St().t)
    {
      assert NodeOk(St().t, q) && LinkOk(St().t, q, i);
      KeepsReflexive(St().t);
      made := false;
      if tables[table][i].p {
        return true, false, tables[table][i].frame;
      }
      var f;
      assert old(ext).Keys == old(count).Keys;
      ok, f := GetPage();
      if !ok {
        return false, false, 0;
      }
      assert Uses(St().t, f) == 0 && old(ext)[f] == 0;
      LinkTable(q, table, i, f);
      made, child := true, f;
    }

    /** Point entry i of the table at q to the zeroed frame f, which is in hand. */
    method LinkTable(ghost q: Path, table: Frame, i: nat, f: Frame)
      requires Inv(St()) && q in at && at[q] == table && NodeOk(St().t, q) && Depth(q) < 3 && i < Limit(q)
      requires Step(q, i) !in at && f in count && count[f] == 1 == ext[f]
      modifies this
      ensures Inv(St()) && pages == old(pages) && data == old(data) && count == old(count)
      ensures ext == old(ext)[f := 0] && at == old(at)[Step(q, i) := f]
      ensures Keeps(old(St().t), St().t)
    {
      ghost var s := St();
      assert LinkOk(s.t, q, i);
      TableNotHeld(s, q);
      var e := Pte(true, true, false, f);
      LinkInv(s, q, i, e);
      tables := tables[table := tables[table][i := e]][f := seq(NPTE, _ => EMPTY)];
      at := at[Step(q, i) := f];
      who := who[f := Step(q, i)];
      ext := ext[f := 0];
      assert St() == s.(t := Link(s.t, q, i, e), ext := s.ext[f := 0]);
    }

    /** Clear the entry that points to the empty table at c, then free the table's frame. */
    method DropTable(ghost c: Path, table: Frame, i: nat)
      requires Inv(St()) && c in at && c.Step? && c.up in at && at[c.up] == table && c.i == i && Childless(St().t, c)
      modifies this
      ensures Inv(St()) && at == old(at) - {c} && pages == old(pages) && data == old(data) && ext == old(ext)
      ensures old(at)[c] in old(count) && count == old(count)[old(at)[c] := 0]
      ensures forall t0 {:trigger Keeps(t0, St().t)} ::
                Shape(t0) && c !in t0.at && Keeps(t0, old(St().t)) ==> Keeps(t0, St().t)
    {
      ghost var s := St();
      assert NodeOk(s.t, c) && NodeOk(s.t, c.up) && LinkOk(s.t, c.up, i) && OwnedAt(s, c);
      UnlinkInv(s, c);
      forall t0 | Shape(t0) && c !in t0.at && Keeps(t0, s.t) ensures Keeps(t0, Unlink(s.t, c)) {
        UnlinkKeeps(t0, s.t, c);
      }
      var f := tables[table][i].frame;
      tables := tables[table := tables[table][i := EMPTY]];
      at := at - {c};
      ext := ext[f := ext[f] + 1];
      assert St() == UnlinkState(s, c);
      PutPage(f);
      assert St().t == Unlink(s.t, c);
    }

    /** Write the leaf entry x; the reference on the frame it names moves from outside into the table. */
    method StoreLeaf(ghost x: Path, table: Frame, i: nat, e: Pte)
      requires Inv(St()) && CanStore(St(), x, e) && at[x.up] == table && x.i == i
      modifies this`tables, this`pages, this`ext
      ensures Inv(St()) && pages == (if e.p then old(pages)[x := e] else old(pages) - {x})
      ensures ext == Moved(old(ext), old(pages), x, e)
      ensures SameRows(old(St().t), St().t, x.up)
    {
      ghost var s := St();
      StoreInv(s, x, e);
      tables := tables[table := tables[table][i := e]];
      pages := if e.p then pages[x := e] else pages - {x};
      ext := Moved(ext, s.t.pages, x, e);
      assert St() == StoreState(s, x, e);
    }

    /** Undo EnsureTable: drop the table at c if it was made. */
    method UndoTable(made: bool, ghost c: Path, table: Frame, i: nat)
      requires Inv(St()) && c.Step? && c.up in at && at[c.up] == table && c.i == i
      requires made ==> c in at && Childless(St().t, c)
      modifies this
      ensures Inv(St()) && pages == old(pages) && data == old(data) && ext == old(ext)
      ensures at == if made then old(at) - {c} else old(at)
      ensures made ==> old(at)[c] in old(count) && count == old(count)[old(at)[c] := 0]
      ensures !made ==> count == old(count)
      ensures forall t {:trigger Keeps(t, St().t)} ::
                Shape(t) && c !in t.at && Keeps(t, old(St().t)) ==> Keeps(t, St().t)
      ensures !made ==> St() == old(St())
    {
      if made {
        DropTable(c, table, i);
      }
    }

    /** Make sure the first two tables for v exist, or undo what was allocated. */
    method WalkPdt(root: Frame, v: Vaddr) returns (ok: bool, made3: bool, made2: bool, l3: Frame, l2: Frame)
      requires Inv(St()) && Root(root) in at && UserAddress(v)
      modifies this
      ensures Inv(St()) && pages == old(pages) && data == old(data) && ext == old(ext)
      ensures Keeps(old(St().t), St().t)
      ensures !ok ==> at == old(at) && count == old(count) && |Free(count)| < MissingPdt(at, root, v)
      ensures ok ==> Grown(old(St()), St(), PdptOf(root, v), PdtOf(root, v), made3, made2, l3, l2)
    {
      ghost var s0, q4, q3 := St(), Root(root), PdptOf(root, v);
      assert NodeOk(s0.t, q4);
      ParentMissing(s0.t, q3, v.i3);
      made2, l2 := false, 0;
      ok, made3, l3 := EnsureTable(q4, root, v.i4);
      if !ok {
        return;
      }
      ghost var s1 := St();
      FreeAfter(s0.count, s1.count, l3, made3);
      ok, made2, l2 := EnsureTable(q3, l3, v.i3);
      KeepsTransitive(s0.t, s1.t, St().t);
      if !ok {
        GrownIsChildless(s0.t, St().t, q3, q3);
        UndoTable(made3, q3, root, v.i4);
        UndoneOuter(s0.t.at, s0.count, q3, made3, l3, s1.t.at, s1.count, at, count);
      }
    }

    /** Make sure all three tables for v exist, or undo what was allocated. */
    method WalkPt(root: Frame, v: Vaddr) returns (ok: bool, l1: Frame)
      requires Inv(St()) && Root(root) in at && UserAddress(v)
      modifies this
      ensures Inv(St()) && pages == old(pages) && data == old(data) && ext == old(ext)
      ensures Keeps(old(St().t), St().t)
      ensures ok <==> |Free(old(count))| >= Missing(old(at), root, v)
      ensures !ok ==> at == old(at) && count == old(count)
      ensures ok ==> at.Keys == old(at).Keys + Way(root, v)
      ensures ok ==> at[PtOf(root, v)] == l1 && |Free(count)| == |Free(old(count))| - Missing(old(at), root, v)
      ensures UsedKept(old(count), count)
      ensures Missing(old(at), root, v) == 0 ==> count == old(count)
    {
      ghost var s0, q3, q2 := St(), PdptOf(root, v), PdtOf(root, v);
      ParentMissing(s0.t, q3, v.i3);
      ParentMissing(s0.t, q2, v.i2);
      l1 := 0;
      var made3, made2, made1, l3, l2;
      ok, made3, made2, l3, l2 := WalkPdt(root, v);
      if !ok {
        return;
      }
      ghost var s1 := St();
      Depths(root, v);
      ok, made1, l1 := EnsureTable(q2, l2, v.i2);
      if ok {
        KeepsTransitive(s0.t, s1.t, St().t);
        WalkDone(s0, s1, St(), q3, q2, PtOf(root, v), made3, made2, made1, l3, l2, l1);
      } else {
        GrownFree(s0, s1, q3, q2, made3, made2, l3, l2);
        UndoPdt(root, v, made3, made2, l3, l2, s0);
      }
    }

    /** Point the leaf entry of v at e.frame, when it is absent or a remap is asked for. */
    method SetEntry(root: Frame, v: Vaddr, e: Pte, remap: bool) returns (ok: bool)
      requires Inv(St()) && Root(root) in at && UserAddress(v)
      requires e.alloc && e.frame in count && e.frame in data && ext[e.frame] > 0 && (e.w ==> count[e.frame] == 1)
      modifies this
      ensures Inv(St()) && data == old(data) && UsedKept(old(count), count)
      ensures !ok ==> at == old(at) && pages == old(pages) && count == old(count) && ext == old(ext)
      ensures !ok ==> AllRows(old(St().t), St().t)
      ensures Extends(old(at), at)
      ensures MapOutcome(old(St()), St(), root, v, e, remap, ok)
    {
      ghost var s0, x := St(), PathOf(root, v);
      var l1;
      assert s0.count[e.frame] == s0.ext[e.frame] + Uses(s0.t, e.frame);
      ok, l1 := WalkPt(root, v);
      forall d | d in s0.t.at ensures SameTable(s0.t.at, at, d) {
        assert KeepsRow(s0.t, St().t, d);
      }
      if !ok {
        KeepsSame(s0.t, St().t);
        return;
      }
      Depths(root, v);
      assert LinkOk(St().t, x.up, v.i1);
      if !tables[l1][v.i1].p {
        StoreLeaf(x, l1, v.i1, e);
      } else if remap {
        StoreLeaf(x, l1, v.i1, e);
      }
    }

    /** x86_64_map_pdt.  The indices belong to the user half unless they are out of range. */
    method MapPdt(root: Frame, i4: int, i3: int, large: bool) returns (err: Error)
      requires Inv(St()) && Root(root) in at && (i4 < USER || BadIndex(i4))
      modifies this
      ensures Inv(St()) && pages == old(pages) && data == old(data) && ext == old(ext)
      ensures Keeps(old(St().t), St().t)
      ensures err == InvalidArgument <==> BadIndex(i4) || BadIndex(i3)
      ensures err == NotSupported <==> !BadIndex(i4) && !BadIndex(i3) && large
      ensures err != None ==> at == old(at) && count == old(count)
      ensures !BadIndex(i4) && !BadIndex(i3) && !large ==>
                var v := Vaddr(i4, i3, 0, 0);
                && (err == None <==> |Free(old(count))| >= MissingPdt(old(at), root, v))
                && (err == None ==> at.Keys == old(at).Keys + {PdptOf(root, v), PdtOf(root, v)})
    {
      KeepsReflexive(St().t);
      if BadIndex(i4) || BadIndex(i3) {
        return InvalidArgument;
      }
      if large {
        return NotSupported;
      }
      ghost var s0, v := St(), Vaddr(i4, i3, 0, 0);
      var ok, made3, made2, l3, l2 := WalkPdt(root, Vaddr(i4, i3, 0, 0));
      if ok {
        GrownFree(s0, St(), PdptOf(root, v), PdtOf(root, v), made3, made2, l3, l2);
      }
      err := if ok then None else OutOfMemory;
    }

    /** x86_64_map_pt. */
    method MapPt(root: Frame, i4: int, i3: int, i2: int, large: bool) returns (err: Error)
      requires Inv(St()) && Root(root) in at && (i4 < USER || BadIndex(i4))
      modifies this
      ensures Inv(St()) && pages == old(pages) && data == old(data) && ext == old(ext)
      ensures Keeps(old(St().t), St().t)
      ensures err == InvalidArgument <==> BadIndex(i4) || BadIndex(i3) || BadIndex(i2)
      ensures err == NotSupported <==> !BadIndex(i4) && !BadIndex(i3) && !BadIndex(i2) && large
      ensures err != None ==> at == old(at) && count == old(count)
      ensures !BadIndex(i4) && !BadIndex(i3) && !BadIndex(i2) && !large ==>
                var v := Vaddr(i4, i3, i2, 0);
                && (err == None <==> |Free(old(count))| >= Missing(old(at), root, v))
                && (err == None ==> at.Keys == old(at).Keys + Way(root, v))
    {
      KeepsReflexive(St().t);
      if BadIndex(i4) || BadIndex(i3) || BadIndex(i2) {
        return InvalidArgument;
      }
      if large {
        return NotSupported;
      }
      var ok, l1 := WalkPt(root, Vaddr(i4, i3, i2, 0));
      err := if ok then None else OutOfMemory;
    }

    /** x86_64_map, of a frame that is in hand. */
    method Map(root: Frame, i4: int, i3: int, i2: int, i1: int, e: Pte, remap: bool, large: bool) returns (err: Error)
      requires Inv(St()) && Root(root) in at && (i4 < USER || BadIndex(i4))
      requires e.alloc && e.frame in count && e.frame in data && ext[e.frame] > 0 && (e.w ==> count[e.frame] == 1)
      modifies this
      ensures Inv(St()) && data == old(data) && UsedKept(old(count), count)
      ensures Extends(old(at), at)
      ensures err == InvalidArgument <==> BadIndex(i4) || BadIndex(i3) || BadIndex(i2) || BadIndex(i1)
      ensures err == NotSupported <==> err != InvalidArgument && large
      ensures err != None ==> at == old(at) && pages == old(pages) && count == old(count) && ext == old(ext)
      ensures err != None ==> AllRows(old(St().t), St().t)
      ensures err != InvalidArgument && !large ==>
                MapOutcome(old(St()), St(), root, Vaddr(i4, i3, i2, i1), e, remap, err == None)
    {
      SameRowsReflexive(St().t, Root(root));
      if BadIndex(i4) || BadIndex(i3) || BadIndex(i2) || BadIndex(i1) {
        return InvalidArgument;
      }
      if large {
        return NotSupported;
      }
      var ok := SetEntry(root, Vaddr(i4, i3, i2, i1), e, remap);
      err := if ok then None else OutOfMemory;
    }

    /** x86_64_unmap: clear the leaf entry of v, if there is one, and give its frame back. */
    method Unmap(root: Frame, v: Vaddr)
      requires Inv(St()) && Root(root) in at && UserAddress(v)
      modifies this
      ensures Inv(St()) && at == old(at) && data == old(data) && ext == old(ext)
      ensures pages == old(pages) - {PathOf(root, v)}
    {
      ghost var t, x := St().t, PathOf(root, v);
      Depths(root, v);
      assert LinkOk(t, Root(root), v.i4);
      if !tables[root][v.i4].p {
        NotThere(t, root, v);
        return;
      }
      var l3 := tables[root][v.i4].frame;
      assert LinkOk(t, PdptOf(root, v), v.i3);
      if !tables[l3][v.i3].p {
        NotThere(t, root, v);
        return;
      }
      var l2 := tables[l3][v.i3].frame;
      assert LinkOk(t, PdtOf(root, v), v.i2);
      if !tables[l2][v.i2].p {
        NotThere(t, root, v);
        return;
      }
      var l1 := tables[l2][v.i2].frame;
      ClearLeaf(x, l1, v.i1);
    }

    /** The last step of x86_64_unmap: table is the last-level table that holds the entry. */
    method ClearLeaf(ghost x: Path, table: Frame, i: nat)
      requires Inv(St()) && x.Step? && x.up in at && at[x.up] == table && Depth(x.up) == 3 && x.i == i < NPTE
      modifies this
      ensures Inv(St()) && at == old(at) && data == old(data) && ext == old(ext)
      ensures pages == old(pages) - {x}
      ensures SameRows(old(St().t), St().t, x.up)
    {
      ghost var s := St();
      assert LinkOk(s.t, x.up, i);
      var e := tables[table][i];
      if !e.p {
        SameRowsReflexive(s.t, x.up);
        return;
      }
      assert PageOk(s.t, x) && BackedAt(s, x);
      assert s.count[e.frame] == s.ext[e.frame] + Uses(s.t, e.frame);
      StoreLeaf(x, table, i, EMPTY);
      if e.alloc {
        PutPage(e.frame);
      }
      assert ext == old(ext);
    }

    /** The error path of x86_64_map_pt: drop what x86_64_map_pdt made, innermost first. */
    method UndoPdt(root: Frame, v: Vaddr, made3: bool, made2: bool, l3: Frame, ghost l2: Frame, ghost s0: State)
      requires Inv(St()) && Inv(s0) && Root(root) in s0.t.at && UserAddress(v) && Keeps(s0.t, St().t)
      requires pages == s0.t.pages && Grown(s0, St(), PdptOf(root, v), PdtOf(root, v), made3, made2, l3, l2)
      modifies this
      ensures Inv(St()) && pages == old(pages) && data == old(data) && ext == old(ext)
      ensures at == s0.t.at && count == s0.count && Keeps(s0.t, St().t)
    {
      ghost var q4, q3, q2 := Root(root), PdptOf(root, v), PdtOf(root, v);
      assert KeepsRow(s0.t, St().t, q4) && NodeOk(s0.t, q4);
      GrownIsChildless(s0.t, St().t, q3, q2);
      ghost var s := St();
      UndoTable(made2, q2, l3, v.i3);
      UndoneInner(s0, s, q3, q2, made3, made2, l3, l2, at, count);
      GrownIsChildless(s0.t, St().t, q3, q3);
      ghost var at1, count1 := at, count;
      UndoTable(made3, q3, root, v.i4);
      UndoneOuter(s0.t.at, s0.count, q3, made3, l3, at1, count1, at, count);
    }
  }

  /** What mapping e at v comes to: it succeeds exactly if there are frames for the missing tables, which are then
      there; the entry is set when it is absent or a remap is asked for.  An entry without the present bit is stored, but
      is no page. */
  ghost predicate MapOutcome(s0: State, s: State, root: Frame, v: Vaddr, e: Pte, remap: bool, ok: bool) {
    && (ok <==> |Free(s0.count)| >= Missing(s0.t.at, root, v))
    && (Missing(s0.t.at, root, v) == 0 ==> s.count == s0.count)
    && (ok ==> s.t.at.Keys == s0.t.at.Keys + Way(root, v))
    && (ok ==> |Free(s.count)| == |Free(s0.count)| - Missing(s0.t.at, root, v))
    && (ok && (PathOf(root, v) !in s0.t.pages || remap) ==>
          && s.t.pages == (if e.p then s0.t.pages[PathOf(root, v) := e] else s0.t.pages - {PathOf(root, v)})
          && s.ext == Moved(s0.ext, s0.t.pages, PathOf(root, v), e))
    && (ok && PathOf(root, v) in s0.t.pages && !remap ==> s.t.pages == s0.t.pages && s.ext == s0.ext)
  }

  /** Frames in use keep their counts. */
  ghost predicate UsedKept(count: map<Frame, nat>, count': map<Frame, nat>) {
    count'.Keys == count.Keys && forall f :: f in count && count[f] > 0 ==> count'[f] == count[f]
  }

  ghost function MissingPdt(at: map<Path, Frame>, root: Frame, v: Vaddr): nat {
    (if PdptOf(root, v) in at then 0 else 1) + (if PdtOf(root, v) in at then 0 else 1)
  }

  /** The tables at q3 and q2 exist; each was made now or was there before. */
  ghost predicate Grown(s0: State, s: State, q3: Path, q2: Path, made3: bool, made2: bool, l3: Frame, l2: Frame) {
    && q3 in s.t.at && q2 in s.t.at && s.t.at[q3] == l3 && s.t.at[q2] == l2
    && (made3 <==> q3 !in s0.t.at) && (made2 <==> q2 !in s0.t.at)
    && var at1 := if made3 then s0.t.at[q3 := l3] else s0.t.at;
    && var count1 := if made3 then s0.count[l3 := 1] else s0.count;
    && (made3 ==> l3 in s0.count && s0.count[l3] == 0)
    && (made2 ==> l2 in count1 && count1[l2] == 0)
    && s.t.at == (if made2 then at1[q2 := l2] else at1)
    && s.count == (if made2 then count1[l2 := 1] else count1)
  }

  /** The inner table dropped, if it was made: what is left is the outer one. */
  lemma UndoneInner(s0: State, s: State, q3: Path, q2: Path, made3: bool, made2: bool, l3: Frame, l2: Frame,
                    at: map<Path, Frame>, count: map<Frame, nat>)
    requires Grown(s0, s, q3, q2, made3, made2, l3, l2) && q2 != q3
    requires at == if made2 then s.t.at - {q2} else s.t.at
    requires count == if made2 then s.count[l2 := 0] else s.count
    ensures at == if made3 then s0.t.at[q3 := l3] else s0.t.at
    ensures count == if made3 then s0.count[l3 := 1] else s0.count
  {
  }

  lemma UndoneOuter(at0: map<Path, Frame>, count0: map<Frame, nat>, q3: Path, made3: bool, l3: Frame,
                    at1: map<Path, Frame>, count1: map<Frame, nat>, at: map<Path, Frame>, count: map<Frame, nat>)
    requires made3 ==> q3 !in at0 && l3 in count0 && count0[l3] == 0
    requires at1 == if made3 then at0[q3 := l3] else at0
    requires count1 == if made3 then count0[l3 := 1] else count0
    requires at == if made3 then at1 - {q3} else at1
    requires count == if made3 then count1[l3 := 0] else count1
    ensures at == at0 && count == count0
  {
  }

  /** Three levels are there: what a walk has added. */
  lemma WalkDone(s0: State, s1: State, s: State, q3: Path, q2: Path, q1: Path, made3: bool, made2: bool, made1: bool,
                 l3: Frame, l2: Frame, l1: Frame)
    requires Grown(s0, s1, q3, q2, made3, made2, l3, l2) && q1 !in {q3, q2}
    requires q1 in s.t.at && s.t.at == if made1 then s1.t.at[q1 := l1] else s1.t.at
    requires made1 ==> q1 !in s1.t.at && l1 in s1.count && s1.count[l1] == 0
    requires s.count == if made1 then s1.count[l1 := 1] else s1.count
    ensures made1 <==> q1 !in s0.t.at
    ensures s.t.at.Keys == s0.t.at.Keys + {q3, q2, q1} && UsedKept(s0.count, s.count)
    ensures !made3 && !made2 && !made1 ==> s.count == s0.count
    ensures |Free(s.count)| == |Free(s0.count)| - (if made3 then 1 else 0) - (if made2 then 1 else 0)
                                                - (if made1 then 1 else 0)
  {
    GrownFree(s0, s1, q3, q2, made3, made2, l3, l2);
    FreeAfter(s1.count, s.count, l1, made1);
  }

  /** Without the last-level table there is no leaf entry. */
  lemma NotThere(t: Forest, root: Frame, v: Vaddr)
    requires Shape(t)
    requires PdptOf(root, v) !in t.at || PdtOf(root, v) !in t.at || PtOf(root, v) !in t.at
    ensures PathOf(root, v) !in t.pages
  {
    ParentMissing(t, PdptOf(root, v), v.i3);
    ParentMissing(t, PdtOf(root, v), v.i2);
    NothingBelow(t, PtOf(root, v), v.i1);
  }

  lemma GrownFree(s0: State, s: State, q3: Path, q2: Path, made3: bool, made2: bool, l3: Frame, l2: Frame)
    requires Grown(s0, s, q3, q2, made3, made2, l3, l2)
    ensures |Free(s.count)| == |Free(s0.count)| - (if made3 then 1 else 0) - (if made2 then 1 else 0)
  {
    var count1 := if made3 then s0.count[l3 := 1] else s0.count;
    FreeAfter(s0.count, count1, l3, made3);
    FreeAfter(count1, s.count, l2, made2);
  }

  /** Of the tables q3 and, below it, q2, the last new one has nothing below it. */
  lemma GrownIsChildless(t0: Forest, t: Forest, q3: Path, c: Path)
    requires Shape(t0) && t.pages == t0.pages && t.at.Keys <= t0.at.Keys + {q3, c}
    requires q3.Step? && q3.up != q3 && q3.up != c && c.Step? && c.up != c
    ensures c !in t0.at ==> Childless(t, c)
  {
    if c !in t0.at {
      forall d | d in t.at && d.Step? ensures d.up != c {
        if d in t0.at {
          Parent(t0, d);
        }
      }
      forall x | x in t.pages && x.Step? ensures x.up != c {
        Parent(t0, x);
      }
    }
  }

  lemma ParentMissing(t: Forest, c: Path, j: nat)
    requires Shape(t)
    ensures c !in t.at ==> Step(c, j) !in t.at
  {
    if c !in t.at {
      NothingBelow(t, c, j);
    }
  }

  lemma FreeAfter(count: map<Frame, nat>, count': map<Frame, nat>, f: Frame, made: bool)
    requires made ==> f in count && count[f] == 0 && count' == count[f := 1]
    requires !made ==> count' == count
    ensures |Free(count')| == |Free(count)| - (if made then 1 else 0)
  {
    if made {
      OneFreeLess(count, f);
    }
  }

  lemma LinkInv(s: State, q: Path, i: nat, e: Pte)
    requires Inv(s) && q in s.t.at && NodeOk(s.t, q) && Depth(q) < 3 && i < Limit(q) && Step(q, i) !in s.t.at
    requires e.p && e.frame in s.count && s.count[e.frame] == 1 == s.ext[e.frame]
    ensures Inv(s.(t := Link(s.t, q, i, e), ext := s.ext[e.frame := 0]))
    ensures Keeps(s.t, Link(s.t, q, i, e))
  {
    var f, s' := e.frame, s.(t := Link(s.t, q, i, e), ext := s.ext[e.frame := 0]);
    assert Uses(s.t, f) == 0;
    Unused(s.t, f);
    LinkKeeps(s.t, q, i, e);
    LinkShape(s.t, q, i, e);
    forall g | g in s.count ensures s'.count[g] == s'.ext[g] + Uses(s'.t, g) {
      assert s.count[g] == s.ext[g] + Uses(s.t, g);
      LinkUses(s.t, q, i, e, g);
    }
    forall d | d in s'.t.at ensures OwnedAt(s', d) {
      assert d != Step(q, i) ==> OwnedAt(s, d);
    }
    forall x | x in s'.t.pages ensures BackedAt(s', x) {
      assert BackedAt(s, x);
    }
  }
}
