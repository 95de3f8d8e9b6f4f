/** Making and giving up an address space (kernel/arch/x86_64/paging.c:670-693). */
module Spaces {
  import opened PageTree
  import opened Subtree
  import opened Paging

  /** Nothing lies below r. */
  ghost predicate EmptyBelow(t: Forest, r: Path) {
    (forall x :: x in t.at ==> !Below(x, r)) && (forall x :: x in t.pages ==> !Below(x, r))
  }

  /** The zeroed frame f becomes a root table. */
  ghost function AddRoot(t: Forest, f: Frame): Forest {
    t.(tables := t.tables[f := seq(NPTE, _ => EMPTY)], at := t.at[Root(f) := f], who := t.who[f := Root(f)])
  }

  lemma RootFrame(t: Forest, f: Frame)
    requires Tree(t)
    ensures Root(f) in t.at ==> t.at[Root(f)] == f
  {
    if Root(f) in t.at {
      assert NodeOk(t, Root(f));
    }
  }

  lemma AddRootShape(t: Forest, f: Frame)
    requires Shape(t) && Uses(t, f) == 0
    ensures Root(f) !in t.at && Shape(AddRoot(t, f)) && EmptyBelow(AddRoot(t, f), Root(f))
  {
    var t', r := AddRoot(t, f), Root(f);
    Unused(t, f);
    RootFrame(t, f);
    forall d | d in t'.at ensures NodeOk(t', d) && !Below(d, r) {
      if d != r {
        assert NodeOk(t, d);
        NothingUnder(t, d, r);
      }
    }
    forall d, j: nat | d in t'.at && j < Limit(d) ensures LinkOk(t', d, j) {
      assert NodeOk(t', d);
      if d == r {
        NothingBelow(t, r, j);
      } else {
        assert LinkOk(t, d, j);
      }
    }
    forall x | x in t'.pages ensures PageOk(t', x) && !Below(x, r) {
      assert PageOk(t, x);
      NothingUnder(t, x, r);
    }
  }

  lemma AddRootInv(s: State, f: Frame)
    requires Inv(s) && f in s.count && s.count[f] == 1 == s.ext[f]
    ensures Inv(s.(t := AddRoot(s.t, f), ext := s.ext[f := 0])) && Root(f) !in s.t.at
    ensures EmptyBelow(AddRoot(s.t, f), Root(f))
  {
    var s' := s.(t := AddRoot(s.t, f), ext := s.ext[f := 0]);
    assert s.count[f] == s.ext[f] + Uses(s.t, f);
    Unused(s.t, f);
    AddRootShape(s.t, f);
    forall g | g in s'.count ensures s'.count[g] == s'.ext[g] + Uses(s'.t, g) {
      assert s.count[g] == s.ext[g] + Uses(s.t, g);
      assert Refs(s'.t, g) == Refs(s.t, g);
      if IsTable(s.t, g) {
        assert NodeOk(s.t, s.t.who[g]);
      }
    }
    forall d | d in s'.t.at ensures OwnedAt(s', d) {
      assert d != Root(f) ==> OwnedAt(s, d);
    }
    forall x | x in s'.t.pages ensures BackedAt(s', x) {
      assert BackedAt(s, x);
    }
  }

  /** x86_64_pml4alloc: a zeroed root table that shares the kernel half; mounts says whether the new table could be
      mounted to copy the kernel's entries into it. */
  method NewSpace(m: Machine, mounts: bool) returns (ok: bool, root: Frame)
    requires Inv(m.St())
    modifies m
    ensures Inv(m.St()) && m.pages == old(m.pages) && m.data == old(m.data) && m.ext == old(m.ext)
    ensures ok <==> mounts && |Free(old(m.count))| > 0
    ensures !ok ==> m.at == old(m.at) && m.count == old(m.count)
    ensures ok ==> root in old(m.count) && old(m.count)[root] == 0 && m.count == old(m.count)[root := 1]
    ensures ok ==> Root(root) !in old(m.at) && m.at == old(m.at)[Root(root) := root]
    ensures ok ==> EmptyBelow(m.St().t, Root(root)) && |Free(m.count)| == |Free(old(m.count))| - 1
  {
    ghost var s0 := m.St();
    ok, root := m.GetPage();
    if !ok {
      return;
    }
    assert root in Free(s0.count);
    assert s0.count[root] == s0.ext[root] + Uses(s0.t, root);
    if !mounts {
      m.PutPage(root);
      return false, 0;
    }
    OneFreeLess(s0.count, root);
    SeatRoot(m, root);
  }

  /** The zeroed frame in hand becomes a root table. */
  method SeatRoot(m: Machine, root: Frame)
    requires Inv(m.St()) && root in m.count && m.count[root] == 1 == m.ext[root]
    modifies m
    ensures Inv(m.St()) && m.pages == old(m.pages) && m.data == old(m.data) && m.count == old(m.count)
    ensures m.ext == old(m.ext)[root := 0]
    ensures Root(root) !in old(m.at) && m.at == old(m.at)[Root(root) := root] && EmptyBelow(m.St().t, Root(root))
  {
    ghost var s := m.St();
    AddRootInv(s, root);
    m.tables := m.tables[root := seq(NPTE, _ => EMPTY)];
    m.at := m.at[Root(root) := root];
    m.who := m.who[root := Root(root)];
    m.ext := m.ext[root := 0];
    assert m.St() == s.(t := AddRoot(s.t, root), ext := s.ext[root := 0]);
  }

  ghost function DropRoot(t: Forest, f: Frame): Forest {
    t.(at := t.at - {Root(f)})
  }

  lemma DropRootInv(s: State, f: Frame)
    requires Inv(s) && Root(f) in s.t.at && EmptyBelow(s.t, Root(f))
    ensures s.t.at[Root(f)] == f && f in s.ext && s.ext[f] == 0
    ensures Inv(s.(t := DropRoot(s.t, f), ext := s.ext[f := 1]))
  {
    var s', r := s.(t := DropRoot(s.t, f), ext := s.ext[f := 1]), Root(f);
    assert NodeOk(s.t, r);
    TableNotHeld(s, r);
    UsedByTable(s.t, r);
    forall d | d in s'.t.at ensures NodeOk(s'.t, d) && OwnedAt(s', d) {
      assert NodeOk(s.t, d) && OwnedAt(s, d);
    }
    forall d, j: nat | d in s'.t.at && j < Limit(d) ensures LinkOk(s'.t, d, j) {
      assert LinkOk(s.t, d, j) && NodeOk(s'.t, d);
    }
    forall g | g in s'.count ensures s'.count[g] == s'.ext[g] + Uses(s'.t, g) {
      assert s.count[g] == s.ext[g] + Uses(s.t, g);
      assert Refs(s'.t, g) == Refs(s.t, g);
      if IsTable(s.t, g) && g != f {
        assert NodeOk(s.t, s.t.who[g]);
      }
    }
    forall x | x in s'.t.pages ensures PageOk(s'.t, x) && BackedAt(s', x) {
      assert PageOk(s.t, x) && BackedAt(s, x);
    }
  }

  /** x86_64_pml4free of an address space whose lower half is empty. */
  method FreeSpace(m: Machine, root: Frame)
    requires Inv(m.St()) && Root(root) in m.at && EmptyBelow(m.St().t, Root(root))
    modifies m
    ensures Inv(m.St()) && m.pages == old(m.pages) && m.data == old(m.data) && m.ext == old(m.ext)
    ensures m.at == old(m.at) - {Root(root)}
    ensures root in old(m.count) && m.count == old(m.count)[root := 0]
  {
    ghost var s := m.St();
    DropRootInv(s, root);
    assert OwnedAt(s, Root(root));
    m.at := m.at - {Root(root)};
    m.ext := m.ext[root := 1];
    assert m.St() == s.(t := DropRoot(s.t, root), ext := s.ext[root := 1]);
    m.PutPage(root);
  }
}
