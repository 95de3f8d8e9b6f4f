/** x86_64_lazycpy (kernel/arch/x86_64/paging.c:464-584) and its undoing. */
module Fork {
  import opened PageTree
  import opened Subtree
  import opened LazyCopy
  import opened Paging
  import opened Spaces
  import opened Teardown

  /** Enforce copy-on-write: the source entry becomes read-only if it is not. */
  method ClearWriteBit(m: Machine, ghost q: Path, src: Frame, i: nat) returns (e: Pte)
    requires Inv(m.St()) && q in m.at && m.at[q] == src && Depth(q) == 3 && i < NPTE && Step(q, i) in m.pages
    modifies m`tables, m`pages, m`ext
    ensures Inv(m.St()) && m.ext == old(m.ext) && e == ReadOnly(old(m.pages)[Step(q, i)])
    ensures m.pages == old(m.pages)[Step(q, i) := e]
  {
    ghost var s0, c := m.St(), Step(q, i);
    assert NodeOk(s0.t, q) && LinkOk(s0.t, q, i) && PageOk(s0.t, c) && BackedAt(s0, c);
    e := m.tables[src][i];
    if e.w {
      m.StoreLeaf(c, src, i, ReadOnly(e));
      e := ReadOnly(e);
    }
    assert m.ext == old(m.ext);
    assert m.pages == s0.t.pages[c := e];
  }

  /** Once one entry of a frame is read-only, all are: a writable one would have been the only one. */
  lemma NoneWritable(s0: State, s: State, c: Path)
    requires Inv(s0) && c in s0.t.pages && s.t.pages == s0.t.pages[c := ReadOnly(s0.t.pages[c])]
    ensures forall x :: x in s.t.pages && s.t.pages[x].frame == s0.t.pages[c].frame ==> !s.t.pages[x].w
  {
    forall x | x in s.t.pages && s.t.pages[x].frame == s0.t.pages[c].frame ensures !s.t.pages[x].w {
      if x != c && s0.t.pages[x].w {
        assert BackedAt(s0, x);
        SoleUser(s0, x, c);
      }
    }
  }

  /** The innermost loop body: clear the write bit of the source entry, store the entry a second time,
      count the second reference. */
  method CopyLeaf(m: Machine, ghost q: Path, ghost r: Path, src: Frame, dst: Frame, i: nat)
    requires Inv(m.St()) && q in m.at && m.at[q] == src && r in m.at && m.at[r] == dst && q != r
    requires Depth(q) == 3 == Depth(r) && i < NPTE && Step(q, i) in m.pages && Step(r, i) !in m.pages
    modifies m
    ensures Inv(m.St()) && m.at == old(m.at) && m.data == old(m.data) && m.ext == old(m.ext)
    ensures var e := ReadOnly(old(m.pages)[Step(q, i)]); m.pages == old(m.pages)[Step(q, i) := e][Step(r, i) := e]
    ensures Free(m.count) == Free(old(m.count))
  {
    ghost var s0, c, d := m.St(), Step(q, i), Step(r, i);
    assert PageOk(s0.t, c);
    var e := ClearWriteBit(m, q, src, i);
    ghost var s1 := m.St();
    NoneWritable(s0, s1, c);
    PageIsNoTable(s1, c);
    assert BackedAt(s1, c);
    m.IncrPage(e.frame);
    m.StoreLeaf(d, dst, i, e);
    assert m.ext == old(m.ext);
  }

  /** One level of the four nested loops: copy the entries of the table at q to the table at r, in order.
      broken: the frames that cannot be mounted. */
  method CopyBelow(m: Machine, ghost q: Path, ghost r: Path, src: Frame, dst: Frame, depth: nat, broken: set<Frame>)
      returns (ok: bool)
    requires Inv(m.St()) && q in m.at && m.at[q] == src && r in m.at && m.at[r] == dst
    requires Depth(q) == depth == Depth(r) && RootOf(q) != RootOf(r) && EmptyBelow(m.St().t, r)
    modifies m
    ensures Inv(m.St()) && m.data == old(m.data) && m.ext == old(m.ext)
    ensures Partial(old(m.St().t), m.St().t, q, r)
    ensures ok ==> Copied(old(m.St().t), m.St().t, First(q, Limit(q)), First(r, Limit(r)), q, r)
    ensures ok <==> Affordable(old(m.count), old(m.at), First(q, Limit(q)), broken)
    ensures ok ==> Paid(old(m.count), m.count, old(m.at), First(q, Limit(q)), broken)
    decreases 3 - depth, 2
  {
    ghost var t0 := m.St().t;
    assert NodeOk(t0, q) && NodeOk(t0, r);
    NothingCopied(t0, q, r);
    NothingToPay(m.count, m.at, q, broken);
    var i, limit := 0, if depth == 0 then USER else NPTE;
    assert limit == Limit(q) == Limit(r);
    ok := true;
    while i < limit
      invariant i <= limit && Inv(m.St()) && m.data == old(m.data) && m.ext == old(m.ext)
      invariant Copied(t0, m.St().t, First(q, i), First(r, i), q, r)
      invariant Paid(old(m.count), m.count, t0.at, First(q, i), broken)
      invariant q in m.at && m.at[q] == src && r in m.at && m.at[r] == dst
    {
      ghost var t := m.St().t;
      NextIsEmpty(t0, t, q, r, i);
      FirstIsBelow(q, i);
      FirstIsBelow(r, i);
      CopiedIsPartial(t0, t, First(q, i), First(r, i), q, r);
      SourceSame(t0, t, q, r, i, broken);
      ghost var count := m.count;
      ok := CopyEntry(m, q, r, src, dst, i, depth, broken);
      if !ok {
        PartialTransitive(t0, t, m.St().t, q, r);
        CannotPay(old(m.count), count, t0.at, q, i, limit, broken);
        return;
      }
      PaidNext(old(m.count), count, m.count, t0.at, q, i, broken);
      CopyNext(t0, t, m.St().t, q, r, i);
      assert TableKept(t0, m.St().t, q) && TableKept(t0, m.St().t, r);
      i := i + 1;
    }
    FirstIsBelow(q, i);
    FirstIsBelow(r, i);
    CopiedIsPartial(t0, m.St().t, First(q, i), First(r, i), q, r);
  }

  lemma TableIsOld(t0: Forest, t: Forest, g: Region, h: Region, q: Path, r: Path, y: Path)
    requires Copied(t0, t, g, h, q, r) && y in t.at
    ensures y in t0.at || In(y, h)
  {
    assert TableOld(t0, y, h);
  }

  lemma PageIsOld(t0: Forest, t: Forest, g: Region, h: Region, q: Path, r: Path, y: Path)
    requires Copied(t0, t, g, h, q, r) && y in t.pages
    ensures y in t0.pages || In(y, h)
  {
    assert PageOld(t0, y, h, q, r);
  }

  /** While the first i entries are being copied, nothing is at entry i of the destination or below it. */
  lemma NextIsEmpty(t0: Forest, t: Forest, q: Path, r: Path, i: nat)
    requires Shape(t) && EmptyBelow(t0, r) && Copied(t0, t, First(q, i), First(r, i), q, r)
    ensures Step(r, i) !in t.at && Step(r, i) !in t.pages
  {
    var d := Step(r, i);
    FirstExcludesNext(d, r, i);
    if d in t.at {
      TableIsOld(t0, t, First(q, i), First(r, i), q, r, d);
    }
    if d in t.pages {
      PageIsOld(t0, t, First(q, i), First(r, i), q, r, d);
    }
  }

  method CopyEntry(m: Machine, ghost q: Path, ghost r: Path, src: Frame, dst: Frame, i: nat, depth: nat,
                   broken: set<Frame>) returns (ok: bool)
    requires Inv(m.St()) && q in m.at && m.at[q] == src && r in m.at && m.at[r] == dst
    requires Depth(q) == depth == Depth(r) && RootOf(q) != RootOf(r) && i < Limit(q) && i < Limit(r)
    requires Step(r, i) !in m.at && Step(r, i) !in m.pages
    modifies m
    ensures Inv(m.St()) && m.data == old(m.data) && m.ext == old(m.ext)
    ensures Partial(old(m.St().t), m.St().t, q, r)
    ensures ok ==> Copied(old(m.St().t), m.St().t, Entry(Step(q, i)), Entry(Step(r, i)), q, r)
    ensures ok <==> Affordable(old(m.count), old(m.at), Entry(Step(q, i)), broken)
    ensures ok ==> Paid(old(m.count), m.count, old(m.at), Entry(Step(q, i)), broken)
    decreases 3 - depth, 1
  {
    ghost var t := m.St().t;
    assert NodeOk(t, q) && LinkOk(t, q, i);
    PartialReflexive(t, q, r);
    EntryIsBelow(q, i);
    EntryIsBelow(r, i);
    ok := true;
    if !m.tables[src][i].p {
      if depth == 3 {
        NoDeepTable(t, Step(q, i));
      } else {
        NoDeepPage(t, Step(q, i));
      }
      EntryAbsent(t, q, r, i);
      EntryIsFree(t, Step(q, i), broken);
    } else if depth == 3 {
      NoDeepTable(t, Step(q, i));
      EntryIsFree(t, Step(q, i), broken);
      CopyLeaf(m, q, r, src, dst, i);
      EntryFromLeaf(t, m.St().t, q, r, i);
      CopiedIsPartial(t, m.St().t, Entry(Step(q, i)), Entry(Step(r, i)), q, r);
    } else {
      ok := CopyTable(m, q, r, src, dst, i, depth, broken);
    }
  }

  /** Map a table into the destination, mount the source table (which can fail), copy the one to the other. */
  method CopyTable(m: Machine, ghost q: Path, ghost r: Path, src: Frame, dst: Frame, i: nat, depth: nat,
                   broken: set<Frame>) returns (ok: bool)
    requires Inv(m.St()) && q in m.at && m.at[q] == src && r in m.at && m.at[r] == dst
    requires Depth(q) == depth == Depth(r) < 3 && RootOf(q) != RootOf(r) && i < Limit(q) && i < Limit(r)
    requires Step(r, i) !in m.at && Step(r, i) !in m.pages && Step(q, i) in m.at
    modifies m
    ensures Inv(m.St()) && m.data == old(m.data) && m.ext == old(m.ext)
    ensures Partial(old(m.St().t), m.St().t, q, r)
    ensures ok ==> Copied(old(m.St().t), m.St().t, Entry(Step(q, i)), Entry(Step(r, i)), q, r)
    ensures ok <==> Affordable(old(m.count), old(m.at), Entry(Step(q, i)), broken)
    ensures ok ==> Paid(old(m.count), m.count, old(m.at), Entry(Step(q, i)), broken)
    decreases 3 - depth, 0
  {
    ghost var t, c, d := m.St().t, Step(q, i), Step(r, i);
    var made, child;
    ok, made, child := m.EnsureTable(r, dst, i);
    ghost var t1 := m.St().t;
    assert Partial(t, t1, q, r);
    if !ok {
      assert c in TablesIn(t.at, Entry(c));
      return;
    }
    EntryCost(t, t1, q, r, i, broken);
    OneFreeLess(old(m.count), child);
    assert LinkOk(t1, q, i);
    if m.tables[src][i].frame in broken {
      return false;
    }
    NewTableEmpty(t, t1, d);
    ok := CopyBelow(m, c, d, m.tables[src][i].frame, child, depth + 1, broken);
    PartialBelow(t1, m.St().t, q, r, i);
    PartialTransitive(t, t1, m.St().t, q, r);
    if ok {
      EntryFromChild(t, t1, m.St().t, q, r, i);
    }
  }

  lemma NewTableEmpty(t: Forest, t1: Forest, d: Path)
    requires Shape(t) && d !in t.at && t1.pages == t.pages && t1.at.Keys == t.at.Keys + {d}
    ensures EmptyBelow(t1, d)
  {
    forall x | x in t1.at ensures !Below(x, d) {
      if x == d {
        NotDeeper(d, d);
      } else {
        NothingUnder(t, x, d);
      }
    }
    forall x | x in t1.pages ensures !Below(x, d) {
      NothingUnder(t, x, d);
    }
  }

  lemma PartialBelow(t: Forest, t': Forest, q: Path, r: Path, i: nat)
    requires Partial(t, t', Step(q, i), Step(r, i))
    ensures Partial(t, t', q, r)
  {
    EntryIsBelow(q, i);
    EntryIsBelow(r, i);
    forall x | x in t.pages ensures PageWeaker(t, t', x, q) {
      assert PageWeaker(t, t', x, Step(q, i));
      assert Below(x, Step(q, i)) ==> In(x, Entry(Step(q, i)));
    }
    forall y | y in t'.at ensures TableOldOrBelow(t, y, r) {
      assert TableOldOrBelow(t, y, Step(r, i));
      assert Below(y, Step(r, i)) ==> In(y, Entry(Step(r, i)));
    }
    forall y | y in t'.pages ensures PageOldOrBelow(t, y, r) {
      assert PageOldOrBelow(t, y, Step(r, i));
      assert Below(y, Step(r, i)) ==> In(y, Entry(Step(r, i)));
    }
  }

  /** Pages below q lost at most their write bits; all others are untouched; none came or went. */
  ghost predicate OnlyWriteBits(pages: map<Path, Pte>, pages': map<Path, Pte>, q: Path) {
    pages'.Keys == pages.Keys && forall x {:trigger OnlyWriteBit(pages, pages', x, q)} ::
      x in pages ==> OnlyWriteBit(pages, pages', x, q)
  }

  ghost predicate OnlyWriteBit(pages: map<Path, Pte>, pages': map<Path, Pte>, x: Path, q: Path) {
    && x in pages && x in pages'
    && (pages'[x] == pages[x] || (Below(x, q) && pages'[x] == ReadOnly(pages[x])))
  }

  /** The tables of an address space, without its root. */
  ghost function SpaceTables(at: map<Path, Frame>, root: Frame): set<Path> {
    set d | d in at && Below(d, Root(root))
  }

  /** Whether a fork of src succeeds: its root and every other table of its can be mounted, and there is a free frame
      for the twin of each of the latter. */
  ghost predicate CanFork(count: map<Frame, nat>, at: map<Path, Frame>, src: Frame, broken: set<Frame>) {
    && src !in broken && (forall d :: d in SpaceTables(at, src) ==> at[d] !in broken)
    && |Free(count)| >= |SpaceTables(at, src)|
  }

  lemma CanForkMeans(t: Forest, count: map<Frame, nat>, src: Frame, broken: set<Frame>)
    requires Shape(t)
    ensures TablesIn(t.at, First(Root(src), USER)) == SpaceTables(t.at, src)
    ensures CanFork(count, t.at, src, broken) <==> src !in broken && Affordable(count, t.at, First(Root(src), USER), broken)
  {
    var g := First(Root(src), USER);
    forall d | d in t.at ensures In(d, g) <==> Below(d, Root(src)) {
      BelowAll(t, d, Root(src));
    }
    assert TablesIn(t.at, g) == SpaceTables(t.at, src);
    if d :| d in SpaceTables(t.at, src) && t.at[d] in broken {
      assert d in StuckIn(t.at, g, broken);
    }
  }

  /** x86_64_lazycpy: fork src into the empty lower half of dst.  On failure, at any point, every frame count and
      every table is as before; on success dst has a read-only twin of every page of src. */
  method LazyCpy(m: Machine, dst: Frame, src: Frame, broken: set<Frame>) returns (ok: bool)
    requires Inv(m.St()) && Root(src) in m.at && Root(dst) in m.at && src != dst && EmptyBelow(m.St().t, Root(dst))
    modifies m
    ensures Inv(m.St()) && m.data == old(m.data) && m.ext == old(m.ext)
    ensures ok ==> Copied(old(m.St().t), m.St().t, First(Root(src), USER), First(Root(dst), USER), Root(src), Root(dst))
    ensures !ok ==> m.at == old(m.at) && m.count == old(m.count) && OnlyWriteBits(old(m.pages), m.pages, Root(src))
    ensures ok <==> CanFork(old(m.count), old(m.at), src, broken)
    ensures ok ==> |Free(m.count)| == |Free(old(m.count))| - |SpaceTables(old(m.at), src)|
  {
    ghost var s0, q, r := m.St(), Root(src), Root(dst);
    assert NodeOk(s0.t, q) && NodeOk(s0.t, r);
    CanForkMeans(s0.t, m.count, src, broken);
    if src in broken {
      return false;
    }
    ok := CopyBelow(m, q, r, src, dst, 0, broken);
    if !ok {
      ghost var t := m.St().t;
      assert TableKept(s0.t, t, r);
      UnmapFull(m, dst);
      PartialUndone(s0.t, t, q, r);
      SameUses(s0, m.St(), q);
    }
  }

  /** Removing everything below r undoes a copy, whole or partial, except for write bits below q. */
  lemma PartialUndone(t0: Forest, t: Forest, q: Path, r: Path)
    requires EmptyBelow(t0, r) && Partial(t0, t, q, r)
    ensures Outside(t.at, r) == t0.at && OnlyWriteBits(t0.pages, Outside(t.pages, r), q)
  {
    forall x | x in t0.at ensures x in t.at && t.at[x] == t0.at[x] {
      assert TableKept(t0, t, x);
    }
    forall y | y in t.at ensures y in t0.at || Below(y, r) {
      assert TableOldOrBelow(t0, y, r);
    }
    forall y | y in t.pages ensures y in t0.pages || Below(y, r) {
      assert PageOldOrBelow(t0, y, r);
    }
    forall x | x in t0.pages ensures OnlyWriteBit(t0.pages, Outside(t.pages, r), x, q) {
      assert PageWeaker(t0, t, x, q);
    }
  }

  lemma SameRefs(t: Forest, t': Forest, q: Path, f: Frame)
    requires OnlyWriteBits(t.pages, t'.pages, q)
    ensures Refs(t', f) == Refs(t, f)
  {
    forall x | x in t.pages ensures t'.pages[x].frame == t.pages[x].frame {
      assert OnlyWriteBit(t.pages, t'.pages, x, q);
    }
  }

  /** Same tables, same pages up to write bits, same outside references: same counts. */
  lemma SameUses(s: State, s': State, q: Path)
    requires Inv(s) && Inv(s') && s'.ext == s.ext && s'.t.at == s.t.at && OnlyWriteBits(s.t.pages, s'.t.pages, q)
    ensures s'.count == s.count
  {
    forall f | f in s.count ensures s'.count[f] == s.count[f] {
      assert s.count[f] == s.ext[f] + Uses(s.t, f) && s'.count[f] == s'.ext[f] + Uses(s'.t, f);
      SameRefs(s.t, s'.t, q, f);
      if IsTable(s.t, f) {
        UsedByTable(s'.t, s.t.who[f]);
      }
      if IsTable(s'.t, f) {
        UsedByTable(s.t, s'.t.who[f]);
      }
    }
  }

  /** Fork and then tear the child down: every count is back, and the parent lost at most its write bits. */
  method ForkThenTeardown(m: Machine, dst: Frame, src: Frame, broken: set<Frame>) returns (ok: bool)
    requires Inv(m.St()) && Root(src) in m.at && Root(dst) in m.at && src != dst && EmptyBelow(m.St().t, Root(dst))
    modifies m
    ensures Inv(m.St()) && m.data == old(m.data) && m.ext == old(m.ext)
    ensures m.at == old(m.at) && m.count == old(m.count) && OnlyWriteBits(old(m.pages), m.pages, Root(src))
    ensures ok <==> CanFork(old(m.count), old(m.at), src, broken)
  {
    ghost var s0, q, r := m.St(), Root(src), Root(dst);
    ok := LazyCpy(m, dst, src, broken);
    if ok {
      ghost var t := m.St().t;
      assert TableKept(s0.t, t, r);
      UnmapFull(m, dst);
      FirstIsBelow(q, USER);
      FirstIsBelow(r, USER);
      CopiedIsPartial(s0.t, t, First(q, USER), First(r, USER), q, r);
      PartialUndone(s0.t, t, q, r);
      SameUses(s0, m.St(), q);
    }
  }
}
