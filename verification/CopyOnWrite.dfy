/** Page faults on private memory (kernel/arch/pagefault.c): copy-on-write and anonymous pages. */
module CopyOnWrite {
  import opened PageTree
  import opened Subtree
  import opened Paging
  import opened Ledger
  import opened Fork

  datatype Outcome = Handled | NoMemory | AccessDenied | Fault

  const PAGESZ := 4096

  /** x86_64_getmapping: the last-level table that holds the entry of v, if v is mapped; address 0 is refused. */
  method GetMapping(m: Machine, root: Frame, v: Vaddr, off: nat) returns (found: bool, table: Frame)
    requires Inv(m.St()) && Root(root) in m.at && UserAddress(v)
    ensures found <==> PathOf(root, v) in m.pages && !(v == Vaddr(0, 0, 0, 0) && off == 0)
    ensures found ==> PtOf(root, v) in m.at && m.at[PtOf(root, v)] == table
    ensures found ==> table in m.tables && v.i1 < |m.tables[table]| && m.tables[table][v.i1] == m.pages[PathOf(root, v)]
  {
    ghost var t := m.St().t;
    Depths(root, v);
    found, table := false, 0;
    if v == Vaddr(0, 0, 0, 0) && off == 0 {
      return;
    }
    assert LinkOk(t, Root(root), v.i4) && NodeOk(t, Root(root));
    if !m.tables[root][v.i4].p {
      NotThere(t, root, v);
      return;
    }
    var l3 := m.tables[root][v.i4].frame;
    assert LinkOk(t, PdptOf(root, v), v.i3);
    if !m.tables[l3][v.i3].p {
      NotThere(t, root, v);
      return;
    }
    var l2 := m.tables[l3][v.i3].frame;
    assert LinkOk(t, PdtOf(root, v), v.i2);
    if !m.tables[l2][v.i2].p {
      NotThere(t, root, v);
      return;
    }
    var l1 := m.tables[l2][v.i2].frame;
    assert LinkOk(t, PtOf(root, v), v.i1);
    if m.tables[l1][v.i1].p {
      found, table := true, l1;
    }
  }

  /** A mapped address has all its tables. */
  lemma NoneMissing(t: Forest, root: Frame, v: Vaddr)
    requires Shape(t) && PathOf(root, v) in t.pages
    ensures Missing(t.at, root, v) == 0
  {
    Up(t, PathOf(root, v));
    Up(t, PtOf(root, v));
    Up(t, PdtOf(root, v));
  }

  /** enable_write_access: the only user of a frame may write it in place. */
  method EnableWrite(m: Machine, root: Frame, v: Vaddr, table: Frame)
    requires Inv(m.St()) && PathOf(root, v) in m.pages && UserAddress(v)
    requires PtOf(root, v) in m.at && m.at[PtOf(root, v)] == table && table in m.tables && v.i1 < |m.tables[table]|
    requires m.tables[table][v.i1] == m.pages[PathOf(root, v)]
    requires m.pages[PathOf(root, v)].frame in m.count && m.count[m.pages[PathOf(root, v)].frame] == 1
    modifies m
    ensures Inv(m.St()) && m.at == old(m.at) && m.ext == old(m.ext) && m.data == old(m.data) && m.count == old(m.count)
    ensures m.pages == old(m.pages)[PathOf(root, v) := old(m.pages)[PathOf(root, v)].(w := true)]
  {
    ghost var x := PathOf(root, v);
    Depths(root, v);
    assert PageOk(m.St().t, x) && BackedAt(m.St(), x);
    var e := m.tables[table][v.i1];
    m.StoreLeaf(x, table, v.i1, e.(w := true));
    assert m.ext == old(m.ext);
  }

  /** Only the entry of x changed: all other pages show what they showed. */
  lemma ViewMoved(s: State, s': State, x: Path)
    requires Inv(s) && Inv(s') && x in s.t.pages && s'.data == s.data
    requires x in s'.t.pages && s'.t.pages == s.t.pages[x := s'.t.pages[x]]
    ensures View(s') == View(s)[x := View(s')[x]]
  {
  }

  /** The page at x has been given the frame f of its own; the shared frame's reference is in hand. */
  ghost predicate Remapped(s0: State, s: State, x: Path, f: Frame) {
    && x in s0.t.pages && f in s0.count && s0.count[f] == 0 && s0.t.pages[x].frame in s0.ext && f in s0.ext && s0.ext[f] == 0
    && s.count == s0.count[f := 1] && s.data == s0.data && s.t.at == s0.t.at
    && s.t.pages == s0.t.pages[x := Pte(true, true, true, f)]
    && s.ext == s0.ext[s0.t.pages[x].frame := s0.ext[s0.t.pages[x].frame] + 1]
  }

  /** The error path of copy_page_on_write: free the new frame, put the shared entry back. */
  method RestoreShared(m: Machine, root: Frame, v: Vaddr, table: Frame, cow: Pte, ghost f: Frame, ghost s0: State)
    requires Inv(s0) && Inv(m.St()) && UserAddress(v) && Root(root) in m.at
    requires PathOf(root, v) in s0.t.pages && s0.t.pages[PathOf(root, v)] == cow && !cow.w
    requires PtOf(root, v) in m.at && m.at[PtOf(root, v)] == table && Remapped(s0, m.St(), PathOf(root, v), f)
    modifies m
    ensures Inv(m.St()) && m.at == old(m.at) && m.ext == s0.ext && m.pages == s0.t.pages && m.data == s0.data
  {
    ghost var x := PathOf(root, v);
    Depths(root, v);
    assert PageOk(s0.t, x) && BackedAt(s0, x);
    PageIsNoTable(s0, x);
    m.Unmap(root, v);
    assert m.count[cow.frame] == m.ext[cow.frame] + Uses(m.St().t, cow.frame);
    m.StoreLeaf(x, table, v.i1, cow);
    assert m.ext == s0.ext;
    assert m.pages == s0.t.pages;
  }

  /** The success path: fill the new frame from the shared one and drop the shared one's reference. */
  method FillFromShared(m: Machine, root: Frame, v: Vaddr, cow: Pte, f: Frame, ghost s0: State)
    requires Inv(s0) && Inv(m.St()) && PathOf(root, v) in s0.t.pages && s0.t.pages[PathOf(root, v)] == cow
    requires Remapped(s0, m.St(), PathOf(root, v), f)
    modifies m
    ensures Inv(m.St()) && m.at == old(m.at) && m.pages == old(m.pages) && m.ext == s0.ext && View(m.St()) == View(s0)
  {
    ghost var x, s := PathOf(root, v), m.St();
    assert BackedAt(s0, x) && BackedAt(s, x);
    FillFrame(s, x, m.data[cow.frame]);
    ViewMoved(s0, s, x);
    m.data := m.data[f := m.data[cow.frame]];
    assert m.St() == s.(data := s.data[s.t.pages[x].frame := s.data[cow.frame]]);
    assert View(m.St()) == View(s0);
    m.PutPage(cow.frame);
    assert m.ext == s0.ext;
  }

  /** copy_page_on_write: a frame of its own for this page, filled from the shared one, whose reference is dropped;
      when the copy fails the shared entry is put back.  copies: whether the content can be copied. */
  method CopyPage(m: Machine, root: Frame, v: Vaddr, table: Frame, copies: bool)
      returns (ok: bool, ghost f: Frame)
    requires Inv(m.St()) && PathOf(root, v) in m.pages && UserAddress(v) && Root(root) in m.at
    requires PtOf(root, v) in m.at && m.at[PtOf(root, v)] == table && table in m.tables && v.i1 < |m.tables[table]|
    requires m.tables[table][v.i1] == m.pages[PathOf(root, v)] && !m.pages[PathOf(root, v)].w
    modifies m
    ensures Inv(m.St()) && m.at == old(m.at) && m.ext == old(m.ext)
    ensures ok <==> copies && |Free(old(m.count))| > 0
    ensures !ok ==> m.pages == old(m.pages)
    ensures ok ==> m.pages == old(m.pages)[PathOf(root, v) := Pte(true, true, true, f)]
    ensures ok ==> f in old(m.count) && old(m.count)[f] == 0
    ensures View(m.St()) == old(View(m.St()))
  {
    ghost var s0, x := m.St(), PathOf(root, v);
    NoneMissing(s0.t, root, v);
    assert BackedAt(s0, x);
    PageIsNoTable(s0, x);
    var cow := m.tables[table][v.i1];
    var page;
    ok, page := m.GetPage();
    f := page;
    if !ok {
      return;
    }
    assert f in Free(s0.count);
    assert s0.count[f] == s0.ext[f] + Uses(s0.t, f);
    var err := m.Map(root, v.i4, v.i3, v.i2, v.i1, Pte(true, true, true, page), true, false);
    ExtendsSame(s0.t.at, m.at);
    assert Remapped(s0, m.St(), x, f);
    if copies {
      FillFromShared(m, root, v, cow, page, s0);
    } else {
      RestoreShared(m, root, v, table, cow, f, s0);
      ok := false;
    }
  }

  /** Whether a write to the shared page x can be handled: its frame is used once, or there is a free frame and the
      content can be copied. */
  ghost predicate CanCow(s: State, x: Path, copies: bool)
    requires x in s.t.pages
  {
    s.t.pages[x].frame in s.count && (s.count[s.t.pages[x].frame] == 1 || (copies && |Free(s.count)| > 0))
  }

  /** The page x has kept its frame or got one that nobody held. */
  lemma CowClean(s: State, s': State, x: Path)
    requires Inv(s) && s'.ext == s.ext && x in s.t.pages && x in s'.t.pages
    requires s'.t.pages == s.t.pages[x := s'.t.pages[x]]
    requires s'.t.pages[x].frame == s.t.pages[x].frame
             || (s'.t.pages[x].frame in s.ext && s.ext[s'.t.pages[x].frame] == 0)
    ensures Clean(s) ==> Clean(s')
  {
    if Clean(s) {
      assert CleanAt(s, x);
      CleanAdded(s, s', x);
    }
  }

  /** handle_cow_fault: copy a shared frame, keep one that is not shared.  The invalid-count branch is dead. */
  method HandleCowFault(m: Machine, root: Frame, v: Vaddr, table: Frame, copies: bool) returns (r: Outcome)
    requires Inv(m.St()) && PathOf(root, v) in m.pages && UserAddress(v) && Root(root) in m.at
    requires PtOf(root, v) in m.at && m.at[PtOf(root, v)] == table && table in m.tables && v.i1 < |m.tables[table]|
    requires m.tables[table][v.i1] == m.pages[PathOf(root, v)]
    modifies m
    ensures Inv(m.St()) && m.at == old(m.at) && m.ext == old(m.ext)
    ensures View(m.St()) == old(View(m.St()))
    ensures r == Handled || r == NoMemory
    ensures r == Handled <==> CanCow(old(m.St()), PathOf(root, v), copies)
    ensures r == Handled ==> PathOf(root, v) in m.pages && m.pages[PathOf(root, v)].w
    ensures r == NoMemory ==> m.pages == old(m.pages) && m.count == old(m.count)
    ensures old(Clean(m.St())) ==> Clean(m.St())
  {
    ghost var s0, x := m.St(), PathOf(root, v);
    assert BackedAt(s0, x);
    PageIsNoTable(s0, x);
    var pgref := m.count[m.tables[table][v.i1].frame];
    if pgref > 1 {
      var ok;
      ghost var f;
      ok, f := CopyPage(m, root, v, table, copies);
      if !ok {
        SameUsesPages(s0, m.St());
      } else {
        assert s0.count[f] == s0.ext[f] + Uses(s0.t, f);
      }
      CowClean(s0, m.St(), x);
      r := if ok then Handled else NoMemory;
    } else if pgref == 1 {
      EnableWrite(m, root, v, table);
      ViewMoved(s0, m.St(), x);
      CowClean(s0, m.St(), x);
      r := Handled;
    } else {
      r := Fault;
    }
  }

  lemma SameUsesPages(s: State, s': State)
    requires Inv(s) && Inv(s') && s'.ext == s.ext && s'.t.at == s.t.at && s'.t.pages == s.t.pages
    ensures s'.count == s.count
  {
    forall x | x in s.t.pages ensures OnlyWriteBit(s.t.pages, s'.t.pages, x, Root(0)) {
    }
    SameUses(s, s', Root(0));
  }

  /** An anonymous page shows zeros when the region asks for them, else what its frame last held. */
  function NewContent(zero: bool, last: Content): Content {
    if zero then seq(PAGESZ, _ => 0) else last
  }

  /** Mapping an anonymous page x: if appears, an absent page appears; otherwise no page and no view changes.  last:
      what the frames held. */
  ghost predicate AnonymousPage(pages: map<Path, Pte>, mem: map<Path, Content>, pages': map<Path, Pte>,
                                mem': map<Path, Content>, x: Path, w: bool, zero: bool, appears: bool, f: Frame,
                                last: map<Frame, Content>)
  {
    if appears && x !in pages then
      f in last && pages' == pages[x := Pte(true, w, true, f)] && mem' == mem[x := NewContent(zero, last[f])]
    else
      pages' == pages && mem' == mem
  }

  /** It succeeds exactly if there are frames for the page and its missing tables, which are then there; otherwise the
      frame of the page is all that is taken. */
  ghost predicate AnonymousTables(at: map<Path, Frame>, count: map<Frame, nat>, at': map<Path, Frame>,
                                  count': map<Frame, nat>, root: Frame, v: Vaddr, ok: bool)
  {
    && (ok <==> |Free(count)| > Missing(at, root, v))
    && at'.Keys == (if ok then at.Keys + Way(root, v) else at.Keys)
    && Extends(at, at')
    && (ok ==> |Free(count')| == |Free(count)| - 1 - Missing(at, root, v))
    && (!ok ==> |Free(count')| == |Free(count)| - if |Free(count)| > 0 then 1 else 0)
    && UsedKept(count, count')
  }

  /** Whether the frame taken for the page is lost, in use but named by nobody: there is a frame for the page but not
      for the tables, or the page is there already, or its entry is stored without the present bit. */
  ghost predicate FrameWasted(free: nat, missing: nat, present: bool, shows: bool) {
    free > 0 && (free <= missing || present || !shows)
  }

  ghost predicate AnonymousExt(ext: map<Frame, nat>, count: map<Frame, nat>, ext': map<Frame, nat>, wasted: bool, f: Frame)
  {
    if wasted then f in ext && f in count && count[f] == 0 && ext' == ext[f := 1]
    else ext' == ext
  }

  /** map_anonymous_page, by way of x86_64_map_n for one page: a fresh frame behind an absent entry; a present entry
      stays.  shows: the region may be read or executed.  Only then do its flags have the present bit, for PTE_R and PTE_X
      are PTE_P. */
  method MapAnonymous(m: Machine, root: Frame, v: Vaddr, shows: bool, w: bool, zero: bool)
      returns (ok: bool, ghost f: Frame)
    requires Inv(m.St()) && Root(root) in m.at && UserAddress(v)
    modifies m
    ensures Inv(m.St())
    ensures AnonymousPage(old(m.pages), old(View(m.St())), m.pages, View(m.St()), PathOf(root, v), w, zero, ok && shows,
                          f, old(m.data))
    ensures AnonymousTables(old(m.at), old(m.count), m.at, m.count, root, v, ok)
    ensures AnonymousExt(old(m.ext), old(m.count), m.ext,
                         FrameWasted(|Free(old(m.count))|, Missing(old(m.at), root, v), PathOf(root, v) in old(m.pages),
                                     shows), f)
    ensures |Free(old(m.count))| > 0 && m.at.Keys == old(m.at).Keys ==> m.count == old(m.count)[f := 1]
    ensures old(Clean(m.St())) ==> Clean(m.St())
  {
    ghost var s0, x := m.St(), PathOf(root, v);
    var page;
    ok, page := TakeFrame(m, zero);
    f := page;
    if !ok {
      return;
    }
    ghost var s2 := m.St();
    var err := m.Map(root, v.i4, v.i3, v.i2, v.i1, Pte(shows, w, true, page), false, false);
    ok := err == None;
    if ok && shows && x !in s0.t.pages {
      PageAppears(s0, s2, m.St(), root, v, w, zero, f);
    } else {
      FrameTaken(s0, s2, m.St(), root, v, shows, w, zero, ok, f);
    }
    AnonymousClean(s0, m.St(), x, page);
  }

  /** The free frame f is in hand, zeroed if asked for. */
  ghost predicate Taken(s: State, s': State, f: Frame, zero: bool) {
    && f in s.count && s.count[f] == 0 && f in s.ext && s.ext[f] == 0 && f in s.data && s'.t == s.t
    && s'.count == s.count[f := 1] && s'.ext == s.ext[f := 1]
    && s'.data == s.data[f := NewContent(zero, s.data[f])]
    && |Free(s'.count)| == |Free(s.count)| - 1
  }

  lemma PageAppears(s: State, s1: State, s': State, root: Frame, v: Vaddr, w: bool, zero: bool, f: Frame)
    requires Inv(s) && Inv(s1) && Inv(s') && View(s1) == View(s) && PathOf(root, v) !in s.t.pages
    requires Taken(s, s1, f, zero) && MapOutcome(s1, s', root, v, Pte(true, w, true, f), false, true)
    requires s'.data == s1.data && UsedKept(s1.count, s'.count)
    requires Extends(s1.t.at, s'.t.at)
    ensures s'.ext == s.ext && !FrameWasted(|Free(s.count)|, Missing(s.t.at, root, v), false, true)
    ensures s'.t.at.Keys == s.t.at.Keys ==> s'.count == s.count[f := 1]
    ensures AnonymousPage(s.t.pages, View(s), s'.t.pages, View(s'), PathOf(root, v), w, zero, true, f, s.data)
    ensures AnonymousTables(s.t.at, s.count, s'.t.at, s'.count, root, v, true)
  {
    var x := PathOf(root, v);
    assert s'.ext == s.ext;
    ViewAdded(s1, s', x);
    assert BackedAt(s', x);
  }

  lemma FrameTaken(s: State, s1: State, s': State, root: Frame, v: Vaddr, shows: bool, w: bool, zero: bool, ok: bool,
                   f: Frame)
    requires Inv(s) && Inv(s1) && Inv(s') && View(s1) == View(s) && (!ok || !shows || PathOf(root, v) in s.t.pages)
    requires Taken(s, s1, f, zero) && MapOutcome(s1, s', root, v, Pte(shows, w, true, f), false, ok)
    requires s'.data == s1.data && UsedKept(s1.count, s'.count)
    requires !ok ==> s'.t.at == s1.t.at && s'.t.pages == s1.t.pages && s'.count == s1.count && s'.ext == s1.ext
    requires Extends(s1.t.at, s'.t.at)
    ensures FrameWasted(|Free(s.count)|, Missing(s.t.at, root, v), PathOf(root, v) in s.t.pages, shows)
    ensures s'.ext == s.ext[f := 1] && s'.t.pages == s.t.pages && View(s') == View(s)
    ensures s'.t.at.Keys == s.t.at.Keys ==> s'.count == s.count[f := 1]
    ensures AnonymousTables(s.t.at, s.count, s'.t.at, s'.count, root, v, ok)
  {
    if ok && PathOf(root, v) in s.t.pages {
      NoneMissing(s.t, root, v);
    }
    assert s'.t.pages == s.t.pages;
    assert s'.ext[f] == 1;
    ViewSame(s1, s');
  }

  lemma AnonymousClean(s: State, s': State, x: Path, f: Frame)
    requires Inv(s) && f in s.count && s.count[f] == 0 && f in s.ext && s.ext[f] == 0
    requires || (s'.ext == s.ext[f := 1] && s'.t.pages == s.t.pages)
             || (s'.ext == s.ext && x in s'.t.pages && s'.t.pages[x].frame == f && s'.t.pages == s.t.pages[x := s'.t.pages[x]])
    ensures Clean(s) ==> Clean(s')
  {
    if Clean(s) {
      if s'.ext == s.ext[f := 1] && s'.t.pages == s.t.pages {
        CleanLost(s, s', f);
      } else {
        CleanAdded(s, s', x);
      }
    }
  }

  /** pmman.get_page with or without GFP_ZERO: the frame is in hand and no view has changed. */
  method TakeFrame(m: Machine, zero: bool) returns (ok: bool, f: Frame)
    requires Inv(m.St())
    modifies m
    ensures Inv(m.St()) && m.St().t == old(m.St().t) && View(m.St()) == old(View(m.St()))
    ensures ok <==> |Free(old(m.count))| > 0
    ensures !ok ==> m.St() == old(m.St())
    ensures ok ==> Taken(old(m.St()), m.St(), f, zero)
  {
    ghost var s0 := m.St();
    ok, f := m.GetPage();
    if !ok {
      return;
    }
    OneFreeLess(s0.count, f);
    assert s0.count[f] == s0.ext[f] + Uses(s0.t, f);
    ghost var s1 := m.St();
    assert f in Free(s0.count);
    if zero {
      ZeroFree(s1, f, NewContent(true, []));
      m.data := m.data[f := NewContent(true, [])];
      assert m.St() == s1.(data := s1.data[f := NewContent(true, [])]);
    }
  }

  /** Filling a frame that no entry names changes no view. */
  lemma ZeroFree(s: State, f: Frame, c: Content)
    requires Inv(s) && f in s.count && Uses(s.t, f) == 0
    ensures Inv(s.(data := s.data[f := c])) && View(s.(data := s.data[f := c])) == View(s)
  {
    var s' := s.(data := s.data[f := c]);
    Unused(s.t, f);
    forall y | y in s.t.pages ensures BackedAt(s', y) {
      assert BackedAt(s, y);
    }
    forall q | q in s.t.at ensures OwnedAt(s', q) {
      assert OwnedAt(s, q);
    }
  }

  lemma ViewAdded(s: State, s': State, x: Path)
    requires Inv(s) && Inv(s') && x !in s.t.pages && s'.data == s.data
    requires x in s'.t.pages && s'.t.pages == s.t.pages[x := s'.t.pages[x]]
    ensures View(s') == View(s)[x := View(s')[x]]
  {
  }

  lemma ViewSame(s: State, s': State)
    requires Inv(s) && Inv(s') && s'.data == s.data && s'.t.pages == s.t.pages
    ensures View(s') == View(s)
  {
  }

  /** What mapping an absent page of an anonymous region needs: a frame for the page and for each missing table. */
  ghost predicate CanMap(s: State, root: Frame, v: Vaddr) {
    |Free(s.count)| > Missing(s.t.at, root, v)
  }

  /** An absent page is to be mapped and there is a frame for it, but not for its tables, or its entry is not present. */
  ghost predicate LosesFrame(s: State, root: Frame, v: Vaddr, permitted: bool, shows: bool) {
    permitted && PathOf(root, v) !in s.t.pages && |Free(s.count)| > 0 && (!CanMap(s, root, v) || !shows)
  }

  /** The state around a fault handler: tables stay, and at most a free frame is lost, exactly when LosesFrame says so. */
  ghost predicate FaultFrame(s: State, s': State, root: Frame, v: Vaddr, permitted: bool, shows: bool, lost: set<Frame>) {
    && Extends(s.t.at, s'.t.at)
    && (forall r :: Root(r) in s'.t.at ==> Root(r) in s.t.at)
    && s'.ext == Held(s.ext, lost) && lost <= Free(s.count)
    && |lost| == (if LosesFrame(s, root, v, permitted, shows) then 1 else 0)
    && (Clean(s) ==> Clean(s'))
  }

  /** The page address that x86_64_getmapping refuses. */
  predicate IsNull(v: Vaddr, off: nat) {
    v == Vaddr(0, 0, 0, 0) && off == 0
  }

  /** map_anonymous_page on an absent page. */
  method FaultIn(m: Machine, root: Frame, v: Vaddr, shows: bool, w: bool, zero: bool)
      returns (ok: bool, ghost f: Frame, ghost lost: set<Frame>)
    requires Inv(m.St()) && Root(root) in m.at && UserAddress(v) && PathOf(root, v) !in m.pages
    modifies m
    ensures Inv(m.St()) && FaultFrame(old(m.St()), m.St(), root, v, true, shows, lost)
    ensures AnonymousTables(old(m.at), old(m.count), m.at, m.count, root, v, ok)
    ensures !ok ==> m.at == old(m.at)
    ensures !(ok && shows) ==> View(m.St()) == old(View(m.St())) && m.pages == old(m.pages)
    ensures ok && shows ==>
              && f in old(m.data) && PathOf(root, v) in m.pages && m.pages[PathOf(root, v)].w == w
              && View(m.St()) == old(View(m.St()))[PathOf(root, v) := NewContent(zero, old(m.data)[f])]
  {
    ghost var s := m.St();
    ok, f := MapAnonymous(m, root, v, shows, w, zero);
    lost := if LosesFrame(s, root, v, true, shows) then {f} else {};
    FaultFrameOf(s, m.St(), root, v, shows, ok, f);
    if !ok {
      ExtendsSame(s.t.at, m.at);
    }
  }

  lemma FaultFrameOf(s: State, s': State, root: Frame, v: Vaddr, shows: bool, ok: bool, f: Frame)
    requires AnonymousTables(s.t.at, s.count, s'.t.at, s'.count, root, v, ok) && PathOf(root, v) !in s.t.pages
    requires AnonymousExt(s.ext, s.count, s'.ext, FrameWasted(|Free(s.count)|, Missing(s.t.at, root, v), false, shows), f)
    requires Clean(s) ==> Clean(s')
    ensures FaultFrame(s, s', root, v, true, shows, if LosesFrame(s, root, v, true, shows) then {f} else {})
  {
    var lost := if LosesFrame(s, root, v, true, shows) then {f} else {};
    assert s'.ext == Held(s.ext, lost);
  }

  /** Nothing is lost when nothing happens outside the tables. */
  lemma NoLoss(s: State, s': State, root: Frame, v: Vaddr, permitted: bool, shows: bool)
    requires s'.ext == s.ext && s'.t.at == s.t.at && (Clean(s) ==> Clean(s')) && !LosesFrame(s, root, v, permitted, shows)
    ensures FaultFrame(s, s', root, v, permitted, shows, {})
  {
    assert Held(s.ext, {}) == s.ext;
  }

  /** handle_write_fault on a private region: a present page is a copy-on-write page, an absent one is anonymous.
      vmrRead: the region may be read or executed.  Without that right an absent page stays absent, and the fault is still
      answered as handled. */
  method HandleWriteFault(m: Machine, root: Frame, v: Vaddr, off: nat, vmrRead: bool, vmrWrite: bool, vmrZero: bool,
                          copies: bool)
      returns (r: Outcome, ghost f: Frame, ghost lost: set<Frame>)
    requires Inv(m.St()) && Root(root) in m.at && UserAddress(v)
    modifies m
    ensures Inv(m.St()) && FaultFrame(old(m.St()), m.St(), root, v, vmrWrite, vmrRead, lost)
    ensures r == AccessDenied <==> !vmrWrite
    ensures r == Fault <==> vmrWrite && PathOf(root, v) in old(m.pages) && IsNull(v, off)
    ensures r == Handled <==>
              vmrWrite && if PathOf(root, v) in old(m.pages)
                          then !IsNull(v, off) && CanCow(old(m.St()), PathOf(root, v), copies)
                          else CanMap(old(m.St()), root, v)
    ensures r == Handled && PathOf(root, v) in m.pages ==> m.pages[PathOf(root, v)].w
    ensures PathOf(root, v) in m.pages <==> PathOf(root, v) in old(m.pages) || (r == Handled && vmrRead)
    ensures r != Handled ==> m.at == old(m.at)
    ensures r != Handled || PathOf(root, v) !in m.pages ==> View(m.St()) == old(View(m.St())) && m.pages == old(m.pages)
    ensures r == Handled && PathOf(root, v) in old(m.pages) ==> View(m.St()) == old(View(m.St()))
    ensures r == Handled && vmrRead && PathOf(root, v) !in old(m.pages) ==>
              && f in old(m.data)
              && View(m.St()) == old(View(m.St()))[PathOf(root, v) := NewContent(vmrZero, old(m.data)[f])]
    ensures vmrWrite && PathOf(root, v) !in old(m.pages) ==>
              AnonymousTables(old(m.at), old(m.count), m.at, m.count, root, v, r == Handled)
  {
    ghost var s := m.St();
    f, lost := 0, {};
    if !vmrWrite {
      NoLoss(s, s, root, v, vmrWrite, vmrRead);
      return AccessDenied, 0, {};
    }
    var found, table := GetMapping(m, root, v, off);
    if found {
      r := HandleCowFault(m, root, v, table, copies);
      NoLoss(s, m.St(), root, v, vmrWrite, vmrRead);
      return r, 0, {};
    }
    var present := IsPresent(m, root, v);
    if present {
      NoLoss(s, s, root, v, vmrWrite, vmrRead);
      return Fault, 0, {};
    }
    var ok;
    ok, f, lost := FaultIn(m, root, v, vmrRead, true, vmrZero);
    r := if ok then Handled else NoMemory;
  }

  /** What the free frames come to when one page is faulted in again and again. */
  ghost predicate Drained(s0: State, s: State, root: Frame, v: Vaddr, lost: set<Frame>) {
    && Free(s.count) <= Free(s0.count) && lost <= Free(s0.count) && s.ext == Held(s0.ext, lost)
    && Missing(s.t.at, root, v) == 0 && CanMap(s0, root, v)
    && |lost| + |Free(s.count)| == |Free(s0.count)| - Missing(s0.t.at, root, v)
  }

  lemma DrainedFirst(s0: State, s: State, root: Frame, v: Vaddr, lost: set<Frame>)
    requires PathOf(root, v) !in s0.t.pages && FaultFrame(s0, s, root, v, true, false, lost)
    requires AnonymousTables(s0.t.at, s0.count, s.t.at, s.count, root, v, true)
    ensures Drained(s0, s, root, v, lost)
  {
  }

  /** A frame that is held is not free. */
  lemma HeldIsTaken(s0: State, s: State, lost: set<Frame>)
    requires Inv(s0) && Inv(s) && s.ext == Held(s0.ext, lost) && lost <= Free(s0.count)
    ensures lost !! Free(s.count)
  {
    forall f | f in lost ensures f !in Free(s.count) {
      FreeMeans(s, f);
    }
  }

  lemma HeldThen(ext: map<Frame, nat>, lost: set<Frame>, more: set<Frame>)
    ensures Held(Held(ext, lost), more) == Held(ext, lost + more)
  {
  }

  lemma DrainedNext(s0: State, s: State, s': State, root: Frame, v: Vaddr, lost: set<Frame>, more: set<Frame>, ok: bool)
    requires PathOf(root, v) !in s.t.pages && FaultFrame(s, s', root, v, true, false, more) && lost !! Free(s.count)
    requires AnonymousTables(s.t.at, s.count, s'.t.at, s'.count, root, v, ok) && Drained(s0, s, root, v, lost)
    ensures Drained(s0, s', root, v, lost + more)
    ensures if ok then |Free(s'.count)| < |Free(s.count)| else |Free(s'.count)| == 0 == |Free(s.count)|
  {
    HeldThen(s0.ext, lost, more);
    assert |lost + more| == |lost| + |more|;
  }

  /** One attempt of a store to an absent page of a region that may be written but neither read nor executed: it is
      answered as handled if there are frames, and the page stays absent. */
  method Attempt(m: Machine, root: Frame, v: Vaddr, off: nat, vmrZero: bool, copies: bool)
      returns (r: Outcome, ghost lost: set<Frame>)
    requires Inv(m.St()) && Root(root) in m.at && UserAddress(v) && PathOf(root, v) !in m.pages
    modifies m
    ensures Inv(m.St()) && Root(root) in m.at && m.pages == old(m.pages) && View(m.St()) == old(View(m.St()))
    ensures r == (if CanMap(old(m.St()), root, v) then Handled else NoMemory)
    ensures FaultFrame(old(m.St()), m.St(), root, v, true, false, lost)
    ensures AnonymousTables(old(m.at), old(m.count), m.at, m.count, root, v, r == Handled)
  {
    ghost var f;
    r, f, lost := HandleWriteFault(m, root, v, off, false, true, vmrZero, copies);
  }

  /** The processor repeats a store until its page is there or the fault is refused.  Here every attempt loses a frame,
      until no frame is left. */
  method RetryStore(m: Machine, root: Frame, v: Vaddr, off: nat, vmrZero: bool, copies: bool)
      returns (r: Outcome, ghost lost: set<Frame>)
    requires Inv(m.St()) && Root(root) in m.at && UserAddress(v) && PathOf(root, v) !in m.pages
    modifies m
    ensures Inv(m.St()) && r == NoMemory && m.pages == old(m.pages) && View(m.St()) == old(View(m.St()))
    ensures m.ext == Held(old(m.ext), lost) && lost <= Free(old(m.count))
    ensures if CanMap(old(m.St()), root, v)
            then |Free(m.count)| == 0 && |lost| == |Free(old(m.count))| - Missing(old(m.at), root, v)
            else |lost| == if |Free(old(m.count))| > 0 then 1 else 0
  {
    ghost var s0 := m.St();
    r, lost := Attempt(m, root, v, off, vmrZero, copies);
    if r != Handled {
      return;
    }
    DrainedFirst(s0, m.St(), root, v, lost);
    while r == Handled
      invariant Inv(m.St()) && Root(root) in m.at && m.pages == s0.t.pages && View(m.St()) == View(s0)
      invariant Drained(s0, m.St(), root, v, lost)
      invariant r == Handled || (r == NoMemory && |Free(m.count)| == 0)
      decreases |Free(m.count)|, r == Handled
    {
      ghost var s := m.St();
      ghost var more;
      r, more := Attempt(m, root, v, off, vmrZero, copies);
      HeldIsTaken(s0, s, lost);
      DrainedNext(s0, s, m.St(), root, v, lost, more, r == Handled);
      lost := lost + more;
    }
  }

  /** handle_read_exec_fault on a private anonymous region; vmrRead: the region may be read or executed. */
  method HandleReadFault(m: Machine, root: Frame, v: Vaddr, vmrRead: bool, vmrWrite: bool, vmrZero: bool)
      returns (r: Outcome, ghost f: Frame, ghost lost: set<Frame>)
    requires Inv(m.St()) && Root(root) in m.at && UserAddress(v)
    modifies m
    ensures Inv(m.St()) && FaultFrame(old(m.St()), m.St(), root, v, vmrRead, true, lost)
    ensures r == AccessDenied <==> !vmrRead
    ensures r == Fault <==> vmrRead && PathOf(root, v) in old(m.pages)
    ensures r == Handled <==> vmrRead && PathOf(root, v) !in old(m.pages) && CanMap(old(m.St()), root, v)
    ensures r != Handled ==> View(m.St()) == old(View(m.St())) && m.pages == old(m.pages) && m.at == old(m.at)
    ensures r == Handled ==>
              && f in old(m.data) && PathOf(root, v) in m.pages && m.pages[PathOf(root, v)].w == vmrWrite
              && View(m.St()) == old(View(m.St()))[PathOf(root, v) := NewContent(vmrZero, old(m.data)[f])]
  {
    ghost var s := m.St();
    f, lost := 0, {};
    if !vmrRead {
      NoLoss(s, s, root, v, vmrRead, true);
      return AccessDenied, 0, {};
    }
    var present := IsPresent(m, root, v);
    if present {
      NoLoss(s, s, root, v, vmrRead, true);
      return Fault, 0, {};
    }
    var ok;
    ok, f, lost := FaultIn(m, root, v, true, vmrWrite, vmrZero);
    r := if ok then Handled else NoMemory;
  }

  /** The present bit of the hardware's fault code. */
  method IsPresent(m: Machine, root: Frame, v: Vaddr) returns (present: bool)
    requires Inv(m.St()) && Root(root) in m.at && UserAddress(v)
    ensures present <==> PathOf(root, v) in m.pages
  {
    var table;
    present, table := GetMapping(m, root, v, 1);
  }

  /** Storing a byte in a page, as the processor does through a writable entry. */
  function Poke(c: Content, off: nat, b: int): Content {
    if off < |c| then c[off := b] else c
  }

  method Store(m: Machine, root: Frame, v: Vaddr, off: nat, b: int)
    requires Inv(m.St()) && Root(root) in m.at && UserAddress(v)
    requires PathOf(root, v) in m.pages && m.pages[PathOf(root, v)].w
    modifies m
    ensures Inv(m.St()) && m.at == old(m.at) && m.pages == old(m.pages) && m.ext == old(m.ext) && m.count == old(m.count)
    ensures View(m.St()) == old(View(m.St()))[PathOf(root, v) := Poke(old(View(m.St()))[PathOf(root, v)], off, b)]
  {
    ghost var s, x := m.St(), PathOf(root, v);
    assert BackedAt(s, x);
    var found, table := GetMapping(m, root, v, 1);
    var f := m.tables[table][v.i1].frame;
    FillFrame(s, x, Poke(m.data[f], off, b));
    m.data := m.data[f := Poke(m.data[f], off, b)];
    assert m.St() == s.(data := s.data[f := Poke(s.data[f], off, b)]);
  }

  // ---- A machine to start from ----

  ghost function Frames(n: nat): set<Frame> {
    if n == 0 then {} else Frames(n - 1) + {n - 1}
  }

  lemma {:induction false} FramesBelow(n: nat, f: Frame)
    ensures f in Frames(n) <==> f < n
  {
    if n > 0 {
      FramesBelow(n - 1, f);
    }
  }

  /** n frames, of which frame 0 is the empty root table of an address space. */
  ghost function Boot(n: nat): State {
    State(map f | f in Frames(n) :: if f == 0 then 1 else 0,
          map f | f in Frames(n) :: 0,
          map f | f in Frames(n) :: [],
          Forest(map[0 := seq(NPTE, _ => EMPTY)], map[Root(0) := 0], map[0 := Root(0)], map[]))
  }

  lemma BootInv(n: nat)
    requires n > 0
    ensures Inv(Boot(n)) && Root(0) in Boot(n).t.at && |Free(Boot(n).count)| == n - 1
  {
    var s := Boot(n);
    FramesBelow(n, 0);
    assert Depth(Root(0)) == 0;
    forall q | q in s.t.at ensures NodeOk(s.t, q) && OwnedAt(s, q) {
    }
    forall q, i: nat | q in s.t.at && i < Limit(q) ensures LinkOk(s.t, q, i) {
    }
    forall f | f in s.count ensures s.count[f] == s.ext[f] + Uses(s.t, f) {
      assert Refs(s.t, f) == {};
    }
    FreeFrom(n);
  }

  lemma {:induction false} FreeFrom(n: nat)
    requires n > 0
    ensures |Free(Boot(n).count)| == n - 1
  {
    if n == 1 {
      assert Frames(1) == {0};
      assert Free(Boot(1).count) == {};
    } else {
      FreeFrom(n - 1);
      FramesBelow(n - 1, n - 1);
      assert Free(Boot(n).count) == Free(Boot(n - 1).count) + {n - 1};
    }
  }

  /** With one free frame and no tables yet, mapping an anonymous page fails and the frame is lost: it is in use,
      and named by nobody. */
  method FrameIsLost(m: Machine, v: Vaddr, shows: bool, w: bool, zero: bool) returns (ok: bool)
    requires m.St() == Boot(2) && UserAddress(v)
    modifies m
    ensures Inv(m.St()) && !ok && m.pages == map[] && m.at.Keys == {Root(0)}
    ensures m.count == Boot(2).count[1 := 1] && m.ext == Boot(2).ext[1 := 1]
  {
    BootInv(2);
    ghost var f;
    ok, f := MapAnonymous(m, 0, v, shows, w, zero);
    FramesBelow(2, f);
  }

  /** With n - 1 free frames and no tables yet, a store to a page of a region that may be written but neither read nor
      executed makes three tables, takes all other frames, and leaves the page absent. */
  method WriteOnlyStore(m: Machine, n: nat, v: Vaddr, off: nat, zero: bool, copies: bool)
      returns (r: Outcome, ghost lost: set<Frame>)
    requires n > 4 && m.St() == Boot(n) && UserAddress(v)
    modifies m
    ensures Inv(m.St()) && r == NoMemory && m.pages == map[]
    ensures |Free(m.count)| == 0 && m.ext == Held(Boot(n).ext, lost) && |lost| == n - 4
  {
    BootInv(n);
    r, lost := RetryStore(m, 0, v, off, zero, copies);
  }
}
