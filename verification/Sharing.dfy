/** Lazy copying refines eager copying: over every run of forks, reads, writes, faults, unmaps and teardowns each address
    space sees what it would see if fork copied every page (kernel/arch/x86_64/paging.c, kernel/arch/pagefault.c,
    kernel/mm/mmap.c). */
module Sharing {
  import opened PageTree
  import opened Subtree
  import opened LazyCopy
  import opened Paging
  import opened Ledger
  import opened Spaces
  import opened Teardown
  import opened Fork
  import opened CopyOnWrite
  import opened MapRange

  // ---- The eager machine: a content of its own for every page ----

  type Memory = map<Path, Content>

  /** The address spaces there are, by their roots, and what they see. */
  datatype World = World(spaces: set<Frame>, mem: Memory)

  ghost function SpacesOf(at: map<Path, Frame>): set<Frame> {
    set q | q in at && q.Root? :: q.frame
  }

  ghost function WorldOf(s: State): World
    requires Backed(s)
  {
    World(SpacesOf(s.t.at), View(s))
  }

  datatype Effect =
    | Created(root: Frame)
    | Dropped(root: Frame)
    | Forked(src: Frame, dst: Frame)
    | Removed(x: Path)
    | Cleared(root: Frame, ranges: seq<Range>)
    | TornDown(root: Frame)
    | Appeared(x: Path, c: Content)
    | Written(x: Path, off: nat, b: int)

  /** Every page of src is copied into dst. */
  ghost function EagerFork(mem: Memory, src: Frame, dst: Frame): Memory {
    var copies := set x | x in mem && Below(x, Root(src)) :: Rebase(x, Root(src), Root(dst));
    map y | y in mem.Keys + copies ::
      if y in mem then mem[y]
      else if Rebase(y, Root(dst), Root(src)) in mem then mem[Rebase(y, Root(dst), Root(src))] else []
  }

  ghost function Eager(w: World, e: Effect): World {
    match e
    case Created(root) => w.(spaces := w.spaces + {root})
    case Dropped(root) => w.(spaces := w.spaces - {root})
    case Forked(src, dst) => w.(mem := EagerFork(w.mem, src, dst))
    case Removed(x) => w.(mem := w.mem - {x})
    case Cleared(root, ranges) => w.(mem := w.mem - RangeLeaves(root, ranges))
    case TornDown(root) => w.(mem := Outside(w.mem, Root(root)))
    case Appeared(x, c) => w.(mem := w.mem[x := c])
    case Written(x, off, b) => if x in w.mem then w.(mem := w.mem[x := Poke(w.mem[x], off, b)]) else w
  }

  ghost function Replay(w: World, log: seq<Effect>): World {
    if log == [] then w else Eager(Replay(w, log[..|log| - 1]), log[|log| - 1])
  }

  lemma ReplayOne(w: World, e: Effect)
    ensures Replay(w, [e]) == Eager(w, e)
  {
    assert [e][..0] == [];
    assert Replay(w, []) == w;
  }

  lemma ReplayThree(w: World, e: Effect, e': Effect, e'': Effect)
    ensures Replay(w, [e, e', e'']) == Eager(Eager(Eager(w, e), e'), e'')
  {
    assert [e, e', e''][..2] == [e, e'];
    ReplayTwo(w, e, e');
  }

  lemma ReplayTwo(w: World, e: Effect, e': Effect)
    ensures Replay(w, [e, e']) == Eager(Eager(w, e), e')
  {
    assert [e, e'][..1] == [e];
    ReplayOne(w, e);
  }

  // ---- The views of forked spaces ----

  lemma ForkedOld(s0: State, s: State, src: Frame, dst: Frame, x: Path)
    requires Inv(s0) && Inv(s) && s.data == s0.data && x in s0.t.pages
    requires Copied(s0.t, s.t, First(Root(src), USER), First(Root(dst), USER), Root(src), Root(dst))
    ensures x in s.t.pages && s.t.pages[x].frame == s0.t.pages[x].frame && View(s)[x] == View(s0)[x]
  {
    assert PageKept(s0.t, s.t, x, First(Root(src), USER));
  }

  /** A page that came with the fork names the frame of its twin in the parent. */
  lemma ForkedPage(s0: State, s: State, src: Frame, dst: Frame, y: Path) returns (x: Path)
    requires Inv(s0) && Inv(s) && src != dst && s.data == s0.data && y in s.t.pages && y !in s0.t.pages
    requires Copied(s0.t, s.t, First(Root(src), USER), First(Root(dst), USER), Root(src), Root(dst))
    ensures x == Rebase(y, Root(dst), Root(src)) && y == Rebase(x, Root(src), Root(dst)) && Below(x, Root(src))
    ensures x in s0.t.pages && s.t.pages[y].frame == s0.t.pages[x].frame && View(s)[y] == View(s0)[x]
  {
    var q, r := Root(src), Root(dst);
    assert PageOld(s0.t, y, First(r, USER), q, r);
    x := Rebase(y, r, q);
    RebaseBelow(y, r, q);
    BelowAll(s0.t, x, q);
    assert PageCopied(s0.t, s.t, x, q, r);
  }

  lemma ForkedTwin(s0: State, s: State, src: Frame, dst: Frame, x: Path)
    requires Inv(s0) && Inv(s) && x in s0.t.pages && Below(x, Root(src))
    requires Copied(s0.t, s.t, First(Root(src), USER), First(Root(dst), USER), Root(src), Root(dst))
    ensures Rebase(x, Root(src), Root(dst)) in s.t.pages
  {
    BelowAll(s0.t, x, Root(src));
    assert PageCopied(s0.t, s.t, x, Root(src), Root(dst));
  }

  lemma ForkValue(s0: State, s: State, src: Frame, dst: Frame, y: Path)
    requires Inv(s0) && Inv(s) && src != dst && s.data == s0.data && y in s.t.pages
    requires Copied(s0.t, s.t, First(Root(src), USER), First(Root(dst), USER), Root(src), Root(dst))
    ensures y in EagerFork(View(s0), src, dst) && EagerFork(View(s0), src, dst)[y] == View(s)[y]
  {
    if y in s0.t.pages {
      ForkedOld(s0, s, src, dst, y);
    } else {
      var x := ForkedPage(s0, s, src, dst, y);
      assert x in View(s0);
    }
  }

  lemma ForkKey(s0: State, s: State, src: Frame, dst: Frame, y: Path)
    requires Inv(s0) && Inv(s) && s.data == s0.data && y in EagerFork(View(s0), src, dst)
    requires Copied(s0.t, s.t, First(Root(src), USER), First(Root(dst), USER), Root(src), Root(dst))
    ensures y in s.t.pages
  {
    if y in View(s0) {
      ForkedOld(s0, s, src, dst, y);
    } else {
      var x :| x in View(s0) && Below(x, Root(src)) && y == Rebase(x, Root(src), Root(dst));
      ForkedTwin(s0, s, src, dst, x);
    }
  }

  lemma ForkView(s0: State, s: State, src: Frame, dst: Frame)
    requires Inv(s0) && Inv(s) && src != dst && s.data == s0.data
    requires Copied(s0.t, s.t, First(Root(src), USER), First(Root(dst), USER), Root(src), Root(dst))
    ensures View(s) == EagerFork(View(s0), src, dst)
  {
    forall y ensures SameAt(View(s), EagerFork(View(s0), src, dst), y) {
      ForkSameAt(s0, s, src, dst, y);
    }
    SameEverywhere(View(s), EagerFork(View(s0), src, dst));
  }

  ghost predicate SameAt(a: Memory, b: Memory, y: Path) {
    (y in a <==> y in b) && (y in a ==> a[y] == b[y])
  }

  lemma SameEverywhere(a: Memory, b: Memory)
    requires forall y {:trigger SameAt(a, b, y)} :: SameAt(a, b, y)
    ensures a == b
  {
    forall y ensures (y in a <==> y in b) && (y in a ==> a[y] == b[y]) {
      assert SameAt(a, b, y);
    }
  }

  lemma ForkSameAt(s0: State, s: State, src: Frame, dst: Frame, y: Path)
    requires Inv(s0) && Inv(s) && src != dst && s.data == s0.data
    requires Copied(s0.t, s.t, First(Root(src), USER), First(Root(dst), USER), Root(src), Root(dst))
    ensures SameAt(View(s), EagerFork(View(s0), src, dst), y)
  {
    if y in s.t.pages {
      ForkValue(s0, s, src, dst, y);
    } else if y in EagerFork(View(s0), src, dst) {
      ForkKey(s0, s, src, dst, y);
    }
  }

  /** A fork names no new frame. */
  lemma ForkClean(s0: State, s: State, src: Frame, dst: Frame)
    requires Inv(s0) && Inv(s) && src != dst && s.data == s0.data && s.ext == s0.ext && Clean(s0)
    requires Copied(s0.t, s.t, First(Root(src), USER), First(Root(dst), USER), Root(src), Root(dst))
    ensures Clean(s)
  {
    forall y | y in s.t.pages ensures CleanAt(s, y) {
      if y in s0.t.pages {
        ForkedOld(s0, s, src, dst, y);
        assert CleanAt(s0, y);
      } else {
        var x := ForkedPage(s0, s, src, dst, y);
        assert CleanAt(s0, x);
      }
    }
  }

  lemma RemoveView(s: State, s': State, x: Path)
    requires Inv(s) && Inv(s') && s'.data == s.data && s'.t.pages == s.t.pages - {x}
    ensures View(s') == View(s) - {x}
  {
  }

  lemma TeardownView(s: State, s': State, q: Path)
    requires Inv(s) && Inv(s') && s'.data == s.data && s'.t.pages == Outside(s.t.pages, q)
    ensures View(s') == Outside(View(s), q)
  {
  }

  lemma WriteBitsView(s: State, s': State, q: Path)
    requires Inv(s) && Inv(s') && s'.data == s.data && OnlyWriteBits(s.t.pages, s'.t.pages, q)
    ensures View(s') == View(s) && (s'.ext == s.ext && Clean(s) ==> Clean(s'))
  {
    forall x | x in s.t.pages ensures s'.t.pages[x].frame == s.t.pages[x].frame {
      assert OnlyWriteBit(s.t.pages, s'.t.pages, x, q);
    }
    if s'.ext == s.ext {
      FewerClean(s, s');
    }
  }

  /** No page is left that was not there, and none changed its frame. */
  lemma FewerClean(s: State, s': State)
    requires s'.ext == s.ext && forall x :: x in s'.t.pages ==> x in s.t.pages && s'.t.pages[x].frame == s.t.pages[x].frame
    ensures Clean(s) ==> Clean(s')
  {
    if Clean(s) {
      forall x | x in s'.t.pages ensures CleanAt(s', x) {
        assert CleanAt(s, x);
      }
    }
  }

  // ---- Requests ----

  /** mounts: whether a new address space can be set up; cloned: whether all regions of the parent can be cloned;
      broken: the frames that cannot be mounted; copies: whether the content of a page can be copied.  loaded: the address
      space whose tables are loaded, and ranges: the pages of the regions of the address space that is cleaned, or of
      those cloned when a fork fails.  The vmr parameters are the rights and flags of the region the address lies in;
      vmrRead: it may be read or executed. */
  datatype Request =
    | DoCreate(mounts: bool)
    | DoFork(src: Frame, loaded: Frame, ranges: seq<Range>, mounts: bool, cloned: bool, broken: set<Frame>)
    | DoUnmap(root: Frame, v: Vaddr)
    | DoTeardown(root: Frame, loaded: Frame, ranges: seq<Range>)
    | DoExit(root: Frame, loaded: Frame, ranges: seq<Range>)
    | DoRead(root: Frame, v: Vaddr, vmrRead: bool, vmrWrite: bool, vmrZero: bool)
    | DoWrite(root: Frame, v: Vaddr, off: nat, b: int, vmrRead: bool, vmrWrite: bool, vmrZero: bool, copies: bool)

  /** The addresses that a request names belong to the user half. */
  ghost predicate Sensible(q: Request) {
    && (q.DoUnmap? || q.DoRead? || q.DoWrite? ==> UserAddress(q.v))
    && (q.DoFork? || q.DoTeardown? || q.DoExit? ==> UserRanges(q.ranges))
  }

  /** Whether a store is carried out: the entry is writable; or the region is, and the page is shared and can be copied,
      or absent and can be mapped so that it shows. */
  ghost predicate CanWrite(s: State, root: Frame, v: Vaddr, off: nat, vmrRead: bool, vmrWrite: bool, copies: bool) {
    var x := PathOf(root, v);
    if x in s.t.pages then s.t.pages[x].w || (vmrWrite && !IsNull(v, off) && CanCow(s, x, copies))
    else vmrWrite && vmrRead && CanMap(s, root, v)
  }

  /** The address spaces that a request names exist. */
  ghost predicate Exist(s: State, q: Request) {
    match q
    case DoCreate(_) => true
    case DoFork(src, loaded, _, _, _, _) => Root(src) in s.t.at && Root(loaded) in s.t.at
    case DoTeardown(root, loaded, _) => Root(root) in s.t.at && Root(loaded) in s.t.at
    case DoExit(root, loaded, _) => Root(root) in s.t.at && Root(loaded) in s.t.at
    case _ => Root(q.root) in s.t.at
  }

  /** Whether a request is carried out: exactly when its address spaces exist, the rights suffice, nothing that has to be
      mounted, cloned or copied resists, and there are enough free frames. */
  ghost predicate Granted(s: State, q: Request) {
    && Exist(s, q)
    && match q
       case DoCreate(mounts) => mounts && |Free(s.count)| > 0
       case DoFork(src, _, _, mounts, cloned, broken) =>
         && mounts && cloned && CanFork(s.count, s.t.at, src, broken) && |Free(s.count)| > |SpaceTables(s.t.at, src)|
       case DoUnmap(_, _) => true
       case DoTeardown(_, _, _) => true
       case DoExit(_, _, _) => true
       case DoRead(root, v, vmrRead, _, _) => PathOf(root, v) in s.t.pages || (vmrRead && CanMap(s, root, v))
       case DoWrite(root, v, off, _, vmrRead, vmrWrite, _, copies) =>
         CanWrite(s, root, v, off, vmrRead, vmrWrite, copies)
  }

  /** A fork comes as far as the new address space, so that its failure cleans that space again. */
  ghost predicate Begun(s: State, q: Request) {
    q.DoFork? && Exist(s, q) && q.mounts && |Free(s.count)| > 0
  }

  /** What a request does.  Touching an unmapped page makes it appear, zeroed if the region asks for it.  Removing the
      regions of an address space unmaps their pages in the tables that are loaded, whichever they are; so does a fork that
      fails, for the regions cloned so far. */
  ghost predicate Logged(s: State, q: Request, done: bool, log: seq<Effect>) {
    if !done then log == (if Begun(s, q) then [Cleared(q.loaded, q.ranges)] else []) else
    match q
    case DoCreate(_) => |log| == 1 && log[0].Created? && Root(log[0].root) !in s.t.at
    case DoFork(src, _, _, _, _, _) =>
      |log| == 2 && log[0].Created? && Root(log[0].root) !in s.t.at && log[1] == Forked(src, log[0].root)
    case DoUnmap(root, v) => log == [Removed(PathOf(root, v))]
    case DoTeardown(root, loaded, ranges) => log == [Cleared(loaded, ranges), TornDown(root)]
    case DoExit(root, loaded, ranges) => log == [Cleared(loaded, ranges), TornDown(root), Dropped(root)]
    case DoRead(root, v, _, _, vmrZero) =>
      if PathOf(root, v) in s.t.pages then log == [] else |log| == 1 && Appears(log[0], PathOf(root, v), vmrZero)
    case DoWrite(root, v, off, b, _, _, vmrZero, _) =>
      if PathOf(root, v) in s.t.pages then log == [Written(PathOf(root, v), off, b)]
      else |log| == 2 && Appears(log[0], PathOf(root, v), vmrZero) && log[1] == Written(PathOf(root, v), off, b)
  }

  ghost predicate Appears(e: Effect, x: Path, zero: bool) {
    e.Appeared? && e.x == x && (zero ==> e.c == seq(PAGESZ, _ => 0))
  }

  /** Whether a request loses a frame: it is to map an absent page, and there is a frame for the page, but not for its
      tables, or the page will not show. */
  ghost predicate Loses(s: State, q: Request) {
    match q
    case DoRead(root, v, vmrRead, _, _) => Root(root) in s.t.at && LosesFrame(s, root, v, vmrRead, true)
    case DoWrite(root, v, _, _, vmrRead, vmrWrite, _, _) => Root(root) in s.t.at && LosesFrame(s, root, v, vmrWrite, vmrRead)
    case _ => false
  }

  /** A request in state s leads to s'.  It is carried out in full exactly when it is granted; what changes is what the log
      says, but for write bits, tables and the frame that it may lose.  Page frames stay counted by their entries. */
  ghost predicate Answers(s: State, s': State, q: Request, done: bool, log: seq<Effect>, lost: set<Frame>) {
    && Inv(s) && Inv(s')
    && (done <==> Granted(s, q))
    && Logged(s, q, done, log)
    && WorldOf(s') == Replay(WorldOf(s), log)
    && s'.ext == Held(s.ext, lost) && lost <= Free(s.count) && |lost| == (if Loses(s, q) then 1 else 0)
    && (!done && !Loses(s, q) ==> s'.t.at == s.t.at && (log == [] ==> s'.count == s.count))
    && (Clean(s) ==> Clean(s'))
  }

  /** Nothing happened. */
  lemma Refused(s: State, q: Request)
    requires Inv(s) && !Granted(s, q) && !Begun(s, q) && !Loses(s, q)
    ensures Answers(s, s, q, false, [], {})
  {
    assert Held(s.ext, {}) == s.ext;
  }

  /** When a fork that is refused changes no view: exactly when it did not come as far as the new address space, or no
      page of the cloned regions is mapped in the tables that are loaded. */
  lemma RefusedForkMeans(s: State, s': State, q: Request, log: seq<Effect>, lost: set<Frame>)
    requires Answers(s, s', q, false, log, lost) && q.DoFork?
    ensures WorldOf(s') == WorldOf(s) <==> !Begun(s, q) || RangeLeaves(q.loaded, q.ranges) !! s.t.pages.Keys
  {
    if Begun(s, q) {
      RefusedForkView(s, s', q, log, lost);
      ClearedMeans(View(s), RangeLeaves(q.loaded, q.ranges));
    }
  }

  lemma RefusedForkView(s: State, s': State, q: Request, log: seq<Effect>, lost: set<Frame>)
    requires Answers(s, s', q, false, log, lost) && Begun(s, q)
    ensures WorldOf(s') == WorldOf(s).(mem := View(s) - RangeLeaves(q.loaded, q.ranges))
  {
    ReplayOne(WorldOf(s), Cleared(q.loaded, q.ranges));
  }

  /** When cleaning or freeing an address space leaves all others alone: exactly when no page of its regions is mapped in
      the tables that are loaded, or these are its own. */
  lemma CleaningMeans(s: State, s': State, q: Request, log: seq<Effect>, lost: set<Frame>)
    requires Answers(s, s', q, true, log, lost) && (q.DoTeardown? || q.DoExit?)
    ensures View(s') == Outside(View(s), Root(q.root)) <==>
              RangeLeaves(q.loaded, q.ranges) !! Outside(View(s), Root(q.root)).Keys
  {
    var xs := RangeLeaves(q.loaded, q.ranges);
    CleanedWorld(WorldOf(s), q, log);
    OutsideRest(View(s), Root(q.root), xs);
    ClearedMeans(Outside(View(s), Root(q.root)), xs);
  }

  lemma CleanedWorld(w: World, q: Request, log: seq<Effect>)
    requires q.DoTeardown? ==> log == [Cleared(q.loaded, q.ranges), TornDown(q.root)]
    requires q.DoExit? ==> log == [Cleared(q.loaded, q.ranges), TornDown(q.root), Dropped(q.root)]
    requires q.DoTeardown? || q.DoExit?
    ensures Replay(w, log).mem == Outside(w.mem - RangeLeaves(q.loaded, q.ranges), Root(q.root))
  {
    if q.DoExit? {
      ReplayThree(w, Cleared(q.loaded, q.ranges), TornDown(q.root), Dropped(q.root));
    } else {
      ReplayTwo(w, Cleared(q.loaded, q.ranges), TornDown(q.root));
    }
  }

  lemma OutsideRest(mem: Memory, q: Path, xs: set<Path>)
    ensures Outside(mem - xs, q) == Outside(mem, q) - xs
  {
  }

  lemma ClearedMeans(mem: Memory, xs: set<Path>)
    ensures mem - xs == mem <==> xs !! mem.Keys
  {
    if x :| x in xs && x in mem {
      assert x !in mem - xs;
    } else {
      assert mem - xs == mem;
    }
  }

  /** The same roots. */
  lemma SameSpaces(at: map<Path, Frame>, at': map<Path, Frame>)
    requires forall r :: Root(r) in at <==> Root(r) in at'
    ensures SpacesOf(at') == SpacesOf(at)
  {
    forall f | f in SpacesOf(at') ensures f in SpacesOf(at) {
      assert Root(f) in at';
    }
    forall f | f in SpacesOf(at) ensures f in SpacesOf(at') {
      assert Root(f) in at;
    }
  }

  lemma SpaceIn(at: map<Path, Frame>, r: Frame)
    ensures r in SpacesOf(at) <==> Root(r) in at
  {
    if Root(r) in at {
      assert r in SpacesOf(at);
    }
  }

  lemma MoreSpaces(at: map<Path, Frame>, r: Frame)
    ensures SpacesOf(at[Root(r) := r]) == SpacesOf(at) + {r}
  {
    forall f ensures f in SpacesOf(at[Root(r) := r]) <==> f in SpacesOf(at) || f == r {
      SpaceIn(at, f);
      SpaceIn(at[Root(r) := r], f);
    }
  }

  lemma FewerSpaces(at: map<Path, Frame>, r: Frame)
    ensures SpacesOf(at - {Root(r)}) == SpacesOf(at) - {r}
  {
    forall f ensures f in SpacesOf(at - {Root(r)}) <==> f in SpacesOf(at) && f != r {
      SpaceIn(at, f);
      SpaceIn(at - {Root(r)}, f);
    }
  }

  lemma OutsideSpaces(at: map<Path, Frame>, q: Path)
    ensures SpacesOf(Outside(at, q)) == SpacesOf(at)
  {
    SameSpaces(at, Outside(at, q));
  }

  lemma ForkSpaces(t0: Forest, t: Forest, src: Frame, dst: Frame)
    requires Copied(t0, t, First(Root(src), USER), First(Root(dst), USER), Root(src), Root(dst))
    ensures SpacesOf(t.at) == SpacesOf(t0.at)
  {
    forall r ensures Root(r) in t0.at <==> Root(r) in t.at {
      if Root(r) in t0.at {
        assert TableKept(t0, t, Root(r));
      }
      if Root(r) in t.at {
        assert TableOld(t0, Root(r), First(Root(dst), USER));
      }
    }
    SameSpaces(t0.at, t.at);
  }

  // ---- Performing requests ----

  method PerformCreate(m: Machine, mounts: bool) returns (done: bool, root: Frame, ghost log: seq<Effect>)
    requires Inv(m.St())
    modifies m
    ensures Answers(old(m.St()), m.St(), DoCreate(mounts), done, log, {})
    ensures SpacesOf(m.at) == SpacesOf(old(m.at)) + (if done then {root} else {})
  {
    ghost var s := m.St();
    done, root := NewSpace(m, mounts);
    log := if done then [Created(root)] else [];
    assert Held(s.ext, {}) == s.ext;
    FewerClean(s, m.St());
    assert View(m.St()) == View(s);
    if done {
      MoreSpaces(s.t.at, root);
      ReplayOne(WorldOf(s), Created(root));
    }
  }

  /** The page tables of mmap_clean: the regions are removed, which unmaps their pages in the loaded tables; then
      everything is unmapped in root. */
  method CleanSpace(m: Machine, root: Frame, loaded: Frame, ranges: seq<Range>)
    requires Inv(m.St()) && Root(root) in m.at && Root(loaded) in m.at && UserRanges(ranges)
    modifies m
    ensures Inv(m.St()) && m.data == old(m.data) && m.ext == old(m.ext)
    ensures m.at == Outside(old(m.at), Root(root))
    ensures m.pages == Outside(old(m.pages) - RangeLeaves(loaded, ranges), Root(root))
  {
    UnmapRanges(m, loaded, ranges);
    UnmapFull(m, root);
  }

  /** The page tables of mmap_free: the address space is cleaned, and its root given back. */
  method GiveBack(m: Machine, root: Frame, loaded: Frame, ranges: seq<Range>)
    requires Inv(m.St()) && Root(root) in m.at && Root(loaded) in m.at && UserRanges(ranges)
    modifies m
    ensures Inv(m.St()) && m.data == old(m.data) && m.ext == old(m.ext)
    ensures m.at == Outside(old(m.at), Root(root)) - {Root(root)}
    ensures m.pages == Outside(old(m.pages) - RangeLeaves(loaded, ranges), Root(root))
  {
    CleanSpace(m, root, loaded, ranges);
    assert EmptyBelow(m.St().t, Root(root));
    FreeSpace(m, root);
  }

  /** The page tables of mmap_clone: a new root, the lazy copy, and the new address space freed when the copy fails. */
  method PerformFork(m: Machine, src: Frame, loaded: Frame, ranges: seq<Range>, mounts: bool, cloned: bool,
                     broken: set<Frame>)
      returns (done: bool, root: Frame, ghost log: seq<Effect>)
    requires Inv(m.St()) && Root(src) in m.at && Root(loaded) in m.at && UserRanges(ranges)
    modifies m
    ensures Answers(old(m.St()), m.St(), DoFork(src, loaded, ranges, mounts, cloned, broken), done, log, {})
    ensures SpacesOf(m.at) == SpacesOf(old(m.at)) + (if done then {root} else {})
  {
    ghost var s := m.St();
    var ok;
    ok, root := NewSpace(m, mounts);
    if !ok {
      ForkRefused(s, m.St(), src, loaded, ranges, mounts, cloned, broken);
      return false, root, [];
    }
    GrantedFork(s, m.St(), src, loaded, ranges, root, cloned, broken);
    done := ForkInto(m, src, loaded, ranges, root, cloned, broken, s);
    log := if done then [Created(root), Forked(src, root)] else [Cleared(loaded, ranges)];
  }

  /** The lazy copy into a new address space, which is freed when the copy fails. */
  method ForkInto(m: Machine, src: Frame, loaded: Frame, ranges: seq<Range>, root: Frame, cloned: bool,
                  broken: set<Frame>, ghost s: State)
      returns (done: bool)
    requires Inv(s) && Inv(m.St()) && Root(src) in s.t.at && Root(loaded) in s.t.at && UserRanges(ranges)
    requires Root(root) !in s.t.at && EmptyBelow(m.St().t, Root(root)) && |Free(s.count)| > 0
    requires m.at == s.t.at[Root(root) := root] && m.pages == s.t.pages && m.data == s.data && m.ext == s.ext
    requires Granted(s, DoFork(src, loaded, ranges, true, cloned, broken)) <==> cloned && CanFork(m.count, m.at, src, broken)
    modifies m
    ensures Answers(s, m.St(), DoFork(src, loaded, ranges, true, cloned, broken), done,
                    if done then [Created(root), Forked(src, root)] else [Cleared(loaded, ranges)], {})
    ensures SpacesOf(m.at) == SpacesOf(s.t.at) + (if done then {root} else {})
  {
    ghost var s1 := m.St();
    WriteBitsSame(s1.t.pages, Root(src));
    done := false;
    if cloned {
      done := LazyCpy(m, root, src, broken);
    }
    if done {
      ForkAnswers(s, s1, m.St(), src, loaded, ranges, root, cloned, broken);
    } else {
      ghost var s2 := m.St();
      StillEmpty(s1.t, s2.t, src, root);
      GiveBack(m, root, loaded, ranges);
      Restored(s.t.at, s2.t, root, s2.t.pages - RangeLeaves(loaded, ranges));
      ForkUndone(s, s2, m.St(), DoFork(src, loaded, ranges, true, cloned, broken));
    }
  }

  lemma WriteBitsSame(pages: map<Path, Pte>, q: Path)
    ensures OnlyWriteBits(pages, pages, q)
  {
    forall x | x in pages ensures OnlyWriteBit(pages, pages, x, q) {
    }
  }

  /** Freeing an address space without pages takes away its root and nothing else. */
  lemma Restored(at: map<Path, Frame>, t: Forest, root: Frame, pages: map<Path, Pte>)
    requires Root(root) !in at && t.at == at[Root(root) := root] && EmptyBelow(t, Root(root)) && pages.Keys <= t.pages.Keys
    ensures Outside(t.at, Root(root)) - {Root(root)} == at && Outside(pages, Root(root)) == pages
  {
  }

  /** A fork that fails after the new address space was made: s2 is the state before it is freed. */
  lemma ForkUndone(s: State, s2: State, s': State, q: Request)
    requires Inv(s) && Inv(s2) && Inv(s') && !Granted(s, q) && Begun(s, q)
    requires s2.data == s.data == s'.data && s2.ext == s.ext == s'.ext && s'.t.at == s.t.at
    requires OnlyWriteBits(s.t.pages, s2.t.pages, Root(q.src))
    requires s'.t.pages == s2.t.pages - RangeLeaves(q.loaded, q.ranges)
    ensures Answers(s, s', q, false, [Cleared(q.loaded, q.ranges)], {})
  {
    assert Held(s.ext, {}) == s.ext;
    WriteBitsView(s, s2, Root(q.src));
    LessView(s2, s', RangeLeaves(q.loaded, q.ranges));
    FewerClean(s2, s');
    ReplayOne(WorldOf(s), Cleared(q.loaded, q.ranges));
  }

  /** A new root takes one frame and leaves the tables of src alone. */
  lemma GrantedFork(s: State, s1: State, src: Frame, loaded: Frame, ranges: seq<Range>, root: Frame, cloned: bool,
                    broken: set<Frame>)
    requires Root(src) in s.t.at && Root(loaded) in s.t.at && Root(root) !in s.t.at && s1.t.at == s.t.at[Root(root) := root]
    requires |Free(s1.count)| == |Free(s.count)| - 1
    ensures Granted(s, DoFork(src, loaded, ranges, true, cloned, broken)) <==>
              cloned && CanFork(s1.count, s1.t.at, src, broken)
  {
    assert SpaceTables(s1.t.at, src) == SpaceTables(s.t.at, src);
  }

  lemma StillEmpty(t1: Forest, t: Forest, src: Frame, root: Frame)
    requires EmptyBelow(t1, Root(root)) && t.at == t1.at && OnlyWriteBits(t1.pages, t.pages, Root(src))
    ensures EmptyBelow(t, Root(root))
  {
  }

  /** A fork for which no address space can be made changes nothing. */
  lemma ForkRefused(s: State, s': State, src: Frame, loaded: Frame, ranges: seq<Range>, mounts: bool, cloned: bool,
                    broken: set<Frame>)
    requires Inv(s) && Inv(s') && !(mounts && |Free(s.count)| > 0) && s'.data == s.data && s'.ext == s.ext
    requires s'.count == s.count && s'.t.at == s.t.at && s'.t.pages == s.t.pages
    ensures Answers(s, s', DoFork(src, loaded, ranges, mounts, cloned, broken), false, [], {})
  {
    assert Held(s.ext, {}) == s.ext;
    ViewSame(s, s');
    FewerClean(s, s');
  }

  lemma ForkAnswers(s: State, s1: State, s': State, src: Frame, loaded: Frame, ranges: seq<Range>, root: Frame,
                    cloned: bool, broken: set<Frame>)
    requires Inv(s) && Inv(s1) && Inv(s') && Granted(s, DoFork(src, loaded, ranges, true, cloned, broken)) && src != root
    requires Root(root) !in s.t.at && s1.t.at == s.t.at[Root(root) := root] && s1.t.pages == s.t.pages && s1.data == s.data
    requires s'.data == s1.data && s1.ext == s.ext && s'.ext == s1.ext
    requires Copied(s1.t, s'.t, First(Root(src), USER), First(Root(root), USER), Root(src), Root(root))
    ensures Answers(s, s', DoFork(src, loaded, ranges, true, cloned, broken), true, [Created(root), Forked(src, root)], {})
    ensures SpacesOf(s'.t.at) == SpacesOf(s.t.at) + {root}
  {
    assert Held(s.ext, {}) == s.ext;
    assert View(s1) == View(s);
    MoreSpaces(s.t.at, root);
    ForkSpaces(s1.t, s'.t, src, root);
    ForkView(s1, s', src, root);
    ReplayTwo(WorldOf(s), Created(root), Forked(src, root));
    FewerClean(s, s1);
    if Clean(s) {
      ForkClean(s1, s', src, root);
    }
  }

  method PerformUnmap(m: Machine, root: Frame, v: Vaddr) returns (ghost log: seq<Effect>)
    requires Inv(m.St()) && Root(root) in m.at && UserAddress(v)
    modifies m
    ensures Answers(old(m.St()), m.St(), DoUnmap(root, v), true, log, {}) && m.at == old(m.at)
  {
    ghost var s := m.St();
    m.Unmap(root, v);
    log := [Removed(PathOf(root, v))];
    UnmapAnswers(s, m.St(), root, v);
  }

  lemma UnmapAnswers(s: State, s': State, root: Frame, v: Vaddr)
    requires Inv(s) && Inv(s') && Root(root) in s.t.at && s'.t.at == s.t.at && s'.data == s.data && s'.ext == s.ext
    requires s'.t.pages == s.t.pages - {PathOf(root, v)}
    ensures Answers(s, s', DoUnmap(root, v), true, [Removed(PathOf(root, v))], {})
  {
    assert Held(s.ext, {}) == s.ext;
    RemoveView(s, s', PathOf(root, v));
    FewerClean(s, s');
    ReplayOne(WorldOf(s), Removed(PathOf(root, v)));
  }

  method PerformTeardown(m: Machine, root: Frame, loaded: Frame, ranges: seq<Range>) returns (ghost log: seq<Effect>)
    requires Inv(m.St()) && Root(root) in m.at && Root(loaded) in m.at && UserRanges(ranges)
    modifies m
    ensures Answers(old(m.St()), m.St(), DoTeardown(root, loaded, ranges), true, log, {})
    ensures SpacesOf(m.at) == SpacesOf(old(m.at))
  {
    ghost var s := m.St();
    CleanSpace(m, root, loaded, ranges);
    log := [Cleared(loaded, ranges), TornDown(root)];
    TeardownAnswers(s, m.St(), root, loaded, ranges);
  }

  lemma TeardownAnswers(s: State, s': State, root: Frame, loaded: Frame, ranges: seq<Range>)
    requires Inv(s) && Inv(s') && Root(root) in s.t.at && Root(loaded) in s.t.at && s'.data == s.data && s'.ext == s.ext
    requires s'.t.at == Outside(s.t.at, Root(root))
    requires s'.t.pages == Outside(s.t.pages - RangeLeaves(loaded, ranges), Root(root))
    ensures Answers(s, s', DoTeardown(root, loaded, ranges), true, [Cleared(loaded, ranges), TornDown(root)], {})
    ensures SpacesOf(s'.t.at) == SpacesOf(s.t.at)
  {
    OutsideSpaces(s.t.at, Root(root));
    CleanView(s, s', root, loaded, ranges);
    ReplayTwo(WorldOf(s), Cleared(loaded, ranges), TornDown(root));
  }

  lemma CleanView(s: State, s': State, root: Frame, loaded: Frame, ranges: seq<Range>)
    requires Inv(s) && Inv(s') && s'.data == s.data && s'.ext == s.ext
    requires s'.t.pages == Outside(s.t.pages - RangeLeaves(loaded, ranges), Root(root))
    ensures View(s') == Outside(View(s) - RangeLeaves(loaded, ranges), Root(root))
    ensures s'.ext == Held(s.ext, {}) && (Clean(s) ==> Clean(s'))
  {
    assert Held(s.ext, {}) == s.ext;
    FewerClean(s, s');
  }

  /** mmap_free. */
  method PerformExit(m: Machine, root: Frame, loaded: Frame, ranges: seq<Range>) returns (ghost log: seq<Effect>)
    requires Inv(m.St()) && Root(root) in m.at && Root(loaded) in m.at && UserRanges(ranges)
    modifies m
    ensures Answers(old(m.St()), m.St(), DoExit(root, loaded, ranges), true, log, {})
    ensures SpacesOf(m.at) == SpacesOf(old(m.at)) - {root}
  {
    ghost var s := m.St();
    GiveBack(m, root, loaded, ranges);
    log := [Cleared(loaded, ranges), TornDown(root), Dropped(root)];
    ExitAnswers(s, m.St(), root, loaded, ranges);
  }

  lemma ExitAnswers(s: State, s': State, root: Frame, loaded: Frame, ranges: seq<Range>)
    requires Inv(s) && Inv(s') && Root(root) in s.t.at && Root(loaded) in s.t.at && s'.data == s.data && s'.ext == s.ext
    requires s'.t.at == Outside(s.t.at, Root(root)) - {Root(root)}
    requires s'.t.pages == Outside(s.t.pages - RangeLeaves(loaded, ranges), Root(root))
    ensures Answers(s, s', DoExit(root, loaded, ranges), true, [Cleared(loaded, ranges), TornDown(root), Dropped(root)], {})
    ensures SpacesOf(s'.t.at) == SpacesOf(s.t.at) - {root}
  {
    OutsideSpaces(s.t.at, Root(root));
    FewerSpaces(Outside(s.t.at, Root(root)), root);
    CleanView(s, s', root, loaded, ranges);
    ReplayThree(WorldOf(s), Cleared(loaded, ranges), TornDown(root), Dropped(root));
  }

  /** A load by a user program: through the entry if there is one, else after the fault has been handled. */
  method PerformRead(m: Machine, root: Frame, v: Vaddr, vmrRead: bool, vmrWrite: bool, vmrZero: bool)
      returns (done: bool, ghost log: seq<Effect>, ghost lost: set<Frame>)
    requires Inv(m.St()) && Root(root) in m.at && UserAddress(v)
    modifies m
    ensures Answers(old(m.St()), m.St(), DoRead(root, v, vmrRead, vmrWrite, vmrZero), done, log, lost)
    ensures SpacesOf(m.at) == SpacesOf(old(m.at))
  {
    ghost var s, x := m.St(), PathOf(root, v);
    var present := IsPresent(m, root, v);
    if present {
      assert Held(s.ext, {}) == s.ext;
      return true, [], {};
    }
    var r;
    ghost var f;
    r, f, lost := HandleReadFault(m, root, v, vmrRead, vmrWrite, vmrZero);
    done := r == Handled;
    FaultSpaces(s, m.St(), root, v, vmrRead, true, lost);
    if done {
      log := [Appeared(x, View(m.St())[x])];
      ReadAppears(s, m.St(), root, v, vmrRead, vmrWrite, vmrZero, lost, f);
    } else {
      log := [];
      ReadRefused(s, m.St(), root, v, vmrRead, vmrWrite, vmrZero, lost);
    }
  }

  lemma ReadAppears(s: State, s': State, root: Frame, v: Vaddr, vmrRead: bool, vmrWrite: bool, vmrZero: bool,
                    lost: set<Frame>, f: Frame)
    requires Inv(s) && Inv(s') && FaultFrame(s, s', root, v, vmrRead, true, lost) && Root(root) in s.t.at
    requires vmrRead && PathOf(root, v) !in s.t.pages && CanMap(s, root, v) && f in s.data
    requires View(s') == View(s)[PathOf(root, v) := NewContent(vmrZero, s.data[f])] && SpacesOf(s'.t.at) == SpacesOf(s.t.at)
    ensures Answers(s, s', DoRead(root, v, vmrRead, vmrWrite, vmrZero), true,
                    [Appeared(PathOf(root, v), View(s')[PathOf(root, v)])], lost)
  {
    ReplayOne(WorldOf(s), Appeared(PathOf(root, v), View(s')[PathOf(root, v)]));
  }

  lemma ReadRefused(s: State, s': State, root: Frame, v: Vaddr, vmrRead: bool, vmrWrite: bool, vmrZero: bool,
                    lost: set<Frame>)
    requires Inv(s) && Inv(s') && FaultFrame(s, s', root, v, vmrRead, true, lost) && Root(root) in s.t.at
    requires PathOf(root, v) !in s.t.pages && !(vmrRead && CanMap(s, root, v))
    requires View(s') == View(s) && SpacesOf(s'.t.at) == SpacesOf(s.t.at) && s'.t.pages == s.t.pages && s'.t.at == s.t.at
    ensures Answers(s, s', DoRead(root, v, vmrRead, vmrWrite, vmrZero), false, [], lost)
  {
    SameAfterFault(s, s', root, v, vmrRead, true, lost);
  }

  lemma FaultSpaces(s: State, s': State, root: Frame, v: Vaddr, permitted: bool, shows: bool, lost: set<Frame>)
    requires FaultFrame(s, s', root, v, permitted, shows, lost)
    ensures SpacesOf(s'.t.at) == SpacesOf(s.t.at)
  {
    forall r ensures Root(r) in s.t.at <==> Root(r) in s'.t.at {
      if Root(r) in s.t.at {
        assert SameTable(s.t.at, s'.t.at, Root(r));
      }
    }
    SameSpaces(s.t.at, s'.t.at);
  }

  /** A fault that was refused without losing a frame has changed nothing. */
  lemma SameAfterFault(s: State, s': State, root: Frame, v: Vaddr, permitted: bool, shows: bool, lost: set<Frame>)
    requires Inv(s) && Inv(s') && FaultFrame(s, s', root, v, permitted, shows, lost) && s'.t.pages == s.t.pages && s'.t.at == s.t.at
    ensures !LosesFrame(s, root, v, permitted, shows) ==> s'.count == s.count
  {
    if !LosesFrame(s, root, v, permitted, shows) {
      assert lost == {};
      assert Held(s.ext, {}) == s.ext;
      SameUsesPages(s, s');
    }
  }

  /** A store by a user program: through the entry if it is writable, else after the fault has been handled. */
  method PerformWrite(m: Machine, root: Frame, v: Vaddr, off: nat, b: int, vmrRead: bool, vmrWrite: bool, vmrZero: bool, copies: bool)
      returns (done: bool, ghost log: seq<Effect>, ghost lost: set<Frame>)
    requires Inv(m.St()) && Root(root) in m.at && UserAddress(v)
    modifies m
    ensures Answers(old(m.St()), m.St(), DoWrite(root, v, off, b, vmrRead, vmrWrite, vmrZero, copies), done, log, lost)
    ensures SpacesOf(m.at) == SpacesOf(old(m.at))
  {
    ghost var s, x := m.St(), PathOf(root, v);
    var found, table := GetMapping(m, root, v, 1);
    if found && m.tables[table][v.i1].w {
      Store(m, root, v, off, b);
      FewerClean(s, m.St());
      StoreAnswers(s, m.St(), root, v, off, b, vmrRead, vmrWrite, vmrZero, copies);
      return true, [Written(x, off, b)], {};
    }
    done, log, lost := WriteAfterFault(m, root, v, off, b, vmrRead, vmrWrite, vmrZero, copies, found);
  }

  method WriteAfterFault(m: Machine, root: Frame, v: Vaddr, off: nat, b: int, vmrRead: bool, vmrWrite: bool, vmrZero: bool, copies: bool,
                         found: bool)
      returns (done: bool, ghost log: seq<Effect>, ghost lost: set<Frame>)
    requires Inv(m.St()) && Root(root) in m.at && UserAddress(v)
    requires found <==> PathOf(root, v) in m.pages
    requires found ==> !m.pages[PathOf(root, v)].w
    modifies m
    ensures Answers(old(m.St()), m.St(), DoWrite(root, v, off, b, vmrRead, vmrWrite, vmrZero, copies), done, log, lost)
    ensures SpacesOf(m.at) == SpacesOf(old(m.at))
  {
    ghost var s, x := m.St(), PathOf(root, v);
    var r;
    ghost var f;
    r, f, lost := HandleWriteFault(m, root, v, off, vmrRead, vmrWrite, vmrZero, copies);
    FaultSpaces(s, m.St(), root, v, vmrWrite, vmrRead, lost);
    done := r == Handled && (vmrRead || found);
    if !done {
      log := [];
      WriteRefused(s, m.St(), root, v, off, b, vmrRead, vmrWrite, vmrZero, copies, lost);
      return;
    }
    assert SameTable(s.t.at, m.at, Root(root));
    log := if found then [Written(x, off, b)] else [Appeared(x, View(m.St())[x]), Written(x, off, b)];
    StoreAfterFault(m, root, v, off, b, vmrRead, vmrWrite, vmrZero, copies, found, s, lost, log);
  }

  /** The store, once the fault has been handled in state s. */
  method StoreAfterFault(m: Machine, root: Frame, v: Vaddr, off: nat, b: int, vmrRead: bool, vmrWrite: bool, vmrZero: bool,
                         copies: bool, ghost found: bool, ghost s: State, ghost lost: set<Frame>, ghost log: seq<Effect>)
    requires Inv(s) && Inv(m.St()) && Root(root) in m.at && Root(root) in s.t.at && UserAddress(v)
    requires PathOf(root, v) in m.pages && m.pages[PathOf(root, v)].w && (found <==> PathOf(root, v) in s.t.pages)
    requires CanWrite(s, root, v, off, vmrRead, vmrWrite, copies) && SpacesOf(m.at) == SpacesOf(s.t.at)
    requires FaultFrame(s, m.St(), root, v, vmrWrite, vmrRead, lost)
    requires found ==> View(m.St()) == View(s) && log == [Written(PathOf(root, v), off, b)]
    requires !found ==>
               && View(m.St()) == View(s)[PathOf(root, v) := View(m.St())[PathOf(root, v)]]
               && (vmrZero ==> View(m.St())[PathOf(root, v)] == seq(PAGESZ, _ => 0))
               && log == [Appeared(PathOf(root, v), View(m.St())[PathOf(root, v)]), Written(PathOf(root, v), off, b)]
    modifies m
    ensures Answers(s, m.St(), DoWrite(root, v, off, b, vmrRead, vmrWrite, vmrZero, copies), true, log, lost)
    ensures SpacesOf(m.at) == SpacesOf(s.t.at)
  {
    ghost var s1, x := m.St(), PathOf(root, v);
    Store(m, root, v, off, b);
    FewerClean(s1, m.St());
    if found {
      assert lost == {};
      assert Held(s.ext, {}) == s.ext;
      StoreAnswers(s, m.St(), root, v, off, b, vmrRead, vmrWrite, vmrZero, copies);
    } else {
      SameFault(s, s1, m.St(), root, v, vmrWrite, vmrRead, lost);
      NewWriteAnswers(s, m.St(), root, v, off, b, vmrRead, vmrWrite, vmrZero, copies, lost, View(s1)[x]);
    }
  }

  /** A store changes nothing of what a fault has done around the page. */
  lemma SameFault(s: State, s1: State, s': State, root: Frame, v: Vaddr, permitted: bool, shows: bool, lost: set<Frame>)
    requires FaultFrame(s, s1, root, v, permitted, shows, lost) && s'.t.at == s1.t.at && s'.ext == s1.ext
    requires Clean(s1) ==> Clean(s')
    ensures FaultFrame(s, s', root, v, permitted, shows, lost)
  {
  }

  /** A store to a page that was there. */
  lemma StoreAnswers(s: State, s': State, root: Frame, v: Vaddr, off: nat, b: int, vmrRead: bool, vmrWrite: bool, vmrZero: bool,
                     copies: bool)
    requires Inv(s) && Inv(s') && Root(root) in s.t.at && PathOf(root, v) in s.t.pages
    requires CanWrite(s, root, v, off, vmrRead, vmrWrite, copies)
    requires SpacesOf(s'.t.at) == SpacesOf(s.t.at) && s'.ext == s.ext && (Clean(s) ==> Clean(s'))
    requires View(s') == View(s)[PathOf(root, v) := Poke(View(s)[PathOf(root, v)], off, b)]
    ensures Answers(s, s', DoWrite(root, v, off, b, vmrRead, vmrWrite, vmrZero, copies), true, [Written(PathOf(root, v), off, b)], {})
  {
    assert Held(s.ext, {}) == s.ext;
    assert Granted(s, DoWrite(root, v, off, b, vmrRead, vmrWrite, vmrZero, copies));
    StoreWorld(WorldOf(s), WorldOf(s'), PathOf(root, v), off, b);
  }

  lemma StoreWorld(w: World, w': World, x: Path, off: nat, b: int)
    requires x in w.mem && w'.spaces == w.spaces && w'.mem == w.mem[x := Poke(w.mem[x], off, b)]
    ensures w' == Replay(w, [Written(x, off, b)])
  {
    ReplayOne(w, Written(x, off, b));
  }

  lemma WriteRefused(s: State, s': State, root: Frame, v: Vaddr, off: nat, b: int, vmrRead: bool, vmrWrite: bool, vmrZero: bool,
                     copies: bool, lost: set<Frame>)
    requires Inv(s) && Inv(s') && FaultFrame(s, s', root, v, vmrWrite, vmrRead, lost) && Root(root) in s.t.at
    requires !CanWrite(s, root, v, off, vmrRead, vmrWrite, copies)
    requires View(s') == View(s) && SpacesOf(s'.t.at) == SpacesOf(s.t.at) && s'.t.pages == s.t.pages
    requires s'.t.at == s.t.at || LosesFrame(s, root, v, vmrWrite, vmrRead)
    ensures Answers(s, s', DoWrite(root, v, off, b, vmrRead, vmrWrite, vmrZero, copies), false, [], lost)
  {
    if s'.t.at == s.t.at {
      SameAfterFault(s, s', root, v, vmrWrite, vmrRead, lost);
    }
  }

  /** A store after an anonymous page has been mapped. */
  lemma NewWriteAnswers(s: State, s': State, root: Frame, v: Vaddr, off: nat, b: int, vmrRead: bool, vmrWrite: bool, vmrZero: bool,
                        copies: bool, lost: set<Frame>, c: Content)
    requires Inv(s) && Inv(s') && FaultFrame(s, s', root, v, vmrWrite, vmrRead, lost) && Root(root) in s.t.at
    requires CanWrite(s, root, v, off, vmrRead, vmrWrite, copies) && SpacesOf(s'.t.at) == SpacesOf(s.t.at)
    requires PathOf(root, v) !in s.t.pages && (vmrZero ==> c == seq(PAGESZ, _ => 0))
    requires View(s') == View(s)[PathOf(root, v) := c][PathOf(root, v) := Poke(c, off, b)]
    ensures Answers(s, s', DoWrite(root, v, off, b, vmrRead, vmrWrite, vmrZero, copies), true,
                    [Appeared(PathOf(root, v), c), Written(PathOf(root, v), off, b)], lost)
  {
    ReplayTwo(WorldOf(s), Appeared(PathOf(root, v), c), Written(PathOf(root, v), off, b));
  }

  /** One request.  spaces: the roots of the address spaces there are; a request that names another is refused. */
  method Perform(m: Machine, spaces: set<Frame>, q: Request)
      returns (done: bool, spaces': set<Frame>, ghost log: seq<Effect>, ghost lost: set<Frame>)
    requires Inv(m.St()) && spaces == SpacesOf(m.at) && Sensible(q)
    modifies m
    ensures Answers(old(m.St()), m.St(), q, done, log, lost) && spaces' == SpacesOf(m.at)
  {
    done, spaces', log, lost := false, spaces, [], {};
    var root := 0;
    if !q.DoCreate? {
      var named := if q.DoFork? then q.src else q.root;
      var loaded := if q.DoFork? || q.DoTeardown? || q.DoExit? then q.loaded else q.root;
      SpaceIn(m.at, named);
      SpaceIn(m.at, loaded);
      if named !in spaces || loaded !in spaces {
        Refused(m.St(), q);
        return;
      }
    }
    match q
    case DoCreate(mounts) =>
      done, root, log := PerformCreate(m, mounts);
      spaces' := if done then spaces + {root} else spaces;
    case DoFork(src, loaded, ranges, mounts, cloned, broken) =>
      done, root, log := PerformFork(m, src, loaded, ranges, mounts, cloned, broken);
      spaces' := if done then spaces + {root} else spaces;
    case DoUnmap(r, v) =>
      log := PerformUnmap(m, r, v);
      done := true;
    case DoTeardown(r, loaded, ranges) =>
      log := PerformTeardown(m, r, loaded, ranges);
      done := true;
    case DoExit(r, loaded, ranges) =>
      log := PerformExit(m, r, loaded, ranges);
      done, spaces' := true, spaces - {r};
    case DoRead(r, v, vmrRead, vmrWrite, vmrZero) =>
      done, log, lost := PerformRead(m, r, v, vmrRead, vmrWrite, vmrZero);
    case DoWrite(r, v, off, b, vmrRead, vmrWrite, vmrZero, copies) =>
      done, log, lost := PerformWrite(m, r, v, off, b, vmrRead, vmrWrite, vmrZero, copies);
  }

  // ---- Runs ----

  /** A run: requests, whether they were done, what they did, the frames they lost and the state they left. */
  datatype Trace = Begin | Then(before: Trace, q: Request, done: bool, log: seq<Effect>, lost: set<Frame>, s: State)

  ghost function Asked(t: Trace): seq<Request> {
    if t.Begin? then [] else Asked(t.before) + [t.q]
  }

  /** The state after the run. */
  ghost function Last(s: State, t: Trace): State {
    if t.Begin? then s else t.s
  }

  /** The world of the eager machine after the run. */
  ghost function After(w: World, t: Trace): World {
    if t.Begin? then w else Replay(After(w, t.before), t.log)
  }

  ghost function AllLost(t: Trace): set<Frame> {
    if t.Begin? then {} else AllLost(t.before) + t.lost
  }

  /** The last request of u got its answer in the state that those before it left. */
  ghost predicate StepAnswered(s: State, u: Trace) {
    u.Then? ==> Answers(Last(s, u.before), u.s, u.q, u.done, u.log, u.lost)
  }

  /** u is the run t as it was at some point. */
  ghost predicate Earlier(u: Trace, t: Trace) {
    u == t || (t.Then? && Earlier(u, t.before))
  }

  /** Each request of the run got its answer. */
  ghost predicate Answered(s: State, t: Trace) {
    forall u {:trigger Earlier(u, t)} :: Earlier(u, t) ==> StepAnswered(s, u)
  }

  /** What all answers of a run come to. */
  lemma {:induction false} RunMeans(s: State, t: Trace)
    requires Inv(s) && Answered(s, t)
    ensures Inv(Last(s, t)) && WorldOf(Last(s, t)) == After(WorldOf(s), t)
    ensures Last(s, t).ext == Held(s.ext, AllLost(t))
    ensures Counted(s) ==> Counted(Last(s, t))
  {
    if t.Begin? {
      assert Held(s.ext, {}) == s.ext;
    } else {
      assert Earlier(t, t);
      forall u | Earlier(u, t.before) ensures StepAnswered(s, u) {
        assert Earlier(u, t);
      }
      RunMeans(s, t.before);
      HeldThen(s.ext, AllLost(t.before), t.lost);
      CleanIsCounted(Last(s, t.before));
      CleanIsCounted(t.s);
    }
  }

  /** The run goes on by one request. */
  method Take(m: Machine, spaces: set<Frame>, q: Request, ghost s0: State, ghost t: Trace)
      returns (spaces': set<Frame>, ghost t': Trace)
    requires Inv(m.St()) && spaces == SpacesOf(m.at) && Sensible(q) && Answered(s0, t) && m.St() == Last(s0, t)
    modifies m
    ensures Inv(m.St()) && spaces' == SpacesOf(m.at) && Answered(s0, t') && m.St() == Last(s0, t')
    ensures Asked(t') == Asked(t) + [q]
  {
    var done;
    ghost var log, lost;
    done, spaces', log, lost := Perform(m, spaces, q);
    t' := Then(t, q, done, log, lost, m.St());
    AnsweredThen(s0, t');
  }

  lemma AnsweredThen(s: State, t: Trace)
    requires t.Then? && Answered(s, t.before) && StepAnswered(s, t)
    ensures Answered(s, t)
  {
    forall u | Earlier(u, t) ensures StepAnswered(s, u) {
      assert u != t ==> Earlier(u, t.before);
    }
  }

  /** Serve the requests one after the other. */
  method Serve(m: Machine, spaces: set<Frame>, requests: seq<Request>) returns (spaces': set<Frame>, ghost t: Trace)
    requires Inv(m.St()) && spaces == SpacesOf(m.at) && forall q :: q in requests ==> Sensible(q)
    modifies m
    ensures Inv(m.St()) && Asked(t) == requests && Answered(old(m.St()), t) && m.St() == Last(old(m.St()), t)
    ensures spaces' == SpacesOf(m.at)
  {
    ghost var s0 := m.St();
    t, spaces' := Begin, spaces;
    for k := 0 to |requests|
      invariant Inv(m.St()) && spaces' == SpacesOf(m.at)
      invariant Asked(t) == requests[..k] && Answered(s0, t) && m.St() == Last(s0, t)
    {
      assert requests[k] in requests;
      spaces', t := Take(m, spaces', requests[k], s0, t);
    }
  }

  /** Whatever is asked for, and however often memory runs out: the address spaces are those of the eager machine and see
      what they would see there; the count of every page frame is the number of entries that name it; and the only
      references held outside the tables are those on the frames that the answers say are lost. */
  method Run(m: Machine, spaces: set<Frame>, requests: seq<Request>) returns (spaces': set<Frame>, ghost t: Trace)
    requires Inv(m.St()) && spaces == SpacesOf(m.at) && forall q :: q in requests ==> Sensible(q)
    modifies m
    ensures Inv(m.St()) && Asked(t) == requests && Answered(old(m.St()), t) && m.St() == Last(old(m.St()), t)
    ensures WorldOf(m.St()) == After(old(WorldOf(m.St())), t) && spaces' == SpacesOf(m.at)
    ensures m.ext == Held(old(m.ext), AllLost(t))
    ensures old(Counted(m.St())) ==> Counted(m.St())
  {
    ghost var s0 := m.St();
    spaces', t := Serve(m, spaces, requests);
    RunMeans(s0, t);
  }

  /** With one free frame, an address space that has a page cannot be forked. */
  lemma OneFrameRefuses(s: State, p: nat, q: Request)
    requires Inv(s) && Leaf(0, p) in s.t.pages && |Free(s.count)| == 1 && q.DoFork? && q.src == 0
    ensures !Granted(s, q)
  {
    NoneMissing(s.t, 0, AddrOf(p));
    assert PdptOf(0, AddrOf(p)) in SpaceTables(s.t.at, 0);
  }

  lemma OnePage(s: State, s': State, p: nat, c: Content)
    requires Inv(s) && Inv(s') && s.t.pages == map[] && View(s') == View(s)[Leaf(0, p) := c]
    ensures s'.t.pages.Keys == View(s').Keys == {Leaf(0, p)} == RangeLeaves(0, [Range(p, 1)])
  {
    assert View(s).Keys == {};
    assert Leaves(0, p, 0) == {};
    assert Leaves(0, p, 1) == {Leaf(0, p)};
    assert RangeLeaves(0, [Range(p, 1)][..0]) == {};
  }

  /** A fork refused for want of frames, with page p mapped in the tables that are loaded. */
  method ForkWithoutFrames(m: Machine, p: nat) returns (done: bool)
    requires Inv(m.St()) && Root(0) in m.at && p < USER_PAGES && |Free(m.count)| == 1
    requires View(m.St()).Keys == {Leaf(0, p)} == m.pages.Keys == RangeLeaves(0, [Range(p, 1)])
    modifies m
    ensures Inv(m.St()) && !done && View(m.St()) == map[]
  {
    ghost var s, q := m.St(), DoFork(0, 0, [Range(p, 1)], true, true, {});
    OneFrameRefuses(s, p, q);
    var root;
    ghost var log;
    done, root, log := PerformFork(m, 0, 0, [Range(p, 1)], true, true, {});
    RefusedForkView(s, m.St(), q, log, {});
  }

  /** Five free frames and no tables yet, as in Boot(6): a store to page p takes four of them, so a fork is refused for
      want of frames.  Freeing the clone unmaps its regions in the tables that are loaded, the parent's: the page is gone. */
  method RefusedForkTakesPages(m: Machine, p: nat, zero: bool) returns (done: bool, ghost had: set<Path>)
    requires m.St() == Boot(6) && p < USER_PAGES
    modifies m
    ensures Inv(m.St()) && !done && had == {Leaf(0, p)} && View(m.St()) == map[]
  {
    ghost var s := m.St();
    BootInv(6);
    AddrInRange(p);
    var ok;
    ghost var f, lost;
    ok, f, lost := FaultIn(m, 0, AddrOf(p), true, true, zero);
    OnePage(s, m.St(), p, NewContent(zero, s.data[f]));
    assert SameTable(s.t.at, m.at, Root(0));
    had := View(m.St()).Keys;
    done := ForkWithoutFrames(m, p);
  }
}
