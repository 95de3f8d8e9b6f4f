/** x86_64_map_n and x86_64_unmap_n: ranges of pages (kernel/arch/x86_64/paging.c:305-308, 360-382). */
module MapRange {
  import opened PageTree
  import opened Paging
  import opened Ledger
  import opened CopyOnWrite

  /** How many pages the user half has. */
  const USER_PAGES: nat := 256 * 512 * 512 * 512

  /** The table indices of the page after v: vaddr += PGSZ. */
  function NextAddr(v: Vaddr): Vaddr {
    if v.i1 + 1 < NPTE then v.(i1 := v.i1 + 1)
    else if v.i2 + 1 < NPTE then v.(i2 := v.i2 + 1, i1 := 0)
    else if v.i3 + 1 < NPTE then v.(i3 := v.i3 + 1, i2 := 0, i1 := 0)
    else Vaddr(v.i4 + 1, 0, 0, 0)
  }

  /** The table indices of page number n. */
  function AddrOf(n: nat): Vaddr {
    if n == 0 then Vaddr(0, 0, 0, 0) else NextAddr(AddrOf(n - 1))
  }

  ghost function Number(v: Vaddr): nat {
    ((v.i4 * 512 + v.i3) * 512 + v.i2) * 512 + v.i1
  }

  /** The indices are the digits of the page number. */
  lemma {:induction false} AddrIsNumber(n: nat)
    ensures Number(AddrOf(n)) == n && AddrOf(n).i3 < NPTE && AddrOf(n).i2 < NPTE && AddrOf(n).i1 < NPTE
  {
    if n > 0 {
      AddrIsNumber(n - 1);
    }
  }

  lemma AddrInRange(n: nat)
    requires n < USER_PAGES
    ensures UserAddress(AddrOf(n))
  {
    AddrIsNumber(n);
  }

  lemma AddrInjective(n: nat, k: nat)
    requires AddrOf(n) == AddrOf(k)
    ensures n == k
  {
    AddrIsNumber(n);
    AddrIsNumber(k);
  }

  ghost function Leaf(root: Frame, n: nat): Path {
    PathOf(root, AddrOf(n))
  }

  lemma LeavesDiffer(root: Frame, n: nat, k: nat)
    requires n != k
    ensures Leaf(root, n) != Leaf(root, k)
  {
    if AddrOf(n) == AddrOf(k) {
      AddrInjective(n, k);
    }
  }

  /** The leaves of pages p, ..., p + n - 1. */
  ghost function Leaves(root: Frame, p: nat, n: nat): set<Path> {
    if n == 0 then {} else Leaves(root, p, n - 1) + {Leaf(root, p + n - 1)}
  }

  lemma {:induction false} LeafOutside(root: Frame, p: nat, n: nat, k: nat)
    requires !(p <= k < p + n)
    ensures Leaf(root, k) !in Leaves(root, p, n)
  {
    if n > 0 {
      LeafOutside(root, p, n - 1, k);
      LeavesDiffer(root, k, p + n - 1);
    }
  }

  /** x86_64_unmap_n. */
  method UnmapN(m: Machine, root: Frame, p: nat, n: nat)
    requires Inv(m.St()) && Root(root) in m.at && p + n <= USER_PAGES
    modifies m
    ensures Inv(m.St()) && m.at == old(m.at) && m.data == old(m.data) && m.ext == old(m.ext)
    ensures m.pages == old(m.pages) - Leaves(root, p, n)
    ensures View(m.St()) == old(View(m.St())) - Leaves(root, p, n)
  {
    for i := 0 to n
      invariant Inv(m.St()) && m.at == old(m.at) && m.data == old(m.data) && m.ext == old(m.ext)
      invariant m.pages == old(m.pages) - Leaves(root, p, i)
    {
      AddrInRange(p + i);
      m.Unmap(root, AddrOf(p + i));
    }
    LessView(old(m.St()), m.St(), Leaves(root, p, n));
  }

  /** n pages from page p on. */
  datatype Range = Range(p: nat, n: nat)

  ghost predicate UserRanges(rs: seq<Range>) {
    forall r :: r in rs ==> r.p + r.n <= USER_PAGES
  }

  /** The leaves of all pages of the ranges. */
  ghost function RangeLeaves(root: Frame, rs: seq<Range>): set<Path> {
    if rs == [] then {} else RangeLeaves(root, rs[..|rs| - 1]) + Leaves(root, rs[|rs| - 1].p, rs[|rs| - 1].n)
  }

  /** x86_64_unmap_n for one range after the other. */
  method UnmapRanges(m: Machine, root: Frame, rs: seq<Range>)
    requires Inv(m.St()) && Root(root) in m.at && UserRanges(rs)
    modifies m
    ensures Inv(m.St()) && m.at == old(m.at) && m.data == old(m.data) && m.ext == old(m.ext)
    ensures m.pages == old(m.pages) - RangeLeaves(root, rs)
  {
    for i := 0 to |rs|
      invariant Inv(m.St()) && m.at == old(m.at) && m.data == old(m.data) && m.ext == old(m.ext)
      invariant m.pages == old(m.pages) - RangeLeaves(root, rs[..i])
    {
      assert rs[i] in rs;
      assert rs[..i + 1][..i] == rs[..i];
      UnmapN(m, root, rs[i].p, rs[i].n);
    }
    assert rs[..|rs|] == rs;
  }

  lemma LessView(s: State, s': State, xs: set<Path>)
    requires Inv(s) && Inv(s') && s'.data == s.data && s'.t.pages == s.t.pages - xs
    ensures View(s') == View(s) - xs
  {
  }

  // ---- The tables of a range ----

  /** The tables on the way to pages p, ..., p + n - 1. */
  ghost function Tables(root: Frame, p: nat, n: nat): set<Path> {
    if n == 0 then {} else Tables(root, p, n - 1) + Way(root, AddrOf(p + n - 1))
  }

  /** How many tables have to be made for pages p, ..., p + n - 1 when the tables k exist. */
  ghost function TablesNeeded(k: set<Path>, root: Frame, p: nat, n: nat): nat {
    if n == 0 then 0 else TablesNeeded(k, root, p, n - 1) + Lacking(k + Tables(root, p, n - 1), root, AddrOf(p + n - 1))
  }

  lemma {:induction false} MoreNeeded(k: set<Path>, root: Frame, p: nat, i: nat, n: nat)
    requires i <= n
    ensures TablesNeeded(k, root, p, i) <= TablesNeeded(k, root, p, n)
    decreases n
  {
    if i < n {
      MoreNeeded(k, root, p, i, n - 1);
    }
  }

  /** Made one page at a time, the tables needed are those of the range that do not exist. */
  lemma {:induction false} NeededAreNew(k: set<Path>, root: Frame, p: nat, n: nat)
    ensures TablesNeeded(k, root, p, n) == |Without(Tables(root, p, n), k)|
  {
    if n == 0 {
      assert Without(Tables(root, p, 0), k) == {};
    } else {
      NeededAreNew(k, root, p, n - 1);
      NeededStep(k, root, p, n);
    }
  }

  lemma NeededStep(k: set<Path>, root: Frame, p: nat, n: nat)
    requires n > 0
    ensures |Without(Tables(root, p, n), k)|
            == |Without(Tables(root, p, n - 1), k)| + Lacking(k + Tables(root, p, n - 1), root, AddrOf(p + n - 1))
  {
    UnionWithout(Tables(root, p, n - 1), Way(root, AddrOf(p + n - 1)), k);
    LackingIsWay(k + Tables(root, p, n - 1), root, AddrOf(p + n - 1));
  }

  lemma UnionWithout(t: set<Path>, w: set<Path>, k: set<Path>)
    ensures |Without(t + w, k)| == |Without(t, k)| + |Without(w, k + t)|
  {
    assert Without(t + w, k) == Without(t, k) + Without(w, k + t);
  }

  // ---- Mapping a range ----

  /** Page y is new if it lies in xs, was not mapped and its entry shows; otherwise it is as it was. */
  ghost predicate FilledAt(pages0: map<Path, Pte>, mem0: map<Path, Content>, pages: map<Path, Pte>,
                           mem: map<Path, Content>, xs: set<Path>, shows: bool, w: bool, zero: bool, y: Path)
  {
    if shows && y in xs && y !in pages0 then
      && y in pages && pages[y] == Pte(true, w, true, pages[y].frame)
      && y in mem && (zero ==> mem[y] == seq(PAGESZ, _ => 0))
    else
      && (y in pages <==> y in pages0) && (y in pages ==> pages[y] == pages0[y])
      && (y in mem <==> y in mem0) && (y in mem ==> mem[y] == mem0[y])
  }

  /** The leaves xs are mapped; no other page has changed, nor what it shows. */
  ghost predicate Filled(pages0: map<Path, Pte>, mem0: map<Path, Content>, pages: map<Path, Pte>,
                         mem: map<Path, Content>, xs: set<Path>, shows: bool, w: bool, zero: bool)
  {
    forall y {:trigger FilledAt(pages0, mem0, pages, mem, xs, shows, w, zero, y)} ::
      FilledAt(pages0, mem0, pages, mem, xs, shows, w, zero, y)
  }

  lemma FillOne(pages0: map<Path, Pte>, mem0: map<Path, Content>, pages: map<Path, Pte>, mem: map<Path, Content>,
                xs: set<Path>, shows: bool, w: bool, zero: bool, x: Path, pages': map<Path, Pte>, mem': map<Path, Content>,
                f: Frame, last: map<Frame, Content>)
    requires Filled(pages0, mem0, pages, mem, xs, shows, w, zero) && x !in xs
    requires AnonymousPage(pages, mem, pages', mem', x, w, zero, shows, f, last)
    ensures Filled(pages0, mem0, pages', mem', xs + {x}, shows, w, zero)
  {
    forall y ensures FilledAt(pages0, mem0, pages', mem', xs + {x}, shows, w, zero, y) {
      assert FilledAt(pages0, mem0, pages, mem, xs, shows, w, zero, y);
    }
  }

  /** Without the range, nothing has changed. */
  lemma FilledOutside(pages0: map<Path, Pte>, mem0: map<Path, Content>, pages: map<Path, Pte>, mem: map<Path, Content>,
                      xs: set<Path>, shows: bool, w: bool, zero: bool)
    requires Filled(pages0, mem0, pages, mem, xs, shows, w, zero)
    ensures pages - xs == pages0 - xs && mem - xs == mem0 - xs
  {
    forall y | y !in xs
      ensures (y in pages <==> y in pages0) && (y in pages ==> pages[y] == pages0[y])
      ensures (y in mem <==> y in mem0) && (y in mem ==> mem[y] == mem0[y])
    {
      assert FilledAt(pages0, mem0, pages, mem, xs, shows, w, zero, y);
    }
  }

  /** The tables for the first i pages are there; a frame was taken for each of these pages and each new table. */
  ghost predicate Grew(at0: map<Path, Frame>, count0: map<Frame, nat>, at: map<Path, Frame>, count: map<Frame, nat>,
                       root: Frame, p: nat, i: nat)
  {
    && at.Keys == at0.Keys + Tables(root, p, i)
    && Extends(at0, at)
    && |Free(count)| == |Free(count0)| - i - TablesNeeded(at0.Keys, root, p, i)
    && Free(count) <= Free(count0)
  }

  lemma GrewNext(at0: map<Path, Frame>, count0: map<Frame, nat>, at: map<Path, Frame>, count: map<Frame, nat>,
                 at': map<Path, Frame>, count': map<Frame, nat>, root: Frame, p: nat, i: nat)
    requires Grew(at0, count0, at, count, root, p, i)
    requires AnonymousTables(at, count, at', count', root, AddrOf(p + i), true)
    ensures Grew(at0, count0, at', count', root, p, i + 1)
  {
    assert Tables(root, p, i + 1) == Tables(root, p, i) + Way(root, AddrOf(p + i));
    ExtendsTransitive(at0, at, at');
  }

  /** The frames in lost, n of them, were free and are now held. */
  ghost predicate Wasted(ext0: map<Frame, nat>, count0: map<Frame, nat>, ext: map<Frame, nat>, lost: set<Frame>, n: nat) {
    ext == Held(ext0, lost) && lost <= Free(count0) && |lost| == n
  }

  lemma WastedNext(s0: State, s: State, ext': map<Frame, nat>, lost: set<Frame>, n: nat, wasted: bool, f: Frame)
    requires Inv(s) && Wasted(s0.ext, s0.count, s.ext, lost, n) && Free(s.count) <= Free(s0.count)
    requires AnonymousExt(s.ext, s.count, ext', wasted, f)
    ensures if wasted then Wasted(s0.ext, s0.count, ext', lost + {f}, n + 1) else Wasted(s0.ext, s0.count, ext', lost, n)
  {
    if wasted {
      assert s.count[f] == s.ext[f] + Uses(s.t, f);
      assert f in Free(s.count);
    }
  }

  /** The pages of the range that were mapped before. */
  ghost function Before(pages0: map<Path, Pte>, root: Frame, p: nat, i: nat): set<Path> {
    Leaves(root, p, i) * pages0.Keys
  }

  lemma BeforeNext(pages0: map<Path, Pte>, root: Frame, p: nat, i: nat)
    ensures |Before(pages0, root, p, i + 1)| == |Before(pages0, root, p, i)| + (if Leaf(root, p + i) in pages0 then 1 else 0)
  {
    var x := Leaf(root, p + i);
    LeafOutside(root, p, i, p + i);
    assert Leaves(root, p, i + 1) == Leaves(root, p, i) + {x};
    assert Before(pages0, root, p, i + 1)
        == if x in pages0 then Before(pages0, root, p, i) + {x} else Before(pages0, root, p, i);
  }

  /** How many of the frames taken for the first i pages are named by no entry: those for pages that were mapped before,
      or all if the entries do not show. */
  ghost function Idle(pages0: map<Path, Pte>, root: Frame, p: nat, i: nat, shows: bool): nat {
    if shows then |Before(pages0, root, p, i)| else i
  }

  lemma PagesNext(pages0: map<Path, Pte>, mem0: map<Path, Content>, pages: map<Path, Pte>, mem: map<Path, Content>,
                  pages': map<Path, Pte>, mem': map<Path, Content>, root: Frame, p: nat, i: nat, shows: bool, w: bool, zero: bool,
                  f: Frame, last: map<Frame, Content>)
    requires Filled(pages0, mem0, pages, mem, Leaves(root, p, i), shows, w, zero)
    requires AnonymousPage(pages, mem, pages', mem', Leaf(root, p + i), w, zero, shows, f, last)
    ensures Filled(pages0, mem0, pages', mem', Leaves(root, p, i + 1), shows, w, zero)
  {
    LeafOutside(root, p, i, p + i);
    FillOne(pages0, mem0, pages, mem, Leaves(root, p, i), shows, w, zero, Leaf(root, p + i), pages', mem', f, last);
  }

  /** Page i is mapped when its turn comes exactly if it was mapped before. */
  lemma SamePresence(pages0: map<Path, Pte>, mem0: map<Path, Content>, pages: map<Path, Pte>, mem: map<Path, Content>,
                     root: Frame, p: nat, i: nat, shows: bool, w: bool, zero: bool)
    requires Filled(pages0, mem0, pages, mem, Leaves(root, p, i), shows, w, zero)
    ensures Leaf(root, p + i) in pages <==> Leaf(root, p + i) in pages0
  {
    LeafOutside(root, p, i, p + i);
    assert FilledAt(pages0, mem0, pages, mem, Leaves(root, p, i), shows, w, zero, Leaf(root, p + i));
  }

  /** A failure at page k means that there are too few frames for the whole range. */
  lemma TooFew(at0: map<Path, Frame>, count0: map<Frame, nat>, at: map<Path, Frame>, count: map<Frame, nat>,
               root: Frame, p: nat, k: nat, n: nat)
    requires Grew(at0, count0, at, count, root, p, k) && k < n
    requires |Free(count)| <= Missing(at, root, AddrOf(p + k))
    ensures |Free(count0)| < n + TablesNeeded(at0.Keys, root, p, n)
    ensures |Free(count0)| <= k + TablesNeeded(at0.Keys, root, p, k + 1)
  {
    MoreNeeded(at0.Keys, root, p, k + 1, n);
  }

  /** The first i pages of the range are done: s0 is the state before the call, mem0 what it showed. */
  ghost predicate Progress(s0: State, mem0: map<Path, Content>, s: State, mem: map<Path, Content>, root: Frame, p: nat,
                           i: nat, shows: bool, w: bool, zero: bool, lost: set<Frame>)
  {
    && Filled(s0.t.pages, mem0, s.t.pages, mem, Leaves(root, p, i), shows, w, zero)
    && Grew(s0.t.at, s0.count, s.t.at, s.count, root, p, i)
    && Wasted(s0.ext, s0.count, s.ext, lost, Idle(s0.t.pages, root, p, i, shows))
  }

  /** Page i was refused in state s: at most one more frame is lost. */
  ghost predicate Stopped(s0: State, s: State, mem: map<Path, Content>, s': State, mem': map<Path, Content>, root: Frame,
                          p: nat, i: nat, shows: bool, lost: set<Frame>)
  {
    && s'.t.pages == s.t.pages && mem' == mem && s'.t.at == s.t.at
    && Wasted(s0.ext, s0.count, s'.ext, lost,
              Idle(s0.t.pages, root, p, i, shows) + if |Free(s.count)| > 0 then 1 else 0)
  }

  /** Page number n has been mapped, or tried to. */
  ghost predicate Tried(s: State, mem: map<Path, Content>, s': State, mem': map<Path, Content>, root: Frame, n: nat,
                        shows: bool, w: bool, zero: bool, f: Frame, ok: bool)
  {
    && AnonymousPage(s.t.pages, mem, s'.t.pages, mem', Leaf(root, n), w, zero, ok && shows, f, s.data)
    && AnonymousTables(s.t.at, s.count, s'.t.at, s'.count, root, AddrOf(n), ok)
    && AnonymousExt(s.ext, s.count, s'.ext,
                    FrameWasted(|Free(s.count)|, Missing(s.t.at, root, AddrOf(n)), Leaf(root, n) in s.t.pages, shows), f)
  }

  /** map_anonymous_page on page number n, from the state s, which shows mem, to s', which shows mem'. */
  method MapPage(m: Machine, root: Frame, n: nat, shows: bool, w: bool, zero: bool, ghost s: State,
                 ghost mem: map<Path, Content>)
      returns (ok: bool, ghost f: Frame, ghost s': State, ghost mem': map<Path, Content>)
    requires Inv(m.St()) && Root(root) in m.at && n < USER_PAGES && s == m.St() && mem == View(s)
    modifies m
    ensures Inv(m.St()) && s' == m.St() && mem' == View(s')
    ensures Tried(s, mem, s', mem', root, n, shows, w, zero, f, ok)
  {
    AddrInRange(n);
    ok, f := MapAnonymous(m, root, AddrOf(n), shows, w, zero);
    s', mem' := m.St(), View(m.St());
  }

  /** One page of the range. */
  method MapNext(m: Machine, root: Frame, p: nat, i: nat, shows: bool, w: bool, zero: bool, ghost s0: State,
                 ghost mem0: map<Path, Content>, ghost lost0: set<Frame>)
      returns (ok: bool, ghost lost: set<Frame>)
    requires Inv(m.St()) && Root(root) in m.at && p + i < USER_PAGES
    requires Progress(s0, mem0, m.St(), View(m.St()), root, p, i, shows, w, zero, lost0)
    modifies m
    ensures Inv(m.St()) && Root(root) in m.at
    ensures ok <==> |Free(old(m.count))| > Missing(old(m.at), root, AddrOf(p + i))
    ensures ok ==> Progress(s0, mem0, m.St(), View(m.St()), root, p, i + 1, shows, w, zero, lost)
    ensures !ok ==> Stopped(s0, old(m.St()), old(View(m.St())), m.St(), View(m.St()), root, p, i, shows, lost)
  {
    ghost var s1, mem1 := m.St(), View(m.St());
    ghost var f, s2, mem2;
    ok, f, s2, mem2 := MapPage(m, root, p + i, shows, w, zero, s1, mem1);
    lost := LostBy(s1, root, p + i, shows, lost0, f);
    NextPage(s0, mem0, s1, mem1, s2, mem2, root, p, i, shows, w, zero, lost0, f, ok);
  }

  lemma NextPage(s0: State, mem0: map<Path, Content>, s: State, mem: map<Path, Content>, s': State,
                 mem': map<Path, Content>, root: Frame, p: nat, i: nat, shows: bool, w: bool, zero: bool,
                 lost: set<Frame>, f: Frame, ok: bool)
    requires Inv(s) && Root(root) in s.t.at
    requires Progress(s0, mem0, s, mem, root, p, i, shows, w, zero, lost)
    requires Tried(s, mem, s', mem', root, p + i, shows, w, zero, f, ok)
    ensures Root(root) in s'.t.at
    ensures ok ==> Progress(s0, mem0, s', mem', root, p, i + 1, shows, w, zero, LostBy(s, root, p + i, shows, lost, f))
    ensures !ok ==> Stopped(s0, s, mem, s', mem', root, p, i, shows, LostBy(s, root, p + i, shows, lost, f))
  {
    SamePresence(s0.t.pages, mem0, s.t.pages, mem, root, p, i, shows, w, zero);
    LostNext(s0, s, s', root, p, i, shows, lost, f, ok);
    if ok {
      PagesNext(s0.t.pages, mem0, s.t.pages, mem, s'.t.pages, mem', root, p, i, shows, w, zero, f, s.data);
      GrewNext(s0.t.at, s0.count, s.t.at, s.count, s'.t.at, s'.count, root, p, i);
    } else {
      ExtendsSame(s.t.at, s'.t.at);
    }
  }

  /** The frames lost once page n has been tried. */
  ghost function LostBy(s: State, root: Frame, n: nat, shows: bool, lost: set<Frame>, f: Frame): set<Frame> {
    if FrameWasted(|Free(s.count)|, Missing(s.t.at, root, AddrOf(n)), Leaf(root, n) in s.t.pages, shows) then lost + {f}
    else lost
  }

  lemma LostNext(s0: State, s: State, s': State, root: Frame, p: nat, i: nat, shows: bool, lost: set<Frame>, f: Frame,
                 ok: bool)
    requires Inv(s) && Free(s.count) <= Free(s0.count) && (ok <==> |Free(s.count)| > Missing(s.t.at, root, AddrOf(p + i)))
    requires Leaf(root, p + i) in s.t.pages <==> Leaf(root, p + i) in s0.t.pages
    requires Wasted(s0.ext, s0.count, s.ext, lost, Idle(s0.t.pages, root, p, i, shows))
    requires AnonymousExt(s.ext, s.count, s'.ext,
                          FrameWasted(|Free(s.count)|, Missing(s.t.at, root, AddrOf(p + i)), Leaf(root, p + i) in s.t.pages,
                                      shows), f)
    ensures ok ==> Wasted(s0.ext, s0.count, s'.ext, LostBy(s, root, p + i, shows, lost, f), Idle(s0.t.pages, root, p, i + 1, shows))
    ensures !ok ==> Wasted(s0.ext, s0.count, s'.ext, LostBy(s, root, p + i, shows, lost, f),
                           Idle(s0.t.pages, root, p, i, shows) + if |Free(s.count)| > 0 then 1 else 0)
  {
    var wasted := if ok then !shows || Leaf(root, p + i) in s.t.pages else |Free(s.count)| > 0;
    WastedNext(s0, s, s'.ext, lost, Idle(s0.t.pages, root, p, i, shows), wasted, f);
    BeforeNext(s0.t.pages, root, p, i);
  }

  /** What a failure at page k leaves behind: the pages mapped before it are gone, also those that were mapped before
      the call; all tables made for them stay; the frames in lost are held by nobody's entry. */
  ghost predicate Abandoned(s0: State, mem0: map<Path, Content>, s: State, mem: map<Path, Content>, root: Frame, p: nat,
                            k: nat, shows: bool, lost: set<Frame>)
  {
    var spare := |Free(s0.count)| - k - TablesNeeded(s0.t.at.Keys, root, p, k);
    && 0 <= spare <= TablesNeeded(s0.t.at.Keys, root, p, k + 1) - TablesNeeded(s0.t.at.Keys, root, p, k)
    && s.t.pages == s0.t.pages - Leaves(root, p, k) && mem == mem0 - Leaves(root, p, k)
    && s.t.at.Keys == s0.t.at.Keys + Tables(root, p, k)
    && Extends(s0.t.at, s.t.at)
    && Wasted(s0.ext, s0.count, s.ext, lost, Idle(s0.t.pages, root, p, k, shows) + if spare > 0 then 1 else 0)
    && (Leaves(root, p, k) !! s0.t.pages.Keys ==>
          |Free(s.count)| == |Free(s0.count)| - TablesNeeded(s0.t.at.Keys, root, p, k) - |lost|)
  }

  lemma Gained(k: set<Path>, k': set<Path>, t: set<Path>)
    requires k' == k + t
    ensures |k' - k| == |Without(t, k)|
  {
    assert k' - k == Without(t, k);
  }

  /** No page of the range was mapped before: how many frames are left after the pages are unmapped again. */
  lemma FreeLeft(s0: State, s: State, root: Frame, p: nat, k: nat, lost: set<Frame>)
    requires Inv(s0) && Inv(s) && Leaves(root, p, k) !! s0.t.pages.Keys && s.t.pages == s0.t.pages - Leaves(root, p, k)
    requires s.t.at.Keys == s0.t.at.Keys + Tables(root, p, k)
    requires Extends(s0.t.at, s.t.at)
    requires s.ext == Held(s0.ext, lost) && lost <= Free(s0.count)
    ensures |Free(s.count)| == |Free(s0.count)| - TablesNeeded(s0.t.at.Keys, root, p, k) - |lost|
  {
    assert s.t.pages == s0.t.pages;
    FreeAfterGrowth(s0, s, lost);
    Gained(s0.t.at.Keys, s.t.at.Keys, Tables(root, p, k));
    NeededAreNew(s0.t.at.Keys, root, p, k);
  }

  /** The error path of x86_64_map_n: unmap the pages before page k. */
  method GiveUp(m: Machine, root: Frame, p: nat, k: nat, ghost shows: bool, ghost w: bool, ghost zero: bool, ghost s0: State,
                ghost count: map<Frame, nat>, ghost lost: set<Frame>)
    requires Inv(s0) && Inv(m.St()) && Root(root) in m.at && p + k < USER_PAGES
    requires Filled(s0.t.pages, View(s0), m.pages, View(m.St()), Leaves(root, p, k), shows, w, zero)
    requires Grew(s0.t.at, s0.count, m.at, count, root, p, k)
    requires |Free(s0.count)| <= k + TablesNeeded(s0.t.at.Keys, root, p, k + 1)
    requires Wasted(s0.ext, s0.count, m.ext, lost, Idle(s0.t.pages, root, p, k, shows) + if |Free(count)| > 0 then 1 else 0)
    modifies m
    ensures Inv(m.St()) && Abandoned(s0, View(s0), m.St(), View(m.St()), root, p, k, shows, lost)
  {
    FilledOutside(s0.t.pages, View(s0), m.pages, View(m.St()), Leaves(root, p, k), shows, w, zero);
    UnmapN(m, root, p, k);
    if Leaves(root, p, k) !! s0.t.pages.Keys {
      FreeLeft(s0, m.St(), root, p, k, lost);
    }
  }

  /** x86_64_map_n: it succeeds exactly if there is a frame for every page and for every table that is missing.  Pages
      that are mapped stay, and cost a frame each.  shows: the flags have the present bit; without it no page appears, and
      every page costs a frame. */
  method MapN(m: Machine, root: Frame, p: nat, n: nat, shows: bool, w: bool, zero: bool)
      returns (ok: bool, ghost k: nat, ghost lost: set<Frame>)
    requires Inv(m.St()) && Root(root) in m.at && p + n <= USER_PAGES
    modifies m
    ensures Inv(m.St())
    ensures ok <==> |Free(old(m.count))| >= n + TablesNeeded(old(m.at).Keys, root, p, n)
    ensures ok ==> Filled(old(m.pages), old(View(m.St())), m.pages, View(m.St()), Leaves(root, p, n), shows, w, zero)
    ensures ok ==> Grew(old(m.at), old(m.count), m.at, m.count, root, p, n)
    ensures ok ==> Wasted(old(m.ext), old(m.count), m.ext, lost, Idle(old(m.pages), root, p, n, shows))
    ensures !ok ==> k < n && Abandoned(old(m.St()), old(View(m.St())), m.St(), View(m.St()), root, p, k, shows, lost)
  {
    ghost var s0 := m.St();
    ok, k, lost := true, 0, {};
    assert Held(s0.ext, {}) == s0.ext;
    assert Before(s0.t.pages, root, p, 0) == {};
    for i := 0 to n
      invariant Inv(m.St()) && Root(root) in m.at && ok
      invariant Progress(s0, View(s0), m.St(), View(m.St()), root, p, i, shows, w, zero, lost)
    {
      ghost var at1, count1, lost1 := m.at, m.count, lost;
      ok, lost := MapNext(m, root, p, i, shows, w, zero, s0, View(s0), lost1);
      if !ok {
        TooFew(s0.t.at, s0.count, at1, count1, root, p, i, n);
        k := i;
        GiveUp(m, root, p, i, shows, w, zero, s0, count1, lost);
        return;
      }
    }
  }

  /** A failed call leaves tables, pages and counts as they were. */
  ghost predicate Undone(s0: State, s: State) {
    s.t.at == s0.t.at && s.t.pages == s0.t.pages && s.count == s0.count
  }

  /** There are as many pages at the beginning of the range as free frames that are not mapped and need no table, and
      their entries show. */
  ghost predicate FramesGoToPages(s0: State, root: Frame, p: nat, shows: bool) {
    var f := |Free(s0.count)|;
    TablesNeeded(s0.t.at.Keys, root, p, f) == 0 && Before(s0.t.pages, root, p, f) == {} && (shows || f == 0)
  }

  /** When a failure is undone: exactly when the free frames would all have gone to pages. */
  lemma UndoneMeans(s0: State, mem0: map<Path, Content>, s: State, mem: map<Path, Content>, root: Frame, p: nat, k: nat,
                    shows: bool, lost: set<Frame>)
    requires Inv(s0) && Inv(s) && Abandoned(s0, mem0, s, mem, root, p, k, shows, lost)
    ensures Undone(s0, s) <==> FramesGoToPages(s0, root, p, shows)
  {
    var f := |Free(s0.count)|;
    var extra: nat := if f - k - TablesNeeded(s0.t.at.Keys, root, p, k) > 0 then 1 else 0;
    if FramesGoToPages(s0, root, p, shows) {
      FailsWithoutFrames(s0.t.at.Keys, root, p, k, f);
      UndoneIf(s0, s, root, p, f, lost);
    }
    if Undone(s0, s) {
      UndoneOnlyIf(s0, s, root, p, k, shows, lost, extra);
    }
  }

  lemma UndoneIf(s0: State, s: State, root: Frame, p: nat, k: nat, lost: set<Frame>)
    requires Inv(s0) && Inv(s) && s.t.at.Keys == s0.t.at.Keys + Tables(root, p, k) && Extends(s0.t.at, s.t.at)
    requires s.t.pages == s0.t.pages - Leaves(root, p, k) && Wasted(s0.ext, s0.count, s.ext, lost, 0)
    requires TablesNeeded(s0.t.at.Keys, root, p, k) == 0 && Before(s0.t.pages, root, p, k) == {}
    ensures Undone(s0, s)
  {
    TablesUnchanged(s0.t.at, s.t.at, root, p, k);
    PagesUnchanged(s0.t.pages, s.t.pages, root, p, k);
    NothingHeld(s0.ext, s0.count, s.ext, lost);
    SameUsesPages(s0, s);
  }

  lemma UndoneOnlyIf(s0: State, s: State, root: Frame, p: nat, k: nat, shows: bool, lost: set<Frame>, extra: nat)
    requires Inv(s0) && Inv(s) && s.t.at.Keys == s0.t.at.Keys + Tables(root, p, k) && Extends(s0.t.at, s.t.at)
    requires s.t.pages == s0.t.pages - Leaves(root, p, k) && Undone(s0, s)
    requires Wasted(s0.ext, s0.count, s.ext, lost, Idle(s0.t.pages, root, p, k, shows) + extra)
    ensures TablesNeeded(s0.t.at.Keys, root, p, k) == 0 && Before(s0.t.pages, root, p, k) == {} && extra == 0
    ensures shows || k == 0
  {
    TablesUnchanged(s0.t.at, s.t.at, root, p, k);
    PagesUnchanged(s0.t.pages, s.t.pages, root, p, k);
    NothingLost(s0, s, lost);
  }

  lemma FailsWithoutFrames(keys: set<Path>, root: Frame, p: nat, k: nat, f: nat)
    requires TablesNeeded(keys, root, p, f) == 0
    requires k + TablesNeeded(keys, root, p, k) <= f <= k + TablesNeeded(keys, root, p, k + 1)
    ensures k == f
  {
    if k < f {
      MoreNeeded(keys, root, p, k + 1, f);
    }
  }

  lemma TablesUnchanged(at0: map<Path, Frame>, at: map<Path, Frame>, root: Frame, p: nat, k: nat)
    requires at.Keys == at0.Keys + Tables(root, p, k) && Extends(at0, at)
    ensures at == at0 <==> TablesNeeded(at0.Keys, root, p, k) == 0
  {
    NeededAreNew(at0.Keys, root, p, k);
    AllThere(at0.Keys, Tables(root, p, k), at.Keys);
    if at.Keys == at0.Keys {
      ExtendsSame(at0, at);
    }
  }

  lemma AllThere(keys: set<Path>, t: set<Path>, keys': set<Path>)
    requires keys' == keys + t
    ensures |Without(t, keys)| == 0 <==> keys' == keys
  {
    if |Without(t, keys)| == 0 {
      assert forall d :: d in t && d !in keys ==> d in Without(t, keys);
    } else {
      assert Without(t, keys) != {};
    }
  }

  lemma PagesUnchanged(pages0: map<Path, Pte>, pages: map<Path, Pte>, root: Frame, p: nat, k: nat)
    requires pages == pages0 - Leaves(root, p, k)
    ensures pages == pages0 <==> Before(pages0, root, p, k) == {}
    ensures Before(pages0, root, p, k) == {} <==> |Before(pages0, root, p, k)| == 0
  {
    if x :| x in Before(pages0, root, p, k) {
      assert x !in pages;
    } else {
      assert pages == pages0;
    }
  }

  lemma NothingHeld(ext0: map<Frame, nat>, count0: map<Frame, nat>, ext: map<Frame, nat>, lost: set<Frame>)
    requires Wasted(ext0, count0, ext, lost, 0)
    ensures ext == ext0
  {
    assert lost == {};
  }

  lemma NothingLost(s0: State, s: State, lost: set<Frame>)
    requires Inv(s0) && Inv(s) && Undone(s0, s) && s.ext == Held(s0.ext, lost) && lost <= Free(s0.count)
    ensures |lost| == 0
  {
    forall f | f in Free(s0.count) ensures f !in lost {
      FreeMeans(s, f);
    }
    assert lost == {};
  }

  /** Four free frames and a root without tables, as in Boot(5): two pages need two frames and three tables, so the
      call fails after the first page.  No page is left, nothing is held outside, and still three frames are gone: they
      are empty tables. */
  method TablesStay(m: Machine, w: bool, zero: bool) returns (ok: bool)
    requires Inv(m.St()) && m.at == map[Root(0) := 0] && m.pages == map[] && |Free(m.count)| == 4
    modifies m
    ensures Inv(m.St()) && !ok && m.pages == map[] && m.ext == old(m.ext)
    ensures |Free(m.count)| == 1 && m.at.Keys == {Root(0)} + Way(0, AddrOf(0))
  {
    FirstTables();
    ghost var s0 := m.St();
    assert m.at.Keys == {Root(0)};
    ghost var k, lost;
    ok, k, lost := MapN(m, 0, 0, 2, true, w, zero);
    FailsAtOne(s0, View(s0), m.St(), View(m.St()), k, lost);
  }

  lemma FailsAtOne(s0: State, mem0: map<Path, Content>, s: State, mem: map<Path, Content>, k: nat, lost: set<Frame>)
    requires s0.t.at.Keys == {Root(0)} && s0.t.pages == map[] && |Free(s0.count)| == 4
    requires k < 2 && Abandoned(s0, mem0, s, mem, 0, 0, k, true, lost)
    ensures s.t.pages == map[] && s.ext == s0.ext && |Free(s.count)| == 1 && s.t.at.Keys == {Root(0)} + Way(0, AddrOf(0))
  {
    StopsAtOne(s0.t.at.Keys, k);
    FirstTables();
    NothingBefore(s0.t.pages);
    assert lost == {};
    assert Held(s0.ext, {}) == s0.ext;
  }

  lemma StopsAtOne(keys: set<Path>, k: nat)
    requires keys == {Root(0)} && k < 2
    requires 0 <= 4 - k - TablesNeeded(keys, 0, 0, k) <= TablesNeeded(keys, 0, 0, k + 1) - TablesNeeded(keys, 0, 0, k)
    ensures k == 1
  {
    FirstTables();
    assert TablesNeeded(keys, 0, 0, 0) == 0;
  }

  lemma NothingBefore(pages: map<Path, Pte>)
    requires pages == map[]
    ensures |Before(pages, 0, 0, 1)| == 0 && Leaves(0, 0, 1) !! pages.Keys
  {
    assert Before(pages, 0, 0, 1) == {};
  }

  /** A machine of this kind. */
  lemma FiveFrames()
    ensures Inv(Boot(5)) && Boot(5).t.at == map[Root(0) := 0] && Boot(5).t.pages == map[] && |Free(Boot(5).count)| == 4
  {
    BootInv(5);
  }

  lemma FirstTables()
    ensures TablesNeeded({Root(0)}, 0, 0, 1) == 3 == TablesNeeded({Root(0)}, 0, 0, 2)
    ensures Tables(0, 0, 1) == Way(0, AddrOf(0))
  {
    assert AddrOf(1) == Vaddr(0, 0, 0, 1);
    assert Tables(0, 0, 0) == {};
    assert Tables(0, 0, 1) == Way(0, AddrOf(0));
    assert TablesNeeded({Root(0)}, 0, 0, 0) == 0;
    assert TablesNeeded({Root(0)}, 0, 0, 1) == 3;
  }
}
