/** Page-table trees over a shared pool of counted page frames: the state, its invariant, and
    what the elementary writes do to it (kernel/arch/x86_64/paging.c, kernel/mm/pmm/zone_page.c). */
module PageTree {

  type Frame = nat
  type Content = seq<int>

  const NPTE := 512

  /** PML4I(USTACK): the root entries below it belong to the user half. */
  const USER := 256

  /** A table entry: present, writable, "frame was allocated for this mapping", frame number. */
  datatype Pte = Pte(p: bool, w: bool, alloc: bool, frame: Frame)

  const EMPTY := Pte(false, false, false, 0)

  /** Where a table or a page sits: an address space's root, then one index per level. */
  datatype Path = Root(frame: Frame) | Step(up: Path, i: nat)

  ghost function Depth(q: Path): nat {
    if q.Root? then 0 else Depth(q.up) + 1
  }

  ghost function RootOf(q: Path): Frame {
    if q.Root? then q.frame else RootOf(q.up)
  }

  /** The entries of a table that the user half uses. */
  function Limit(q: Path): nat {
    if q.Root? then USER else NPTE
  }

  /** The trees of all address spaces.  tables: the rows of the table frames.  at: the frame of every table,
      by its path; who: the path of a table frame.  pages: the present leaf entries. */
  datatype Forest = Forest(tables: map<Frame, seq<Pte>>, at: map<Path, Frame>, who: map<Frame, Path>,
                           pages: map<Path, Pte>)

  /** count: references held on each frame of the pool (0 means free).  ext: those held outside every table.
      data: what page frames contain. */
  datatype State = State(count: map<Frame, nat>, ext: map<Frame, nat>, data: map<Frame, Content>, t: Forest)

  // ---- The shape of the trees ----

  /** The table at q: its frame is used once, its parent is there. */
  ghost predicate NodeOk(t: Forest, q: Path)
    requires q in t.at
  {
    && Depth(q) <= 3
    && t.at[q] in t.tables && |t.tables[t.at[q]]| == NPTE
    && t.at[q] in t.who && t.who[t.at[q]] == q
    && (q.Root? ==> t.at[q] == q.frame)
    && (q.Step? ==> q.up in t.at && q.i < Limit(q.up))
  }

  ghost predicate Tree(t: Forest) {
    forall q {:trigger NodeOk(t, q)} :: q in t.at ==> NodeOk(t, q)
  }

  /** Present entries of upper tables are exactly the tables below them, of last-level tables the pages.  Any other
      entry of an upper table is 0; one of a last-level table may hold anything. */
  ghost predicate LinkOk(t: Forest, q: Path, i: nat)
    requires q in t.at && i < Limit(q)
  {
    NodeOk(t, q) &&
    var e := t.tables[t.at[q]][i];
    if Depth(q) < 3 then
      && (!e.p ==> e == EMPTY)
      && (e.p <==> Step(q, i) in t.at)
      && (e.p ==> e.frame == t.at[Step(q, i)])
    else
      && (e.p <==> Step(q, i) in t.pages)
      && (e.p ==> e == t.pages[Step(q, i)])
  }

  ghost predicate Links(t: Forest) {
    forall q, i: nat {:trigger LinkOk(t, q, i)} :: q in t.at && i < Limit(q) ==> LinkOk(t, q, i)
  }

  ghost predicate PageOk(t: Forest, x: Path)
    requires x in t.pages
  {
    x.Step? && x.up in t.at && Depth(x.up) == 3 && x.i < NPTE && t.pages[x].p && t.pages[x].alloc
  }

  ghost predicate Pages(t: Forest) {
    forall x {:trigger PageOk(t, x)} :: x in t.pages ==> PageOk(t, x)
  }

  ghost predicate Shape(t: Forest) {
    Tree(t) && Links(t) && Pages(t)
  }

  // ---- The accounts of the frames ----

  /** The leaf entries that name frame f. */
  ghost function Refs(t: Forest, f: Frame): set<Path> {
    set x | x in t.pages && t.pages[x].frame == f
  }

  ghost predicate IsTable(t: Forest, f: Frame) {
    f in t.who && t.who[f] in t.at && t.at[t.who[f]] == f
  }

  /** How often the trees use frame f. */
  ghost function Uses(t: Forest, f: Frame): nat {
    (if IsTable(t, f) then 1 else 0) + |Refs(t, f)|
  }

  /** Every reference is accounted for: outside, as a table, or by a leaf entry. */
  ghost predicate Accounts(s: State) {
    && s.ext.Keys == s.count.Keys && s.count.Keys <= s.data.Keys
    && forall f {:trigger Uses(s.t, f)} :: f in s.count ==> s.count[f] == s.ext[f] + Uses(s.t, f)
  }

  ghost predicate OwnedAt(s: State, q: Path)
    requires q in s.t.at
  {
    s.t.at[q] in s.count && s.count[s.t.at[q]] == 1
  }

  /** A table frame is referenced once, and lies in the pool. */
  ghost predicate TablesOwned(s: State) {
    forall q {:trigger OwnedAt(s, q)} :: q in s.t.at ==> OwnedAt(s, q)
  }

  ghost predicate BackedAt(s: State, x: Path)
    requires x in s.t.pages
  {
    && s.t.pages[x].frame in s.count && s.t.pages[x].frame in s.data
    && (s.t.pages[x].w ==> s.count[s.t.pages[x].frame] == 1)
  }

  /** A page frame lies in the pool; a writable one is shared with nobody. */
  ghost predicate Backed(s: State) {
    forall x {:trigger BackedAt(s, x)} :: x in s.t.pages ==> BackedAt(s, x)
  }

  ghost predicate Inv(s: State) {
    Shape(s.t) && Accounts(s) && TablesOwned(s) && Backed(s)
  }

  /** What the address spaces see: the content behind each present page. */
  ghost function View(s: State): (v: map<Path, Content>)
    requires Backed(s)
  {
    map x | x in s.t.pages :: assert BackedAt(s, x); s.data[s.t.pages[x].frame]
  }

  // ---- Counting references ----

  lemma UsedByPage(t: Forest, x: Path)
    requires x in t.pages
    ensures |Refs(t, t.pages[x].frame)| > 0
  {
    assert x in Refs(t, t.pages[x].frame);
  }

  lemma UsedByTable(t: Forest, q: Path)
    requires Tree(t) && q in t.at
    ensures IsTable(t, t.at[q])
  {
    assert NodeOk(t, q);
  }

  /** A frame with no use in the trees is neither a table nor a page. */
  lemma Unused(t: Forest, f: Frame)
    requires Tree(t) && Uses(t, f) == 0
    ensures !IsTable(t, f)
    ensures forall q :: q in t.at ==> t.at[q] != f
    ensures forall x :: x in t.pages ==> t.pages[x].frame != f
  {
    forall q | q in t.at ensures t.at[q] != f {
      UsedByTable(t, q);
    }
    forall x | x in t.pages ensures t.pages[x].frame != f {
      UsedByPage(t, x);
    }
  }

  // ---- Steps on the counts ----

  /** get_page: a free frame, now referenced once from outside. */
  ghost function Get(s: State, f: Frame): State {
    s.(count := s.count[f := 1], ext := s.ext[f := 1])
  }

  lemma GetKeeps(s: State, f: Frame)
    requires Inv(s) && f in s.count && s.count[f] == 0
    ensures Inv(Get(s, f)) && View(Get(s, f)) == View(s)
  {
    var s' := Get(s, f);
    assert Uses(s.t, f) == 0;
    Unused(s.t, f);
    forall q | q in s.t.at ensures OwnedAt(s', q) {
      assert OwnedAt(s, q);
    }
    forall x | x in s.t.pages ensures BackedAt(s', x) {
      assert BackedAt(s, x);
    }
  }

  /** pmman.free, __page_put: one outside reference less. */
  ghost function Put(s: State, f: Frame): State
    requires f in s.count && f in s.ext && s.ext[f] > 0 && s.count[f] > 0
  {
    s.(count := s.count[f := s.count[f] - 1], ext := s.ext[f := s.ext[f] - 1])
  }

  lemma PutKeeps(s: State, f: Frame)
    requires Inv(s) && f in s.count && s.ext[f] > 0
    ensures s.count[f] > 0 && Inv(Put(s, f)) && View(Put(s, f)) == View(s)
  {
    assert Uses(s.t, f) >= 0;
    var s' := Put(s, f);
    forall q | q in s.t.at ensures OwnedAt(s', q) {
      assert OwnedAt(s, q);
      UsedByTable(s.t, q);
      assert Uses(s.t, s.t.at[q]) > 0;
    }
    forall x | x in s.t.pages ensures BackedAt(s', x) {
      assert BackedAt(s, x);
      UsedByPage(s.t, x);
      assert Uses(s.t, s.t.pages[x].frame) > 0;
    }
  }

  /** __page_incr: one outside reference more. */
  ghost function Incr(s: State, f: Frame): State
    requires f in s.count && f in s.ext
  {
    s.(count := s.count[f := s.count[f] + 1], ext := s.ext[f := s.ext[f] + 1])
  }

  lemma IncrKeeps(s: State, f: Frame)
    requires Inv(s) && f in s.count && !IsTable(s.t, f)
    requires forall x :: x in s.t.pages && s.t.pages[x].frame == f ==> !s.t.pages[x].w
    ensures Inv(Incr(s, f)) && View(Incr(s, f)) == View(s)
  {
    var s' := Incr(s, f);
    assert Uses(s.t, f) >= 0;
    forall q | q in s.t.at ensures OwnedAt(s', q) {
      assert OwnedAt(s, q);
      UsedByTable(s.t, q);
    }
    forall x | x in s.t.pages ensures BackedAt(s', x) {
      assert BackedAt(s, x);
    }
  }

  // ---- Steps on the trees ----

  /** Entry i of the table at q becomes e. */
  ghost function Write(t: Forest, q: Path, i: nat, e: Pte): map<Frame, seq<Pte>>
    requires q in t.at && t.at[q] in t.tables && i < |t.tables[t.at[q]]|
  {
    t.tables[t.at[q] := t.tables[t.at[q]][i := e]]
  }

  lemma OtherRows(t: Forest, q: Path, i: nat, e: Pte, d: Path)
    requires Tree(t) && q in t.at && i < NPTE && d in t.at && d != q
    ensures NodeOk(t, q) && NodeOk(t, d) && Write(t, q, i, e)[t.at[d]] == t.tables[t.at[d]] && t.at[d] != t.at[q]
  {
    assert NodeOk(t, q) && NodeOk(t, d);
  }

  ghost predicate SameRow(t: Forest, t': Forest, d: Path) {
    && d in t.at && d in t'.at && t'.at[d] == t.at[d]
    && t.at[d] in t.tables && t.at[d] in t'.tables && t'.tables[t.at[d]] == t.tables[t.at[d]]
  }

  /** The rows of all tables other than q are as they were. */
  ghost predicate SameRows(t: Forest, t': Forest, q: Path) {
    forall d {:trigger SameRow(t, t', d)} :: d in t.at && d != q ==> SameRow(t, t', d)
  }

  /** The zeroed frame e.frame becomes the table below entry i of q. */
  ghost function Link(t: Forest, q: Path, i: nat, e: Pte): Forest
    requires q in t.at && t.at[q] in t.tables && i < |t.tables[t.at[q]]|
  {
    t.(tables := Write(t, q, i, e)[e.frame := seq(NPTE, _ => EMPTY)],
       at := t.at[Step(q, i) := e.frame], who := t.who[e.frame := Step(q, i)])
  }

  lemma Parent(t: Forest, c: Path)
    requires Shape(t) && c.Step? && (c in t.at || c in t.pages)
    ensures c.up in t.at && c.i < NPTE
  {
    if c in t.at {
      assert NodeOk(t, c);
    } else {
      assert PageOk(t, c);
    }
  }

  lemma NothingBelow(t: Forest, c: Path, j: nat)
    requires Shape(t) && c !in t.at
    ensures Step(c, j) !in t.at && Step(c, j) !in t.pages
  {
    if Step(c, j) in t.at || Step(c, j) in t.pages {
      Parent(t, Step(c, j));
    }
  }

  /** The rows of all tables are as they were. */
  ghost predicate AllRows(t: Forest, t': Forest) {
    forall d {:trigger SameRow(t, t', d)} :: d in t.at ==> SameRow(t, t', d)
  }

  lemma SameRowsReflexive(t: Forest, q: Path)
    requires Tree(t)
    ensures SameRows(t, t, q) && AllRows(t, t)
  {
    forall d | d in t.at ensures SameRow(t, t, d) {
      assert NodeOk(t, d);
    }
  }

  lemma LinkTree(t: Forest, q: Path, i: nat, e: Pte)
    requires Shape(t) && q in t.at && NodeOk(t, q) && Depth(q) < 3 && i < Limit(q) && Step(q, i) !in t.at
    requires e.p && Uses(t, e.frame) == 0
    ensures Tree(Link(t, q, i, e))
    ensures SameRows(t, Link(t, q, i, e), q)
  {
    var t' := Link(t, q, i, e);
    Unused(t, e.frame);
    forall d | d in t.at && d != q ensures SameRow(t, t', d) {
      OtherRows(t, q, i, e, d);
    }
    forall d | d in t'.at ensures NodeOk(t', d) {
      if d != Step(q, i) {
        assert NodeOk(t, d);
        assert d != q ==> SameRow(t, t', d);
      }
    }
  }

  lemma LinkShape(t: Forest, q: Path, i: nat, e: Pte)
    requires Shape(t) && q in t.at && NodeOk(t, q) && Depth(q) < 3 && i < Limit(q) && Step(q, i) !in t.at
    requires e.p && Uses(t, e.frame) == 0
    ensures Shape(Link(t, q, i, e))
  {
    var t', c := Link(t, q, i, e), Step(q, i);
    LinkTree(t, q, i, e);
    Unused(t, e.frame);
    forall d, j: nat | d in t'.at && j < Limit(d) ensures LinkOk(t', d, j) {
      if d == c {
        assert NodeOk(t', d);
        NothingBelow(t, c, j);
      } else {
        assert LinkOk(t, d, j) && NodeOk(t', d);
        assert d != q ==> SameRow(t, t', d);
      }
    }
    forall x | x in t'.pages ensures PageOk(t', x) {
      assert PageOk(t, x);
    }
  }

  lemma LinkUses(t: Forest, q: Path, i: nat, e: Pte, g: Frame)
    requires Shape(t) && q in t.at && NodeOk(t, q) && Step(q, i) !in t.at && i < NPTE && Uses(t, e.frame) == 0
    ensures Uses(Link(t, q, i, e), g) == Uses(t, g) + (if g == e.frame then 1 else 0)
  {
    var t' := Link(t, q, i, e);
    Unused(t, e.frame);
    assert Refs(t', g) == Refs(t, g);
    if IsTable(t, g) {
      assert NodeOk(t, t.who[g]);
    }
  }

  /** The empty table at c goes: its entry becomes 0. */
  ghost function Unlink(t: Forest, c: Path): Forest
    requires c.Step? && c.up in t.at && t.at[c.up] in t.tables && c.i < |t.tables[t.at[c.up]]|
  {
    t.(tables := Write(t, c.up, c.i, EMPTY), at := t.at - {c})
  }

  /** No table and no page below c. */
  ghost predicate Childless(t: Forest, c: Path) {
    && (forall d :: d in t.at && d.Step? ==> d.up != c)
    && (forall x :: x in t.pages && x.Step? ==> x.up != c)
  }

  lemma UnlinkShape(t: Forest, c: Path)
    requires Shape(t) && c in t.at && c.Step? && NodeOk(t, c) && NodeOk(t, c.up) && Childless(t, c)
    ensures Shape(Unlink(t, c))
  {
    var t', q := Unlink(t, c), c.up;
    forall d | d in t'.at ensures NodeOk(t', d) && (d != q ==> t'.tables[t.at[d]] == t.tables[t.at[d]]) {
      assert NodeOk(t, d);
      if d != q {
        OtherRows(t, q, c.i, EMPTY, d);
      }
    }
    forall d, j: nat | d in t'.at && j < Limit(d) ensures LinkOk(t', d, j) {
      assert LinkOk(t, d, j) && NodeOk(t, d);
    }
    forall x | x in t'.pages ensures PageOk(t', x) {
      assert PageOk(t, x);
    }
  }

  lemma UnlinkUses(t: Forest, c: Path, g: Frame)
    requires Shape(t) && c in t.at && c.Step? && NodeOk(t, c) && NodeOk(t, c.up)
    ensures Uses(t, g) == Uses(Unlink(t, c), g) + (if g == t.at[c] then 1 else 0)
  {
    var t' := Unlink(t, c);
    assert Refs(t', g) == Refs(t, g);
    UsedByTable(t, c);
    if IsTable(t, g) && g != t.at[c] {
      assert NodeOk(t, t.who[g]);
    }
  }

  /** The leaf entry x becomes e. */
  ghost function SetLeaf(t: Forest, x: Path, e: Pte): Forest
    requires x.Step? && x.up in t.at && t.at[x.up] in t.tables && x.i < |t.tables[t.at[x.up]]|
  {
    t.(tables := Write(t, x.up, x.i, e), pages := if e.p then t.pages[x := e] else t.pages - {x})
  }

  lemma SetLeafShape(t: Forest, x: Path, e: Pte)
    requires Shape(t) && x.Step? && x.up in t.at && NodeOk(t, x.up) && Depth(x.up) == 3 && x.i < NPTE
    requires e.p ==> e.alloc
    ensures Shape(SetLeaf(t, x, e))
  {
    var t', q := SetLeaf(t, x, e), x.up;
    forall d | d in t'.at ensures NodeOk(t', d) && (d != q ==> t'.tables[t.at[d]] == t.tables[t.at[d]]) {
      assert NodeOk(t, d);
      if d != q {
        OtherRows(t, q, x.i, e, d);
      }
    }
    forall d, j: nat | d in t'.at && j < Limit(d) ensures LinkOk(t', d, j) {
      assert LinkOk(t, d, j) && NodeOk(t, d);
    }
    forall y | y in t'.pages ensures PageOk(t', y) {
      assert y != x ==> PageOk(t, y);
    }
  }

  lemma SetLeafUses(t: Forest, x: Path, e: Pte, g: Frame)
    requires x.Step? && x.up in t.at && t.at[x.up] in t.tables && x.i < |t.tables[t.at[x.up]]|
    ensures Uses(SetLeaf(t, x, e), g) + (if x in t.pages && t.pages[x].frame == g then 1 else 0)
            == Uses(t, g) + (if e.p && e.frame == g then 1 else 0)
  {
    var t' := SetLeaf(t, x, e);
    var rest := Refs(t, g) - {x};
    assert Refs(t, g) == if x in t.pages && t.pages[x].frame == g then rest + {x} else rest;
    assert Refs(t', g) == if e.p && e.frame == g then rest + {x} else rest;
  }

  /** Nobody outside holds a reference on a table frame. */
  lemma TableNotHeld(s: State, q: Path)
    requires Inv(s) && q in s.t.at
    ensures s.t.at[q] in s.count && s.ext[s.t.at[q]] == 0 && |Refs(s.t, s.t.at[q])| == 0
  {
    assert OwnedAt(s, q);
    UsedByTable(s.t, q);
    assert s.count[s.t.at[q]] == s.ext[s.t.at[q]] + Uses(s.t, s.t.at[q]);
  }

  // ---- Trees that only grow ----

  /** The table at d is still there; of its entries only empty user ones of an upper table may have changed. */
  ghost predicate KeepsRow(t: Forest, t': Forest, d: Path) {
    && d in t.at && d in t'.at && t'.at[d] == t.at[d]
    && t.at[d] in t.tables && t.at[d] in t'.tables
    && |t.tables[t.at[d]]| == NPTE == |t'.tables[t.at[d]]|
    && forall i: nat :: i < NPTE ==> t'.tables[t.at[d]][i] == t.tables[t.at[d]][i]
                                     || (Depth(d) < 3 && i < Limit(d) && t.tables[t.at[d]][i] == EMPTY)
  }

  ghost predicate Keeps(t: Forest, t': Forest) {
    forall d {:trigger KeepsRow(t, t', d)} :: d in t.at ==> KeepsRow(t, t', d)
  }

  lemma KeepsReflexive(t: Forest)
    requires Tree(t)
    ensures Keeps(t, t)
  {
    forall d | d in t.at ensures KeepsRow(t, t, d) {
      assert NodeOk(t, d);
    }
  }

  lemma KeepsTransitive(t: Forest, u: Forest, v: Forest)
    requires Keeps(t, u) && Keeps(u, v)
    ensures Keeps(t, v)
  {
    forall d | d in t.at ensures KeepsRow(t, v, d) {
      assert KeepsRow(t, u, d) && KeepsRow(u, v, d);
    }
  }

  /** Linking a table below an empty entry keeps everything. */
  lemma LinkKeeps(t: Forest, q: Path, i: nat, e: Pte)
    requires Shape(t) && q in t.at && NodeOk(t, q) && Depth(q) < 3 && i < Limit(q) && Step(q, i) !in t.at
    requires Uses(t, e.frame) == 0
    ensures Keeps(t, Link(t, q, i, e))
  {
    assert LinkOk(t, q, i);
    Unused(t, e.frame);
    forall d | d in t.at ensures KeepsRow(t, Link(t, q, i, e), d) {
      assert NodeOk(t, d);
      if d != q {
        OtherRows(t, q, i, e, d);
      }
    }
  }

  /** Unlinking a table that was not there at first leaves everything kept. */
  lemma UnlinkKeeps(t0: Forest, t: Forest, c: Path)
    requires Shape(t0) && Shape(t) && Keeps(t0, t)
    requires c in t.at && c.Step? && NodeOk(t, c) && NodeOk(t, c.up) && c !in t0.at
    ensures Keeps(t0, Unlink(t, c))
  {
    forall d | d in t0.at ensures KeepsRow(t0, Unlink(t, c), d) {
      assert KeepsRow(t0, t, d);
      if d == c.up {
        assert LinkOk(t0, d, c.i);
      } else {
        OtherRows(t, c.up, c.i, EMPTY, d);
      }
    }
  }

  /** With the same tables and pages, keeping everything means that nothing changed. */
  lemma KeepsSame(t: Forest, t': Forest)
    requires Shape(t) && Shape(t') && Keeps(t, t') && t'.at == t.at && t'.pages == t.pages
    ensures AllRows(t, t')
  {
    forall d | d in t.at ensures SameRow(t, t', d) {
      assert KeepsRow(t, t', d);
      forall i: nat | i < Limit(d) ensures t'.tables[t.at[d]][i] == t.tables[t.at[d]][i] {
        assert LinkOk(t, d, i) && LinkOk(t', d, i);
      }
      assert t'.tables[t.at[d]] == t.tables[t.at[d]];
    }
  }

  ghost predicate SameTable(at: map<Path, Frame>, at': map<Path, Frame>, d: Path) {
    d in at && d in at' && at'[d] == at[d]
  }

  /** Every table is still there. */
  ghost predicate Extends(at: map<Path, Frame>, at': map<Path, Frame>) {
    forall d {:trigger SameTable(at, at', d)} :: d in at ==> SameTable(at, at', d)
  }

  lemma ExtendsTransitive(at: map<Path, Frame>, at': map<Path, Frame>, at'': map<Path, Frame>)
    requires Extends(at, at') && Extends(at', at'')
    ensures Extends(at, at'')
  {
    forall d | d in at ensures SameTable(at, at'', d) {
      assert SameTable(at, at', d) && SameTable(at', at'', d);
    }
  }

  lemma ExtendsSame(at: map<Path, Frame>, at': map<Path, Frame>)
    requires Extends(at, at') && at'.Keys == at.Keys
    ensures at' == at
  {
    forall d | d in at ensures at'[d] == at[d] {
      assert SameTable(at, at', d);
    }
  }

  // ---- Free frames ----

  ghost function Free(count: map<Frame, nat>): set<Frame> {
    set f | f in count && count[f] == 0
  }

  lemma OneFreeLess(count: map<Frame, nat>, f: Frame)
    requires f in count && count[f] == 0
    ensures |Free(count[f := 1])| == |Free(count)| - 1
  {
    assert Free(count[f := 1]) == Free(count) - {f};
  }

  // ---- Steps on whole states ----

  /** Table c, empty, is unlinked; its frame is now held from outside. */
  ghost function UnlinkState(s: State, c: Path): State
    requires c in s.t.at && s.t.at[c] in s.ext
    requires c.Step? && c.up in s.t.at && s.t.at[c.up] in s.t.tables && c.i < |s.t.tables[s.t.at[c.up]]|
  {
    s.(t := Unlink(s.t, c), ext := s.ext[s.t.at[c] := s.ext[s.t.at[c]] + 1])
  }

  lemma UnlinkInv(s: State, c: Path)
    requires Inv(s) && c in s.t.at && c.Step? && NodeOk(s.t, c) && NodeOk(s.t, c.up) && Childless(s.t, c)
    ensures s.t.at[c] in s.ext && s.ext[s.t.at[c]] == 0 && Inv(UnlinkState(s, c))
    ensures SameRows(Unlink(s.t, c), s.t, c.up)
  {
    var f := s.t.at[c];
    assert OwnedAt(s, c);
    UsedByTable(s.t, c);
    assert s.count[f] == s.ext[f] + Uses(s.t, f);
    var s' := UnlinkState(s, c);
    UnlinkShape(s.t, c);
    forall g | g in s'.count ensures s'.count[g] == s'.ext[g] + Uses(s'.t, g) {
      assert s.count[g] == s.ext[g] + Uses(s.t, g);
      UnlinkUses(s.t, c, g);
    }
    forall d | d in s'.t.at ensures OwnedAt(s', d) {
      assert OwnedAt(s, d);
    }
    forall x | x in s'.t.pages ensures BackedAt(s', x) {
      assert BackedAt(s, x);
    }
    forall d | d in s'.t.at && d != c.up ensures SameRow(s'.t, s.t, d) {
      OtherRows(s.t, c.up, c.i, EMPTY, d);
    }
  }

  /** The references held outside once leaf x names what e says. */
  ghost function Moved(ext: map<Frame, nat>, pages: map<Path, Pte>, x: Path, e: Pte): map<Frame, nat> {
    var released := if x in pages && pages[x].frame in ext
                    then ext[pages[x].frame := ext[pages[x].frame] + 1] else ext;
    if e.p && e.frame in released && released[e.frame] > 0
    then released[e.frame := released[e.frame] - 1] else released
  }

  /** Leaf x becomes e: the reference on e.frame moves into the table, the one on the old frame out of it. */
  ghost function StoreState(s: State, x: Path, e: Pte): State
    requires x.Step? && x.up in s.t.at && s.t.at[x.up] in s.t.tables && x.i < |s.t.tables[s.t.at[x.up]]|
  {
    s.(t := SetLeaf(s.t, x, e), ext := Moved(s.ext, s.t.pages, x, e))
  }

  ghost predicate CanStore(s: State, x: Path, e: Pte) {
    && x.Step? && x.up in s.t.at && Depth(x.up) == 3 && x.i < NPTE
    && (e.p ==> e.alloc && e.frame in s.count && e.frame in s.data && (e.w ==> s.count[e.frame] == 1))
    && (e.p ==> (e.frame in s.ext && s.ext[e.frame] > 0) || (x in s.t.pages && s.t.pages[x].frame == e.frame))
  }

  lemma StoreAccounts(s: State, x: Path, e: Pte)
    requires Inv(s) && CanStore(s, x, e) && NodeOk(s.t, x.up) && (x in s.t.pages ==> BackedAt(s, x))
    ensures Accounts(StoreState(s, x, e))
  {
    var s' := StoreState(s, x, e);
    forall g | g in s'.count ensures s'.count[g] == s'.ext[g] + Uses(s'.t, g) {
      assert s.count[g] == s.ext[g] + Uses(s.t, g);
      SetLeafUses(s.t, x, e, g);
    }
  }

  lemma StoreInv(s: State, x: Path, e: Pte)
    requires Inv(s) && CanStore(s, x, e)
    ensures NodeOk(s.t, x.up)
    ensures Inv(StoreState(s, x, e))
    ensures SameRows(s.t, SetLeaf(s.t, x, e), x.up)
  {
    assert NodeOk(s.t, x.up);
    if x in s.t.pages {
      assert BackedAt(s, x);
    }
    var s' := StoreState(s, x, e);
    SetLeafShape(s.t, x, e);
    StoreAccounts(s, x, e);
    forall d | d in s'.t.at ensures OwnedAt(s', d) {
      assert OwnedAt(s, d);
    }
    forall y | y in s'.t.pages ensures BackedAt(s', y) {
      assert y != x ==> BackedAt(s, y);
    }
    forall d | d in s.t.at && d != x.up ensures SameRow(s.t, s'.t, d) {
      OtherRows(s.t, x.up, x.i, e, d);
    }
  }

  /** A frame referenced once is named by one leaf entry at most. */
  lemma SoleUser(s: State, x: Path, y: Path)
    requires Inv(s) && x in s.t.pages && y in s.t.pages && s.t.pages[x].frame == s.t.pages[y].frame
    requires s.t.pages[x].frame in s.count && s.count[s.t.pages[x].frame] == 1
    ensures x == y
  {
    var f := s.t.pages[x].frame;
    assert s.count[f] == s.ext[f] + Uses(s.t, f);
    var rest := Refs(s.t, f) - {x};
    assert Refs(s.t, f) == rest + {x};
    assert y in rest || y == x;
  }

  /** A frame that a leaf entry names is not a table. */
  lemma PageIsNoTable(s: State, x: Path)
    requires Inv(s) && x in s.t.pages
    ensures s.t.pages[x].frame in s.count && !IsTable(s.t, s.t.pages[x].frame)
    ensures s.count[s.t.pages[x].frame] > 0
  {
    var f := s.t.pages[x].frame;
    assert BackedAt(s, x);
    assert s.count[f] == s.ext[f] + Uses(s.t, f);
    UsedByPage(s.t, x);
    if IsTable(s.t, f) {
      TableNotHeld(s, s.t.who[f]);
    }
  }

  /** The content of the frame behind x, which no other entry names, is replaced. */
  lemma FillFrame(s: State, x: Path, c: Content)
    requires Inv(s) && x in s.t.pages && BackedAt(s, x) && s.count[s.t.pages[x].frame] == 1
    ensures Inv(s.(data := s.data[s.t.pages[x].frame := c]))
    ensures View(s.(data := s.data[s.t.pages[x].frame := c])) == View(s)[x := c]
  {
    var f := s.t.pages[x].frame;
    var s' := s.(data := s.data[f := c]);
    forall y | y in s.t.pages ensures BackedAt(s', y) && (y != x ==> s.t.pages[y].frame != f) {
      assert BackedAt(s, y);
      if s.t.pages[y].frame == f {
        SoleUser(s, x, y);
      }
    }
    forall q | q in s.t.at ensures OwnedAt(s', q) {
      assert OwnedAt(s, q);
    }
  }
}
