/** The lazy fork of an address space (kernel/arch/x86_64/paging.c:464-584): what copying a part of a tree means. */
module LazyCopy {
  import opened PageTree
  import opened Subtree

  /** A part of a tree: what lies below the first k entries of q, or entry c with all below it. */
  datatype Region = First(q: Path, k: nat) | Entry(c: Path)

  ghost predicate In(x: Path, g: Region) {
    match g
    case First(q, k) => BelowUpTo(x, q, k)
    case Entry(c) => x == c || Below(x, c)
  }

  lemma InNext(x: Path, q: Path, k: nat)
    ensures In(x, First(q, k + 1)) <==> In(x, First(q, k)) || In(x, Entry(Step(q, k)))
  {
    BelowStep(x, q, k);
  }

  lemma {:induction false} FirstExcludesNext(x: Path, q: Path, k: nat)
    requires In(x, Entry(Step(q, k)))
    ensures !In(x, First(q, k)) && Below(x, q)
    decreases x
  {
    if x == Step(q, k) {
      if BelowUpTo(q, q, k) {
        BelowUpToIsBelow(q, q, k);
        BelowIsDeeper(q, q);
      }
    } else {
      FirstExcludesNext(x.up, q, k);
      BelowIsDeeper(x, Step(q, k));
      if x.up == q {
        BelowIsDeeper(q, Step(q, k));
      }
    }
  }

  /** The path that lies below r as x lies below q. */
  ghost function Rebase(x: Path, q: Path, r: Path): Path {
    if x.Root? then r else Step(if x.up == q then r else Rebase(x.up, q, r), x.i)
  }

  lemma {:induction false} RebaseBelow(x: Path, q: Path, r: Path)
    requires Below(x, q)
    ensures Below(Rebase(x, q, r), r) && RootOf(Rebase(x, q, r)) == RootOf(r)
    ensures RootOf(q) != RootOf(r) ==> Rebase(Rebase(x, q, r), r, q) == x
  {
    if x.up != q {
      RebaseBelow(x.up, q, r);
      BelowIsDeeper(Rebase(x.up, q, r), r);
    }
  }

  lemma {:induction false} RebaseInner(x: Path, q: Path, r: Path, i: nat)
    requires Below(x, Step(q, i))
    ensures Rebase(x, q, r) == Rebase(x, Step(q, i), Step(r, i))
    decreases x
  {
    BelowIsDeeper(x, Step(q, i));
    if x.up != Step(q, i) {
      RebaseInner(x.up, q, r, i);
      BelowIsDeeper(x.up, Step(q, i));
    }
  }

  // ---- What a copy leaves behind ----

  function ReadOnly(e: Pte): Pte {
    e.(w := false)
  }

  ghost predicate TableKept(t0: Forest, t: Forest, x: Path) {
    x in t0.at && x in t.at && t.at[x] == t0.at[x]
  }

  /** A page of the source region is still there, read-only now; any other page is as it was. */
  ghost predicate PageKept(t0: Forest, t: Forest, x: Path, g: Region) {
    && x in t0.pages && x in t.pages
    && t.pages[x] == if In(x, g) then ReadOnly(t0.pages[x]) else t0.pages[x]
  }

  /** A page of the source region has a read-only twin that names the same frame. */
  ghost predicate PageCopied(t0: Forest, t: Forest, x: Path, q: Path, r: Path) {
    x in t0.pages && Rebase(x, q, r) in t.pages && t.pages[Rebase(x, q, r)] == ReadOnly(t0.pages[x])
  }

  ghost predicate TableOld(t0: Forest, y: Path, h: Region) {
    y in t0.at || In(y, h)
  }

  ghost predicate PageOld(t0: Forest, y: Path, h: Region, q: Path, r: Path) {
    y in t0.pages || (In(y, h) && Below(y, r) && Rebase(y, r, q) in t0.pages)
  }

  /** t is t0 with the pages of region g, below q, copied to region h, below r. */
  ghost predicate Copied(t0: Forest, t: Forest, g: Region, h: Region, q: Path, r: Path) {
    && (forall x {:trigger TableKept(t0, t, x)} :: x in t0.at ==> TableKept(t0, t, x))
    && (forall y {:trigger TableOld(t0, y, h)} :: y in t.at ==> TableOld(t0, y, h))
    && (forall x {:trigger PageKept(t0, t, x, g)} :: x in t0.pages ==> PageKept(t0, t, x, g))
    && (forall x {:trigger PageCopied(t0, t, x, q, r)} :: x in t0.pages && In(x, g) ==> PageCopied(t0, t, x, q, r))
    && (forall y {:trigger PageOld(t0, y, h, q, r)} :: y in t.pages ==> PageOld(t0, y, h, q, r))
  }

  ghost predicate PageWeaker(t0: Forest, t: Forest, x: Path, q: Path) {
    && x in t0.pages && x in t.pages
    && (t.pages[x] == t0.pages[x] || (Below(x, q) && t.pages[x] == ReadOnly(t0.pages[x])))
  }

  ghost predicate TableOldOrBelow(t0: Forest, y: Path, r: Path) {
    y in t0.at || Below(y, r)
  }

  ghost predicate PageOldOrBelow(t0: Forest, y: Path, r: Path) {
    y in t0.pages || Below(y, r)
  }

  /** A copy that stopped half-way: whatever is new lies below r, pages below q lost at most their write bits. */
  ghost predicate Partial(t0: Forest, t: Forest, q: Path, r: Path) {
    && (forall x {:trigger TableKept(t0, t, x)} :: x in t0.at ==> TableKept(t0, t, x))
    && (forall y {:trigger TableOldOrBelow(t0, y, r)} :: y in t.at ==> TableOldOrBelow(t0, y, r))
    && (forall x {:trigger PageWeaker(t0, t, x, q)} :: x in t0.pages ==> PageWeaker(t0, t, x, q))
    && (forall y {:trigger PageOldOrBelow(t0, y, r)} :: y in t.pages ==> PageOldOrBelow(t0, y, r))
  }

  lemma PartialReflexive(t: Forest, q: Path, r: Path)
    ensures Partial(t, t, q, r)
  {
  }

  lemma PartialTransitive(t: Forest, u: Forest, v: Forest, q: Path, r: Path)
    requires Partial(t, u, q, r) && Partial(u, v, q, r)
    ensures Partial(t, v, q, r)
  {
    forall x | x in t.at ensures TableKept(t, v, x) {
      assert TableKept(t, u, x) && TableKept(u, v, x);
    }
    forall x | x in t.pages ensures PageWeaker(t, v, x, q) {
      assert PageWeaker(t, u, x, q) && PageWeaker(u, v, x, q);
    }
    forall y | y in v.at ensures TableOldOrBelow(t, y, r) {
      assert TableOldOrBelow(u, y, r);
      assert y in u.at ==> TableOldOrBelow(t, y, r);
    }
    forall y | y in v.pages ensures PageOldOrBelow(t, y, r) {
      assert PageOldOrBelow(u, y, r);
      assert y in u.pages ==> PageOldOrBelow(t, y, r);
    }
  }

  lemma CopiedIsPartial(t0: Forest, t: Forest, g: Region, h: Region, q: Path, r: Path)
    requires Copied(t0, t, g, h, q, r)
    requires forall x :: In(x, g) ==> Below(x, q)
    requires forall y :: In(y, h) ==> Below(y, r)
    ensures Partial(t0, t, q, r)
  {
    forall y | y in t.at ensures TableOldOrBelow(t0, y, r) {
      assert TableOld(t0, y, h);
    }
    forall x | x in t0.pages ensures PageWeaker(t0, t, x, q) {
      assert PageKept(t0, t, x, g);
    }
    forall y | y in t.pages ensures PageOldOrBelow(t0, y, r) {
      assert PageOld(t0, y, h, q, r);
    }
  }

  lemma NothingCopied(t: Forest, q: Path, r: Path)
    ensures Copied(t, t, First(q, 0), First(r, 0), q, r)
  {
    forall x | x in t.pages ensures PageKept(t, t, x, First(q, 0)) && !In(x, First(q, 0)) {
      NoneUpToZero(x, q);
    }
  }

  /** The first i entries copied, then entry i: the first i + 1 entries copied. */
  lemma CopyNext(t0: Forest, t: Forest, t': Forest, q: Path, r: Path, i: nat)
    requires RootOf(q) != RootOf(r)
    requires Copied(t0, t, First(q, i), First(r, i), q, r)
    requires Copied(t, t', Entry(Step(q, i)), Entry(Step(r, i)), q, r)
    ensures Copied(t0, t', First(q, i + 1), First(r, i + 1), q, r)
  {
    var g, g', h, h' := First(q, i), First(q, i + 1), First(r, i), First(r, i + 1);
    forall x | x in t0.at ensures TableKept(t0, t', x) {
      assert TableKept(t0, t, x) && TableKept(t, t', x);
    }
    forall y | y in t'.at ensures TableOld(t0, y, h') {
      assert TableOld(t, y, Entry(Step(r, i)));
      assert y in t.at ==> TableOld(t0, y, h);
      InNext(y, r, i);
    }
    forall x | x in t0.pages ensures PageKept(t0, t', x, g') {
      KeptNext(t0, t, t', q, i, x);
    }
    forall x | x in t0.pages && In(x, g') ensures PageCopied(t0, t', x, q, r) {
      CopiedNext(t0, t, t', q, r, i, x);
    }
    forall y | y in t'.pages ensures PageOld(t0, y, h', q, r) {
      OldNext(t0, t, t', q, r, i, y);
    }
  }

  lemma KeptNext(t0: Forest, t: Forest, t': Forest, q: Path, i: nat, x: Path)
    requires x in t0.pages
    requires forall x {:trigger PageKept(t0, t, x, First(q, i))} :: x in t0.pages ==> PageKept(t0, t, x, First(q, i))
    requires forall x {:trigger PageKept(t, t', x, Entry(Step(q, i)))} ::
               x in t.pages ==> PageKept(t, t', x, Entry(Step(q, i)))
    ensures PageKept(t0, t', x, First(q, i + 1))
  {
    assert PageKept(t0, t, x, First(q, i)) && PageKept(t, t', x, Entry(Step(q, i)));
    InNext(x, q, i);
    if In(x, Entry(Step(q, i))) {
      FirstExcludesNext(x, q, i);
    }
  }

  lemma CopiedNext(t0: Forest, t: Forest, t': Forest, q: Path, r: Path, i: nat, x: Path)
    requires RootOf(q) != RootOf(r)
    requires Copied(t0, t, First(q, i), First(r, i), q, r)
    requires Copied(t, t', Entry(Step(q, i)), Entry(Step(r, i)), q, r)
    requires x in t0.pages && In(x, First(q, i + 1))
    ensures PageCopied(t0, t', x, q, r)
  {
    var c := Step(q, i);
    assert PageKept(t0, t, x, First(q, i));
    InNext(x, q, i);
    if In(x, Entry(c)) {
      FirstExcludesNext(x, q, i);
      assert PageCopied(t, t', x, q, r);
    } else {
      assert PageCopied(t0, t, x, q, r);
      var y := Rebase(x, q, r);
      BelowUpToIsBelow(x, q, i);
      RebaseBelow(x, q, r);
      assert PageKept(t, t', y, Entry(c));
      NotDeeper(y, c);
    }
  }

  lemma OldNext(t0: Forest, t: Forest, t': Forest, q: Path, r: Path, i: nat, y: Path)
    requires RootOf(q) != RootOf(r)
    requires Copied(t0, t, First(q, i), First(r, i), q, r)
    requires Copied(t, t', Entry(Step(q, i)), Entry(Step(r, i)), q, r)
    requires y in t'.pages
    ensures PageOld(t0, y, First(r, i + 1), q, r)
  {
    assert PageOld(t, y, Entry(Step(r, i)), q, r);
    InNext(y, r, i);
    if y in t.pages {
      assert PageOld(t0, y, First(r, i), q, r);
    } else {
      RebaseBelow(y, r, q);
      var x := Rebase(y, r, q);
      assert PageOld(t0, x, First(r, i), q, r);
      NotDeeper(x, r);
    }
  }

  /** Copying below entry i, once the destination has a table there, copies entry i. */
  lemma EntryFromChild(t: Forest, t1: Forest, t2: Forest, q: Path, r: Path, i: nat)
    requires Shape(t) && RootOf(q) != RootOf(r) && Depth(q) < 3
    requires t1.pages == t.pages && Step(r, i) in t1.at && t1.at == t.at[Step(r, i) := t1.at[Step(r, i)]]
    requires Step(r, i) !in t.at
    requires Copied(t1, t2, First(Step(q, i), NPTE), First(Step(r, i), NPTE), Step(q, i), Step(r, i))
    ensures Copied(t, t2, Entry(Step(q, i)), Entry(Step(r, i)), q, r)
  {
    var c, d := Step(q, i), Step(r, i);
    forall x | x in t.at ensures TableKept(t, t2, x) {
      assert TableKept(t1, t2, x);
    }
    forall y | y in t2.at ensures TableOld(t, y, Entry(d)) {
      assert TableOld(t1, y, First(d, NPTE));
      if BelowUpTo(y, d, NPTE) {
        BelowUpToIsBelow(y, d, NPTE);
      }
    }
    forall x | x in t.pages ensures In(x, First(c, NPTE)) <==> In(x, Entry(c)) {
      PageDepth(t, x);
      BelowAll(t, x, c);
    }
    forall x | x in t.pages ensures PageKept(t, t2, x, Entry(c)) {
      assert PageKept(t1, t2, x, First(c, NPTE));
    }
    forall x | x in t.pages && In(x, Entry(c)) ensures PageCopied(t, t2, x, q, r) {
      assert PageCopied(t1, t2, x, c, d);
      PageDepth(t, x);
      RebaseInner(x, q, r, i);
    }
    forall y | y in t2.pages ensures PageOld(t, y, Entry(d), q, r) {
      assert PageOld(t1, y, First(d, NPTE), c, d);
      if y !in t.pages {
        RebaseInner(y, r, q, i);
        BelowTransitive(y, d, r);
      }
    }
  }

  /** An entry with nothing behind it: nothing to copy. */
  lemma EntryAbsent(t: Forest, q: Path, r: Path, i: nat)
    requires Shape(t) && Step(q, i) !in t.at && Step(q, i) !in t.pages
    ensures Copied(t, t, Entry(Step(q, i)), Entry(Step(r, i)), q, r)
  {
    forall x | x in t.pages ensures !In(x, Entry(Step(q, i))) && PageKept(t, t, x, Entry(Step(q, i))) {
      NothingUnder(t, x, Step(q, i));
    }
  }

  /** A leaf entry made read-only and stored a second time. */
  lemma EntryFromLeaf(t: Forest, t': Forest, q: Path, r: Path, i: nat)
    requires Shape(t) && Step(q, i) in t.pages && Step(q, i) !in t.at && Step(r, i) !in t.pages && q != r
    requires t'.at == t.at
    requires var e := ReadOnly(t.pages[Step(q, i)]); t'.pages == t.pages[Step(q, i) := e][Step(r, i) := e]
    ensures Copied(t, t', Entry(Step(q, i)), Entry(Step(r, i)), q, r)
  {
    var c, d := Step(q, i), Step(r, i);
    assert Rebase(c, q, r) == d && Rebase(d, r, q) == c;
    forall x | x in t.pages ensures In(x, Entry(c)) <==> x == c {
      NothingUnder(t, x, c);
    }
    forall x | x in t.pages ensures PageKept(t, t', x, Entry(c)) {
    }
    forall y | y in t'.pages ensures PageOld(t, y, Entry(d), q, r) {
    }
  }

  /** All entries copied: everything below q copied. */
  lemma FirstIsBelow(q: Path, k: nat)
    ensures forall y :: In(y, First(q, k)) ==> Below(y, q)
  {
    forall y | In(y, First(q, k)) ensures Below(y, q) {
      BelowUpToIsBelow(y, q, k);
    }
  }

  lemma EntryIsBelow(q: Path, i: nat)
    ensures forall y :: In(y, Entry(Step(q, i))) ==> Below(y, q)
  {
    forall y | In(y, Entry(Step(q, i))) ensures Below(y, q) {
      FirstExcludesNext(y, q, i);
    }
  }

  // ---- What a copy costs ----

  ghost function TablesIn(at: map<Path, Frame>, g: Region): set<Path> {
    set d | d in at && In(d, g)
  }

  /** The tables of the region that cannot be mounted. */
  ghost function StuckIn(at: map<Path, Frame>, g: Region, broken: set<Frame>): set<Path> {
    set d | d in at && In(d, g) && at[d] in broken
  }

  /** There is a free frame for the twin of every table of the region, and each of them can be mounted. */
  ghost predicate Affordable(count: map<Frame, nat>, at: map<Path, Frame>, g: Region, broken: set<Frame>) {
    |Free(count)| >= |TablesIn(at, g)| && StuckIn(at, g, broken) == {}
  }

  /** One frame has been taken for every table of the region, all of which could be mounted. */
  ghost predicate Paid(count: map<Frame, nat>, count': map<Frame, nat>, at: map<Path, Frame>, g: Region,
                       broken: set<Frame>)
  {
    |Free(count')| == |Free(count)| - |TablesIn(at, g)| && StuckIn(at, g, broken) == {}
  }

  lemma NothingToPay(count: map<Frame, nat>, at: map<Path, Frame>, q: Path, broken: set<Frame>)
    ensures Paid(count, count, at, First(q, 0), broken)
  {
    forall d | d in at ensures !In(d, First(q, 0)) {
      NoneUpToZero(d, q);
    }
    assert TablesIn(at, First(q, 0)) == {};
  }

  lemma TablesNext(at: map<Path, Frame>, q: Path, k: nat, broken: set<Frame>)
    ensures |TablesIn(at, First(q, k + 1))| == |TablesIn(at, First(q, k))| + |TablesIn(at, Entry(Step(q, k)))|
    ensures StuckIn(at, First(q, k + 1), broken) == StuckIn(at, First(q, k), broken) + StuckIn(at, Entry(Step(q, k)), broken)
  {
    var g, h := First(q, k), Entry(Step(q, k));
    forall d ensures In(d, First(q, k + 1)) <==> In(d, g) || In(d, h) {
      InNext(d, q, k);
    }
    forall d | In(d, h) ensures !In(d, g) {
      FirstExcludesNext(d, q, k);
    }
    assert TablesIn(at, First(q, k + 1)) == TablesIn(at, g) + TablesIn(at, h);
  }

  lemma {:induction false} TablesMore(at: map<Path, Frame>, q: Path, k: nat, n: nat, broken: set<Frame>)
    requires k <= n
    ensures |TablesIn(at, First(q, k))| <= |TablesIn(at, First(q, n))|
    ensures StuckIn(at, First(q, k), broken) <= StuckIn(at, First(q, n), broken)
    decreases n - k
  {
    if k < n {
      TablesNext(at, q, k, broken);
      TablesMore(at, q, k + 1, n, broken);
    }
  }

  /** A copy makes no tables in the source. */
  lemma SourceSame(t0: Forest, t: Forest, q: Path, r: Path, i: nat, broken: set<Frame>)
    requires Partial(t0, t, q, r) && RootOf(q) != RootOf(r)
    ensures TablesIn(t.at, Entry(Step(q, i))) == TablesIn(t0.at, Entry(Step(q, i)))
    ensures StuckIn(t.at, Entry(Step(q, i)), broken) == StuckIn(t0.at, Entry(Step(q, i)), broken)
  {
    var g := Entry(Step(q, i));
    EntryIsBelow(q, i);
    forall d | In(d, g) ensures d in t.at <==> d in t0.at {
      BelowIsDeeper(d, q);
      NotDeeper(d, r);
      if d in t.at {
        assert TableOldOrBelow(t0, d, r);
      }
      if d in t0.at {
        assert TableKept(t0, t, d);
      }
    }
    forall d | In(d, g) && d in t.at ensures t.at[d] == t0.at[d] {
      assert TableKept(t0, t, d);
    }
  }

  lemma PaidNext(count0: map<Frame, nat>, count: map<Frame, nat>, count': map<Frame, nat>, at: map<Path, Frame>,
                 q: Path, i: nat, broken: set<Frame>)
    requires Paid(count0, count, at, First(q, i), broken) && Paid(count, count', at, Entry(Step(q, i)), broken)
    ensures Paid(count0, count', at, First(q, i + 1), broken)
  {
    TablesNext(at, q, i, broken);
  }

  lemma CannotPay(count0: map<Frame, nat>, count: map<Frame, nat>, at: map<Path, Frame>, q: Path, i: nat, n: nat,
                  broken: set<Frame>)
    requires Paid(count0, count, at, First(q, i), broken) && i < n
    requires !Affordable(count, at, Entry(Step(q, i)), broken)
    ensures !Affordable(count0, at, First(q, n), broken)
  {
    TablesNext(at, q, i, broken);
    TablesMore(at, q, i + 1, n, broken);
  }

  /** An entry with no table behind it costs nothing. */
  lemma EntryIsFree(t: Forest, c: Path, broken: set<Frame>)
    requires Shape(t) && c !in t.at
    ensures TablesIn(t.at, Entry(c)) == {} == StuckIn(t.at, Entry(c), broken)
  {
    forall d | d in t.at ensures !In(d, Entry(c)) {
      NothingUnder(t, d, c);
    }
  }

  /** A table costs one frame more than all below it. */
  lemma EntryCost(t: Forest, t1: Forest, q: Path, r: Path, i: nat, broken: set<Frame>)
    requires Shape(t) && RootOf(q) != RootOf(r) && Step(q, i) in t.at && Step(r, i) !in t.at
    requires Step(r, i) in t1.at && t1.at == t.at[Step(r, i) := t1.at[Step(r, i)]]
    ensures |TablesIn(t.at, Entry(Step(q, i)))| == 1 + |TablesIn(t1.at, First(Step(q, i), NPTE))|
    ensures StuckIn(t.at, Entry(Step(q, i)), broken)
            == (if t.at[Step(q, i)] in broken then {Step(q, i)} else {}) + StuckIn(t1.at, First(Step(q, i), NPTE), broken)
  {
    var c, d := Step(q, i), Step(r, i);
    forall x | x in t1.at ensures In(x, First(c, NPTE)) <==> x in t.at && Below(x, c) {
      if x == d {
        NotDeeper(d, c);
        if In(d, First(c, NPTE)) {
          BelowUpToIsBelow(d, c, NPTE);
        }
      } else {
        BelowAll(t, x, c);
      }
    }
    NotDeeper(c, c);
    assert TablesIn(t.at, Entry(c)) == {c} + TablesIn(t1.at, First(c, NPTE));
    assert c !in TablesIn(t1.at, First(c, NPTE));
  }
}
