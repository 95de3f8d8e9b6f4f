/** mmap_unmap with its effect on the page tables: which translations outlive their regions (kernel/mm/mmap.c:289,
    406-454). */
module Translations {
  import opened Regions
  import opened AddressSpace
  import opened Unmapping
  import opened PageTree
  import opened Paging
  import opened MapRange
  import Mapping

  const PAGE := Mapping.PAGE

  /** The pages that arch_unmap_n is called for when region g is removed. */
  function PagesOf(g: Region): Range
    requires g.start <= g.end
  {
    Range(g.start / PAGE, NPage(g.Size()))
  }

  /** NPAGE: how many pages it takes for size addresses. */
  function NPage(size: nat): nat {
    size / PAGE + if size % PAGE != 0 then 1 else 0
  }

  ghost predicate InRange(r: Range, n: nat) {
    r.p <= n < r.p + r.n
  }

  /** Page n is unmapped when [s, e) is. */
  ghost predicate Stripped(rs: seq<Region>, s: nat, e: int, n: nat) {
    exists g :: Goner(rs, s, e, g) && g.start <= g.end && InRange(PagesOf(g), n)
  }

  /** Page n holds an address of a region. */
  ghost predicate Touched(rs: seq<Region>, n: nat) {
    exists a: int :: n * PAGE <= a < n * PAGE + PAGE && Mapped(rs, a)
  }

  /** Every page that is present holds an address of a region. */
  ghost predicate NoStray(pages: map<Path, Pte>, root: Frame, rs: seq<Region>) {
    forall n: nat {:trigger Leaf(root, n)} :: n < USER_PAGES && Leaf(root, n) in pages ==> Touched(rs, n)
  }

  ghost predicate Aligned(rs: seq<Region>) {
    forall i: nat :: i < |rs| ==> rs[i].start % PAGE == 0 && (rs[i].end + 1) % PAGE == 0
  }

  // ---- Whole pages ----

  /** In a list of whole pages, a page that is touched lies in one region. */
  lemma TouchedMeans(rs: seq<Region>, n: nat)
    requires Aligned(rs)
    ensures Touched(rs, n) <==> Mapped(rs, n * PAGE)
  {
    if Touched(rs, n) {
      var a: int :| n * PAGE <= a < n * PAGE + PAGE && Mapped(rs, a);
      var i: nat :| i < |rs| && rs[i].Has(a);
      WholePage(rs[i], n, a);
    }
    if Mapped(rs, n * PAGE) {
      assert n * PAGE <= n * PAGE < n * PAGE + PAGE;
    }
  }

  lemma WholePage(r: Region, n: nat, a: int)
    requires r.start % PAGE == 0 && (r.end + 1) % PAGE == 0 && r.Has(a) && n * PAGE <= a < n * PAGE + PAGE
    ensures r.start <= n * PAGE && n * PAGE + PAGE - 1 <= r.end
  {
    var q, u := r.start / PAGE, (r.end + 1) / PAGE;
    assert r.start == q * PAGE && r.end + 1 == u * PAGE;
  }

  /** The pages of a region of whole pages. */
  lemma PagesMean(g: Region, n: nat)
    requires g.start <= g.end && g.start % PAGE == 0 && (g.end + 1) % PAGE == 0
    ensures InRange(PagesOf(g), n) <==> g.Has(n * PAGE)
  {
    var q, u := g.start / PAGE, (g.end + 1) / PAGE;
    assert g.start == q * PAGE && g.end + 1 == u * PAGE;
    assert g.Size() == (u - q) * PAGE;
  }

  lemma PieceAligned(rs: seq<Region>, i: nat, s: nat, e: int)
    requires Aligned(rs) && i < |rs| && Goes(rs[i], s, e) && s % PAGE == 0 && rs[i].start <= rs[i].end
    ensures var g := Piece(rs[i], s); g.start <= g.end && g.start % PAGE == 0 && (g.end + 1) % PAGE == 0
  {
  }

  /** Which pages of whole regions are unmapped: those in the range whose region ends in the range. */
  lemma StrippedMeans(rs: seq<Region>, limit: nat, s: nat, e: int, n: nat)
    requires Sorted(rs, limit) && Aligned(rs) && s % PAGE == 0
    ensures Stripped(rs, s, e, n) <==> s <= n * PAGE && EndsBefore(rs, e, n)
  {
    if Stripped(rs, s, e, n) {
      StrippedOnlyIf(rs, limit, s, e, n);
    }
    if s <= n * PAGE && EndsBefore(rs, e, n) {
      var i: nat :| i < |rs| && rs[i].Has(n * PAGE) && rs[i].end < e;
      StrippedIf(rs, s, e, n, i);
    }
  }

  /** Page n lies in a region that ends before e. */
  ghost predicate EndsBefore(rs: seq<Region>, e: int, n: nat) {
    exists i: nat :: i < |rs| && rs[i].Has(n * PAGE) && rs[i].end < e
  }

  lemma StrippedOnlyIf(rs: seq<Region>, limit: nat, s: nat, e: int, n: nat)
    requires Sorted(rs, limit) && Aligned(rs) && s % PAGE == 0 && Stripped(rs, s, e, n)
    ensures s <= n * PAGE && EndsBefore(rs, e, n)
  {
    var g :| Goner(rs, s, e, g) && g.start <= g.end && InRange(PagesOf(g), n);
    var i: nat :| i < |rs| && Goes(rs[i], s, e) && g == Piece(rs[i], s);
    assert Sane(rs, i, limit);
    PieceAligned(rs, i, s, e);
    PagesMean(g, n);
    assert rs[i].Has(n * PAGE);
  }

  lemma StrippedIf(rs: seq<Region>, s: nat, e: int, n: nat, i: nat)
    requires Aligned(rs) && s % PAGE == 0 && s <= n * PAGE && i < |rs| && rs[i].Has(n * PAGE) && rs[i].end < e
    ensures Stripped(rs, s, e, n)
  {
    WholePage(rs[i], n, n * PAGE);
    assert Goes(rs[i], s, e);
    PieceAligned(rs, i, s, e);
    PagesMean(Piece(rs[i], s), n);
    assert Goner(rs, s, e, Piece(rs[i], s));
  }

  // ---- The two layers ----

  /** Page n lies in the range and in a region that reaches beyond it. */
  ghost predicate Reaches(rs: seq<Region>, s: nat, e: int, n: nat) {
    s <= n * PAGE < e && exists i: nat :: i < |rs| && rs[i].Has(n * PAGE) && rs[i].end >= e
  }

  /** Some page that is present would stay so without a region. */
  ghost predicate LeavesStray(pages: map<Path, Pte>, root: Frame, rs: seq<Region>, s: nat, e: int) {
    exists n: nat {:trigger Leaf(root, n)} :: n < USER_PAGES && Leaf(root, n) in pages && Reaches(rs, s, e, n)
  }

  /** A page that was touched before: what becomes of it. */
  lemma PageAfter(rs: seq<Region>, rs': seq<Region>, limit: nat, s: nat, e: int, n: nat)
    requires Sorted(rs, limit) && Aligned(rs) && s % PAGE == 0 && e % PAGE == 0 && Touched(rs, n)
    requires forall a, f :: Maps(rs', a, f) <==> Maps(rs, a, f) && !(s <= a < e)
    ensures Stripped(rs, s, e, n) || Touched(rs', n) <==> !Reaches(rs, s, e, n)
  {
    TouchedMeans(rs, n);
    StrippedMeans(rs, limit, s, e, n);
    var i: nat :| i < |rs| && rs[i].Has(n * PAGE);
    forall j: nat | j < |rs| && rs[j].Has(n * PAGE) ensures j == i {
      if j != i {
        DistinctHas(rs, limit, i, j, n * PAGE);
      }
    }
    if s <= n * PAGE < e {
      NotTouched(rs', s, e, n, rs);
    } else {
      assert Maps(rs, n * PAGE, rs[i].flags);
      assert Maps(rs', n * PAGE, rs[i].flags);
      assert Mapped(rs', n * PAGE);
    }
  }

  /** A whole page in a range that is cleared is touched no more. */
  lemma NotTouched(rs': seq<Region>, s: nat, e: int, n: nat, rs: seq<Region>)
    requires s % PAGE == 0 && e % PAGE == 0 && s <= n * PAGE < e
    requires forall a, f :: Maps(rs', a, f) <==> Maps(rs, a, f) && !(s <= a < e)
    ensures !Touched(rs', n)
  {
    assert n * PAGE + PAGE <= e by {
      var u := e / PAGE;
      assert e == u * PAGE;
    }
    forall a: int | n * PAGE <= a < n * PAGE + PAGE ensures !Mapped(rs', a) {
      if Mapped(rs', a) {
        var i: nat :| i < |rs'| && rs'[i].Has(a);
        assert Maps(rs', a, rs'[i].flags);
      }
    }
  }

  /** What mmap_unmap leaves present lies in regions exactly if no page that is present lies in a region that reaches
      beyond the range. */
  lemma StrayMeans(pages: map<Path, Pte>, pages': map<Path, Pte>, root: Frame, rs: seq<Region>, rs': seq<Region>,
                   limit: nat, s: nat, e: int)
    requires Sorted(rs, limit) && Aligned(rs) && s % PAGE == 0 && e % PAGE == 0 && NoStray(pages, root, rs)
    requires forall a, f :: Maps(rs', a, f) <==> Maps(rs, a, f) && !(s <= a < e)
    requires forall n: nat :: n < USER_PAGES ==>
               (Leaf(root, n) in pages' <==> Leaf(root, n) in pages && !Stripped(rs, s, e, n))
    ensures NoStray(pages', root, rs') <==> !LeavesStray(pages, root, rs, s, e)
  {
    forall n: nat | n < USER_PAGES && Leaf(root, n) in pages
      ensures Stripped(rs, s, e, n) || Touched(rs', n) <==> !Reaches(rs, s, e, n)
    {
      PageAfter(rs, rs', limit, s, e, n);
    }
  }

  // ---- Unmapping in both layers ----

  function RangesOf(gone: seq<Region>): (rs: seq<Range>)
    requires forall g :: g in gone ==> g.start <= g.end
    ensures |rs| == |gone| && forall i :: 0 <= i < |gone| ==> rs[i] == PagesOf(gone[i])
  {
    seq(|gone|, i requires 0 <= i < |gone| => PagesOf(gone[i]))
  }

  lemma {:induction false} InLeaves(root: Frame, p: nat, n: nat, k: nat)
    ensures Leaf(root, k) in Leaves(root, p, n) <==> p <= k < p + n
  {
    if n > 0 {
      InLeaves(root, p, n - 1, k);
      if k != p + n - 1 {
        LeavesDiffer(root, k, p + n - 1);
      }
    }
  }

  lemma {:induction false} InRangeLeaves(root: Frame, rs: seq<Range>, k: nat)
    ensures Leaf(root, k) in RangeLeaves(root, rs) <==> exists i :: 0 <= i < |rs| && InRange(rs[i], k)
  {
    if rs != [] {
      var last := |rs| - 1;
      InRangeLeaves(root, rs[..last], k);
      InLeaves(root, rs[last].p, rs[last].n, k);
      if i :| 0 <= i < |rs| && InRange(rs[i], k) && i != last {
        assert InRange(rs[..last][i], k);
      }
    }
  }

  lemma GoneIsStripped(root: Frame, rs: seq<Region>, limit: nat, s: nat, e: int, gone: seq<Region>, n: nat)
    requires Sorted(rs, limit)
    requires forall g {:trigger Goner(rs, s, e, g)} :: g in gone <==> Goner(rs, s, e, g)
    requires forall g :: g in gone ==> g.start <= g.end
    ensures Leaf(root, n) in RangeLeaves(root, RangesOf(gone)) <==> Stripped(rs, s, e, n)
  {
    InRangeLeaves(root, RangesOf(gone), n);
    if i :| 0 <= i < |gone| && InRange(RangesOf(gone)[i], n) {
      assert gone[i] in gone && Goner(rs, s, e, gone[i]);
    }
    if Stripped(rs, s, e, n) {
      var g :| Goner(rs, s, e, g) && g.start <= g.end && InRange(PagesOf(g), n);
      var i :| 0 <= i < |gone| && gone[i] == g;
      assert InRange(RangesOf(gone)[i], n);
    }
  }

  /** Regions that are removed lie below the limit, and so do their pages. */
  lemma GonePages(rs: seq<Region>, limit: nat, s: nat, e: int, g: Region)
    requires Sorted(rs, limit) && limit < USER_PAGES * PAGE && Goner(rs, s, e, g)
    ensures g.start <= g.end && PagesOf(g).p + PagesOf(g).n <= USER_PAGES
  {
    var i: nat :| i < |rs| && Goes(rs[i], s, e) && g == Piece(rs[i], s);
    assert Sane(rs, i, limit);
  }

  /** mmap_unmap of the address space mm whose tables, below root, are loaded: the pages of every region that is removed
      whole go with it, and no others. */
  method UnmapBoth(mm: MMap, m: Machine, root: Frame, start: nat, len: nat) returns (err: Err)
    requires mm.Valid() && start < WORD && len < WORD && mm.limit < USER_PAGES * PAGE
    requires Inv(m.St()) && Root(root) in m.at
    modifies mm, mm.nodes, m
    ensures mm.Valid() && Inv(m.St()) && m.at == old(m.at) && m.ext == old(m.ext) && m.data == old(m.data)
    ensures err == if len == 0 || Wrap(start + len - 1) > mm.limit then EINVAL else OK
    ensures err != OK ==> mm.rs == old(mm.rs) && m.pages == old(m.pages)
    ensures err == OK ==> forall a, f :: Maps(mm.rs, a, f) <==> Maps(old(mm.rs), a, f) && !(start <= a < start + len)
    ensures err == OK ==> forall n: nat :: n < USER_PAGES ==>
              (Leaf(root, n) in m.pages <==> Leaf(root, n) in old(m.pages) && !Stripped(old(mm.rs), start, start + len, n))
    ensures err == OK && Aligned(old(mm.rs)) && start % PAGE == 0 && len % PAGE == 0
            && NoStray(old(m.pages), root, old(mm.rs)) ==>
              (NoStray(m.pages, root, mm.rs) <==> !LeavesStray(old(m.pages), root, old(mm.rs), start, start + len))
  {
    ghost var rs, pages := mm.rs, m.pages;
    var gone;
    ghost var splits;
    err, gone, splits := Unmap(mm, start, len);
    if err != OK {
      return;
    }
    forall g | g in gone ensures g.start <= g.end && PagesOf(g).p + PagesOf(g).n <= USER_PAGES {
      assert Goner(rs, start, start + len, g);
      GonePages(rs, mm.limit, start, start + len, g);
    }
    UnmapRanges(m, root, RangesOf(gone));
    forall n: nat | n < USER_PAGES
      ensures Leaf(root, n) in m.pages <==> Leaf(root, n) in pages && !Stripped(rs, start, start + len, n)
    {
      GoneIsStripped(root, rs, mm.limit, start, start + len, gone, n);
    }
    if Aligned(rs) && start % PAGE == 0 && len % PAGE == 0 && NoStray(pages, root, rs) {
      StrayMeans(pages, m.pages, root, rs, mm.rs, mm.limit, start, start + len);
    }
  }

  /** A region of two pages, of which the first is present: unmapping the first page shortens the region and leaves the
      translation. */
  method FirstPageStays(mm: MMap, m: Machine, root: Frame, f: Flags) returns (err: Err)
    requires mm.Valid() && mm.rs == [Region(0, 2 * PAGE - 1, f)] && mm.limit < USER_PAGES * PAGE
    requires Inv(m.St()) && Root(root) in m.at && m.pages.Keys == {Leaf(root, 0)}
    modifies mm, mm.nodes, m
    ensures err == OK && mm.Valid() && Leaf(root, 0) in m.pages && !Touched(mm.rs, 0)
  {
    ghost var rs := mm.rs;
    assert Sane(rs, 0, mm.limit);
    err := UnmapBoth(mm, m, root, 0, PAGE);
    assert Aligned(rs);
    StrippedMeans(rs, mm.limit, 0, PAGE, 0);
    NotTouched(mm.rs, 0, PAGE, 0, rs);
  }
}
