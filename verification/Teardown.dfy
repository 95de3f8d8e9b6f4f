/** Removing everything below a table (kernel/arch/x86_64/paging.c:409-431). */
module Teardown {
  import opened PageTree
  import opened Subtree
  import opened Paging

  /** One level of the four nested loops of x86_64_unmap_full: clear the entries of the table at q in order,
      emptying and freeing the tables below them. */
  method ClearBelow(m: Machine, ghost q: Path, table: Frame, depth: nat)
    requires Inv(m.St()) && q in m.at && m.at[q] == table && Depth(q) == depth
    modifies m
    ensures Inv(m.St()) && m.data == old(m.data) && m.ext == old(m.ext)
    ensures m.at == Outside(old(m.at), q) && m.pages == Outside(old(m.pages), q)
    decreases 3 - depth, 1
  {
    ghost var t0 := m.St().t;
    assert NodeOk(t0, q);
    OutsideZero(m.at, q);
    OutsideZero(m.pages, q);
    var i, limit := 0, if depth == 0 then USER else NPTE;
    assert limit == Limit(q);
    while i < limit
      invariant i <= limit && Inv(m.St()) && m.data == old(m.data) && m.ext == old(m.ext)
      invariant q in m.at && m.at[q] == table
      invariant m.at == OutsideUpTo(t0.at, q, i) && m.pages == OutsideUpTo(t0.pages, q, i)
    {
      ghost var c := Step(q, i);
      OutsideStep(t0.at, q, i);
      OutsideStep(t0.pages, q, i);
      assert LinkOk(m.St().t, q, i);
      ClearEntry(m, c, table, i, depth);
      NotBelowItself(q, i + 1);
      i := i + 1;
    }
    OutsideAll(t0, q);
  }

  /** What the loop does with entry i of the table above c. */
  method ClearEntry(m: Machine, ghost c: Path, table: Frame, i: nat, depth: nat)
    requires Inv(m.St()) && c.Step? && c.up in m.at && m.at[c.up] == table && Depth(c.up) == depth && c.i == i < Limit(c.up)
    modifies m
    ensures Inv(m.St()) && m.data == old(m.data) && m.ext == old(m.ext)
    ensures m.at == Outside(old(m.at), c) - {c} && m.pages == Outside(old(m.pages), c) - {c}
    decreases 3 - depth, 0
  {
    ghost var t := m.St().t;
    assert LinkOk(t, c.up, i);
    if !m.tables[table][i].p {
      if depth == 3 {
        NoDeepTable(t, c);
      } else {
        NoDeepPage(t, c);
      }
      OutsideNothing(t, c);
      return;
    }
    if depth < 3 {
      NoDeepPage(t, c);
      ClearBelow(m, c, m.tables[table][i].frame, depth + 1);
      OutsideIsChildless(t, c, m.St().t);
      m.DropTable(c, table, i);
    } else {
      NoDeepTable(t, c);
      OutsideNothing(t, c);
      m.ClearLeaf(c, table, i);
    }
  }

  lemma NotBelowItself(q: Path, k: nat)
    ensures !BelowUpTo(q, q, k)
  {
    if BelowUpTo(q, q, k) {
      BelowUpToIsBelow(q, q, k);
      BelowIsDeeper(q, q);
    }
  }

  lemma NoDeepTable(t: Forest, c: Path)
    requires Shape(t) && c.Step? && Depth(c.up) == 3
    ensures c !in t.at
  {
    if c in t.at {
      TableDepth(t, c);
    }
  }

  lemma NoDeepPage(t: Forest, c: Path)
    requires Shape(t) && c.Step? && Depth(c.up) < 3
    ensures c !in t.pages
  {
    if c in t.pages {
      PageDepth(t, c);
    }
  }

  lemma OutsideIsChildless(t: Forest, c: Path, t': Forest)
    requires Shape(t) && c in t.at && c.Step? && t'.at == Outside(t.at, c) && t'.pages == Outside(t.pages, c)
    ensures Childless(t', c) && c in t'.at && (c.up in t.at ==> c.up in t'.at)
  {
    NotDeeper(c, c);
    NotDeeper(c.up, c);
  }

  /** x86_64_unmap_full: no lower-half translation and no lower-half table is left in the address space;
      all others keep theirs, and so do the references held outside. */
  method UnmapFull(m: Machine, root: Frame)
    requires Inv(m.St()) && Root(root) in m.at
    modifies m
    ensures Inv(m.St()) && m.data == old(m.data) && m.ext == old(m.ext)
    ensures m.at == Outside(old(m.at), Root(root)) && m.pages == Outside(old(m.pages), Root(root))
  {
    assert NodeOk(m.St().t, Root(root));
    ClearBelow(m, Root(root), root, 0);
  }
}
