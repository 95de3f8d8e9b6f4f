/** Paths below a table, and trees with such a part removed or copied elsewhere. */
module Subtree {
  import opened PageTree

  /** x lies strictly below q. */
  ghost predicate Below(x: Path, q: Path) {
    x.Step? && (x.up == q || Below(x.up, q))
  }

  /** x lies below one of the first k entries of q. */
  ghost predicate BelowUpTo(x: Path, q: Path, k: nat) {
    x.Step? && ((x.up == q && x.i < k) || BelowUpTo(x.up, q, k))
  }

  lemma {:induction false} BelowIsDeeper(x: Path, q: Path)
    requires Below(x, q)
    ensures Depth(x) > Depth(q) && RootOf(x) == RootOf(q)
  {
    if x.up != q {
      BelowIsDeeper(x.up, q);
    }
  }

  lemma NotDeeper(x: Path, q: Path)
    requires Depth(x) <= Depth(q) || RootOf(x) != RootOf(q)
    ensures !Below(x, q)
  {
    if Below(x, q) {
      BelowIsDeeper(x, q);
    }
  }

  lemma {:induction false} BelowTransitive(x: Path, c: Path, q: Path)
    requires Below(x, c) && Below(c, q)
    ensures Below(x, q)
  {
    if x.up != c {
      BelowTransitive(x.up, c, q);
    }
  }

  lemma {:induction false} BelowUpToIsBelow(x: Path, q: Path, k: nat)
    requires BelowUpTo(x, q, k)
    ensures Below(x, q)
  {
    if !(x.up == q && x.i < k) {
      BelowUpToIsBelow(x.up, q, k);
    }
  }

  lemma {:induction false} BelowStep(x: Path, q: Path, k: nat)
    ensures BelowUpTo(x, q, k + 1) <==> BelowUpTo(x, q, k) || x == Step(q, k) || Below(x, Step(q, k))
    decreases x
  {
    if x.Step? {
      BelowStep(x.up, q, k);
    }
  }

  lemma {:induction false} NoneUpToZero(x: Path, q: Path)
    ensures !BelowUpTo(x, q, 0)
    decreases x
  {
    if x.Step? {
      NoneUpToZero(x.up, q);
    }
  }

  ghost predicate Present(t: Forest, x: Path) {
    x in t.at || x in t.pages
  }

  lemma TableDepth(t: Forest, c: Path)
    requires Shape(t) && c in t.at
    ensures Depth(c) <= 3
  {
    assert NodeOk(t, c);
  }

  lemma PageDepth(t: Forest, x: Path)
    requires Shape(t) && x in t.pages
    ensures Depth(x) == 4
  {
    assert PageOk(t, x);
  }

  lemma Up(t: Forest, x: Path)
    requires Shape(t) && Present(t, x) && x.Step?
    ensures x.up in t.at && x.i < Limit(x.up)
  {
    if x in t.at {
      assert NodeOk(t, x);
    } else {
      assert PageOk(t, x);
      assert Depth(x.up) == 3;
    }
  }

  /** Going through all entries of q covers everything below it. */
  lemma {:induction false} BelowAll(t: Forest, x: Path, q: Path)
    requires Shape(t) && Present(t, x)
    ensures Below(x, q) <==> BelowUpTo(x, q, Limit(q))
    decreases x
  {
    if x.Step? {
      Up(t, x);
      BelowAll(t, x.up, q);
    }
  }

  /** Nothing lies below a table that does not exist. */
  lemma {:induction false} NothingUnder(t: Forest, x: Path, c: Path)
    requires Shape(t) && Present(t, x) && c !in t.at
    ensures !Below(x, c)
    decreases x
  {
    if x.Step? {
      Up(t, x);
      NothingUnder(t, x.up, c);
    }
  }

  // ---- Removing a subtree ----

  ghost function Outside<T>(m: map<Path, T>, q: Path): map<Path, T> {
    map x | x in m && !Below(x, q) :: m[x]
  }

  ghost function OutsideUpTo<T>(m: map<Path, T>, q: Path, k: nat): map<Path, T> {
    map x | x in m && !BelowUpTo(x, q, k) :: m[x]
  }

  lemma OutsideZero<T>(m: map<Path, T>, q: Path)
    ensures OutsideUpTo(m, q, 0) == m
  {
    forall x | x in m ensures !BelowUpTo(x, q, 0) {
      NoneUpToZero(x, q);
    }
  }

  lemma OutsideStep<T>(m: map<Path, T>, q: Path, k: nat)
    ensures OutsideUpTo(m, q, k + 1) == Outside(OutsideUpTo(m, q, k), Step(q, k)) - {Step(q, k)}
  {
    forall x | x in m
      ensures BelowUpTo(x, q, k + 1) <==> BelowUpTo(x, q, k) || x == Step(q, k) || Below(x, Step(q, k))
    {
      BelowStep(x, q, k);
    }
  }

  lemma OutsideAll(t: Forest, q: Path)
    requires Shape(t)
    ensures OutsideUpTo(t.at, q, Limit(q)) == Outside(t.at, q)
    ensures OutsideUpTo(t.pages, q, Limit(q)) == Outside(t.pages, q)
  {
    forall x | Present(t, x) ensures Below(x, q) <==> BelowUpTo(x, q, Limit(q)) {
      BelowAll(t, x, q);
    }
    assert forall x :: x in t.at || x in t.pages ==> Present(t, x);
  }

  /** An entry with no table behind it has nothing to remove but itself. */
  lemma OutsideNothing(t: Forest, c: Path)
    requires Shape(t) && c !in t.at
    ensures Outside(t.at, c) == t.at && Outside(t.pages, c) == t.pages
  {
    forall x | x in t.at ensures !Below(x, c) {
      NothingUnder(t, x, c);
    }
    forall x | x in t.pages ensures !Below(x, c) {
      NothingUnder(t, x, c);
    }
  }
}
