/** Shapes of search trees and what re-inserting whole subtrees does to them (kernel/ds/btree.c). */
module SearchTree {

  class Node {
    const key: nat
    const data: int
    var left: Node?
    var parent: Node?
    var right: Node?

    /** btree_alloc_node, with key and data filled in. */
    constructor (key: nat, data: int)
      ensures this.key == key && this.data == data && left == null && parent == null && right == null
    {
      this.key, this.data, left, parent, right := key, data, null, null, null;
    }
  }

  datatype Shape = Nil | Bin(left: Shape, node: Node, right: Shape)

  ghost function Nodes(s: Shape): set<Node> {
    if s.Nil? then {} else Nodes(s.left) + {s.node} + Nodes(s.right)
  }

  ghost function Size(s: Shape): nat {
    if s.Nil? then 0 else Size(s.left) + 1 + Size(s.right)
  }

  /** The finite map that the tree stands for takes k to d. */
  ghost predicate Maps(s: Shape, k: nat, d: int) {
    exists n :: n in Nodes(s) && n.key == k && n.data == d
  }

  ghost predicate HasKey(s: Shape, k: nat) {
    exists n :: n in Nodes(s) && n.key == k
  }

  /** A search tree whose keys lie strictly between lo and hi. */
  ghost predicate Ordered(s: Shape, lo: int, hi: int) {
    s.Bin? ==> lo < s.node.key < hi && Ordered(s.left, lo, s.node.key) && Ordered(s.right, s.node.key, hi)
  }

  /** No key lies strictly between lo and hi. */
  ghost predicate Avoids(s: Shape, lo: int, hi: int) {
    s.Bin? ==> (s.node.key <= lo || hi <= s.node.key) && Avoids(s.left, lo, hi) && Avoids(s.right, lo, hi)
  }

  lemma {:induction false} KeyBounds(s: Shape, lo: int, hi: int, n: Node)
    requires Ordered(s, lo, hi) && n in Nodes(s)
    ensures lo < n.key < hi
  {
    if n in Nodes(s.left) {
      KeyBounds(s.left, lo, s.node.key, n);
    } else if n in Nodes(s.right) {
      KeyBounds(s.right, s.node.key, hi, n);
    }
  }

  /** A key belongs to one node only. */
  lemma {:induction false} KeyIsUnique(s: Shape, lo: int, hi: int, m: Node, n: Node)
    requires Ordered(s, lo, hi) && m in Nodes(s) && n in Nodes(s) && m.key == n.key
    ensures m == n
  {
    Placed(s, lo, hi, m);
    Placed(s, lo, hi, n);
    if m in Nodes(s.left) {
      KeyIsUnique(s.left, lo, s.node.key, m, n);
    } else if m in Nodes(s.right) {
      KeyIsUnique(s.right, s.node.key, hi, m, n);
    }
  }

  /** The key tells on which side of the root a node is. */
  lemma Placed(s: Shape, lo: int, hi: int, n: Node)
    requires Ordered(s, lo, hi) && n in Nodes(s)
    ensures if n.key < s.node.key then n in Nodes(s.left) && n !in Nodes(s.right)
            else if n.key > s.node.key then n in Nodes(s.right) && n !in Nodes(s.left)
            else n == s.node && n !in Nodes(s.left) && n !in Nodes(s.right)
  {
    if n in Nodes(s.left) {
      KeyBounds(s.left, lo, s.node.key, n);
    }
    if n in Nodes(s.right) {
      KeyBounds(s.right, s.node.key, hi, n);
    }
  }

  lemma {:induction false} AvoidedKey(s: Shape, lo: int, hi: int, n: Node)
    requires Avoids(s, lo, hi) && n in Nodes(s)
    ensures n.key <= lo || hi <= n.key
  {
    if n in Nodes(s.left) {
      AvoidedKey(s.left, lo, hi, n);
    } else if n in Nodes(s.right) {
      AvoidedKey(s.right, lo, hi, n);
    }
  }

  lemma {:induction false} AvoidsLess(s: Shape, lo: int, hi: int, lo': int, hi': int)
    requires Avoids(s, lo, hi) && lo <= lo' && hi' <= hi
    ensures Avoids(s, lo', hi')
  {
    if s.Bin? {
      AvoidsLess(s.left, lo, hi, lo', hi');
      AvoidsLess(s.right, lo, hi, lo', hi');
    }
  }

  /** A tree of keys between lo and hi has none outside. */
  lemma {:induction false} OrderedAvoids(s: Shape, lo: int, hi: int, lo': int, hi': int)
    requires Ordered(s, lo, hi) && (hi' <= lo + 1 || hi <= lo' + 1)
    ensures Avoids(s, lo', hi')
  {
    if s.Bin? {
      OrderedAvoids(s.left, lo, s.node.key, lo', hi');
      OrderedAvoids(s.right, s.node.key, hi, lo', hi');
    }
  }

  // ---- Searching, cutting and inserting ----

  /** The subtree that a search for k ends at. */
  ghost function Sub(s: Shape, k: nat): Shape {
    if s.Nil? || k == s.node.key then s else if k < s.node.key then Sub(s.left, k) else Sub(s.right, k)
  }

  /** The tree without that subtree. */
  ghost function Cut(s: Shape, k: nat): Shape {
    if s.Nil? || k == s.node.key then Nil
    else if k < s.node.key then s.(left := Cut(s.left, k)) else s.(right := Cut(s.right, k))
  }

  /** Subtree u hung where the search for k runs out. */
  ghost function Hang(s: Shape, u: Shape, k: nat): Shape {
    if s.Nil? then u
    else if k < s.node.key then s.(left := Hang(s.left, u, k)) else s.(right := Hang(s.right, u, k))
  }

  /** A search finds exactly the keys of the map, with their data. */
  lemma {:induction false} SearchIsLookup(s: Shape, lo: int, hi: int, k: nat)
    requires Ordered(s, lo, hi)
    ensures Sub(s, k).Bin? <==> HasKey(s, k)
    ensures Sub(s, k).Bin? ==> Sub(s, k).node.key == k && Sub(s, k).node in Nodes(s)
    ensures Nodes(Sub(s, k)) <= Nodes(s)
  {
    if s.Bin? {
      if k < s.node.key {
        SearchIsLookup(s.left, lo, s.node.key, k);
      } else if k > s.node.key {
        SearchIsLookup(s.right, s.node.key, hi, k);
      } else {
        assert s.node in Nodes(s);
      }
      if n :| n in Nodes(s) && n.key == k {
        Placed(s, lo, hi, n);
      }
    }
  }

  /** The bounds that the tree leaves for a subtree at the place of k. */
  ghost function Bounds(s: Shape, k: nat, lo: int, hi: int): (int, int) {
    if s.Nil? || k == s.node.key then (lo, hi)
    else if k < s.node.key then Bounds(s.left, k, lo, s.node.key) else Bounds(s.right, k, s.node.key, hi)
  }

  lemma {:induction false} CutLeavesRoom(s: Shape, k: nat, lo: int, hi: int)
    requires Ordered(s, lo, hi)
    ensures var (a, b) := Bounds(s, k, lo, hi);
            lo <= a && b <= hi && Ordered(Sub(s, k), a, b) && Avoids(Cut(s, k), a, b) && Ordered(Cut(s, k), lo, hi)
  {
    if s.Bin? && k < s.node.key {
      CutLeavesRoom(s.left, k, lo, s.node.key);
      var (a, b) := Bounds(s.left, k, lo, s.node.key);
      OrderedAvoids(s.right, s.node.key, hi, a, b);
    } else if s.Bin? && k > s.node.key {
      CutLeavesRoom(s.right, k, s.node.key, hi);
      var (a, b) := Bounds(s.right, k, s.node.key, hi);
      OrderedAvoids(s.left, lo, s.node.key, a, b);
    }
  }

  lemma {:induction false} HangOrdered(s: Shape, u: Shape, k: nat, lo: int, hi: int, a: int, b: int)
    requires Ordered(s, lo, hi) && Ordered(u, a, b) && Avoids(s, a, b) && a < k < b && lo <= a && b <= hi
    ensures Ordered(Hang(s, u, k), lo, hi)
  {
    if s.Nil? {
      Widen(u, a, b, lo, hi);
    } else if k < s.node.key {
      HangOrdered(s.left, u, k, lo, s.node.key, a, b);
    } else {
      HangOrdered(s.right, u, k, s.node.key, hi, a, b);
    }
  }

  lemma {:induction false} Widen(s: Shape, a: int, b: int, lo: int, hi: int)
    requires Ordered(s, a, b) && lo <= a && b <= hi
    ensures Ordered(s, lo, hi)
  {
    if s.Bin? {
      Widen(s.left, a, s.node.key, lo, s.node.key);
      Widen(s.right, s.node.key, b, s.node.key, hi);
    }
  }

  lemma {:induction false} HangAvoids(s: Shape, u: Shape, k: nat, lo: int, hi: int)
    requires Avoids(s, lo, hi) && Avoids(u, lo, hi)
    ensures Avoids(Hang(s, u, k), lo, hi)
  {
    if s.Bin? {
      if k < s.node.key {
        HangAvoids(s.left, u, k, lo, hi);
      } else {
        HangAvoids(s.right, u, k, lo, hi);
      }
    }
  }

  /** Hanging and cutting move whole sets of nodes. */
  lemma {:induction false} HangNodes(s: Shape, u: Shape, k: nat)
    ensures Nodes(Hang(s, u, k)) == Nodes(s) + Nodes(u) && Size(Hang(s, u, k)) == Size(s) + Size(u)
  {
    if s.Bin? {
      if k < s.node.key {
        HangNodes(s.left, u, k);
      } else {
        HangNodes(s.right, u, k);
      }
    }
  }

  lemma {:induction false} CutNodes(s: Shape, k: nat)
    ensures Nodes(s) == Nodes(Cut(s, k)) + Nodes(Sub(s, k)) && Size(s) == Size(Cut(s, k)) + Size(Sub(s, k))
  {
    if s.Bin? {
      if k < s.node.key {
        CutNodes(s.left, k);
      } else if k > s.node.key {
        CutNodes(s.right, k);
      }
    }
  }

  lemma Disjoint(s: Shape, u: Shape, a: int, b: int)
    requires Avoids(s, a, b) && Ordered(u, a, b)
    ensures Nodes(s) !! Nodes(u)
  {
    forall n | n in Nodes(u) ensures n !in Nodes(s) {
      KeyBounds(u, a, b, n);
      if n in Nodes(s) {
        AvoidedKey(s, a, b, n);
      }
    }
  }

  /** What was hung under k is found there and cutting it restores the tree. */
  lemma {:induction false} HangThenCut(s: Shape, u: Shape, lo: int, hi: int, a: int, b: int)
    requires u.Bin? && Ordered(s, lo, hi) && Avoids(s, a, b) && a < u.node.key < b
    ensures Sub(Hang(s, u, u.node.key), u.node.key) == u && Cut(Hang(s, u, u.node.key), u.node.key) == s
  {
    if s.Bin? {
      if u.node.key < s.node.key {
        HangThenCut(s.left, u, lo, s.node.key, a, b);
      } else {
        HangThenCut(s.right, u, s.node.key, hi, a, b);
      }
    }
  }

  // ---- Deletion ----

  /** The tree after btree_delete_node: the subtree at k is cut off, its right part and then its left part
      are inserted again from the root. */
  ghost function Deleted(s: Shape, k: nat): Shape
    requires Sub(s, k).Bin?
  {
    var u := Sub(s, k);
    var s1 := if u.right.Nil? then Cut(s, k) else Hang(Cut(s, k), u.right, u.right.node.key);
    if u.left.Nil? then s1 else Hang(s1, u.left, u.left.node.key)
  }

  /** Each of the two parts finds a gap that is its own. */
  lemma PartsFit(s: Shape, k: nat, lo: int, hi: int) returns (a: int, b: int, s1: Shape)
    requires Ordered(s, lo, hi) && Sub(s, k).Bin?
    ensures var u := Sub(s, k);
      && lo <= a && b <= hi && a < k < b
      && Ordered(u.left, a, k) && Ordered(u.right, k, b)
      && Ordered(Cut(s, k), lo, hi) && Avoids(Cut(s, k), a, b) && Avoids(Cut(s, k), k, b)
      && s1 == (if u.right.Nil? then Cut(s, k) else Hang(Cut(s, k), u.right, u.right.node.key))
      && Ordered(s1, lo, hi) && Avoids(s1, a, k)
  {
    var u := Sub(s, k);
    var p := Bounds(s, k, lo, hi);
    a, b := p.0, p.1;
    CutLeavesRoom(s, k, lo, hi);
    SearchIsLookup(s, lo, hi, k);
    var c := Cut(s, k);
    AvoidsLess(c, a, b, k, b);
    AvoidsLess(c, a, b, a, k);
    if u.right.Bin? {
      s1 := Hang(c, u.right, u.right.node.key);
      HangOrdered(c, u.right, u.right.node.key, lo, hi, k, b);
      OrderedAvoids(u.right, k, b, a, k);
      HangAvoids(c, u.right, u.right.node.key, a, k);
    } else {
      s1 := c;
    }
  }

  /** The root of the cut-off subtree is nowhere else. */
  lemma RootApart(s: Shape, k: nat, lo: int, hi: int)
    requires Ordered(s, lo, hi) && Sub(s, k).Bin?
    ensures var u := Sub(s, k); u.node !in Nodes(Cut(s, k)) && u.node !in Nodes(u.left) && u.node !in Nodes(u.right)
  {
    var u := Sub(s, k);
    var p := Bounds(s, k, lo, hi);
    CutLeavesRoom(s, k, lo, hi);
    Placed(u, p.0, p.1, u.node);
    Disjoint(Cut(s, k), u, p.0, p.1);
    assert u.node in Nodes(u);
  }

  lemma DeletedNodes(s: Shape, k: nat)
    requires Sub(s, k).Bin?
    ensures var u := Sub(s, k);
      && Nodes(Deleted(s, k)) == Nodes(Cut(s, k)) + Nodes(u.right) + Nodes(u.left)
      && Size(Deleted(s, k)) == Size(Cut(s, k)) + Size(u.right) + Size(u.left)
  {
    var u := Sub(s, k);
    var s1 := Cut(s, k);
    if u.right.Bin? {
      HangNodes(s1, u.right, u.right.node.key);
      s1 := Hang(s1, u.right, u.right.node.key);
    }
    if u.left.Bin? {
      HangNodes(s1, u.left, u.left.node.key);
    }
  }

  lemma DeletedOrdered(s: Shape, k: nat, lo: int, hi: int)
    requires Ordered(s, lo, hi) && Sub(s, k).Bin?
    ensures Ordered(Deleted(s, k), lo, hi)
  {
    var u := Sub(s, k);
    var a, b, s1 := PartsFit(s, k, lo, hi);
    if u.left.Bin? {
      HangOrdered(s1, u.left, u.left.node.key, lo, hi, a, k);
    }
  }

  lemma OneLess<T>(all: set<T>, x: T, c: set<T>, l: set<T>, r: set<T>)
    requires all == c + (l + {x} + r) && x !in c && x !in l && x !in r
    ensures c + r + l == all - {x}
  {
  }

  /** Deletion takes out exactly one node and keeps the order. */
  lemma DeletedIsRemoval(s: Shape, k: nat, lo: int, hi: int)
    requires Ordered(s, lo, hi) && Sub(s, k).Bin?
    ensures Ordered(Deleted(s, k), lo, hi)
    ensures Nodes(Deleted(s, k)) == Nodes(s) - {Sub(s, k).node}
    ensures Size(Deleted(s, k)) == Size(s) - 1
  {
    var u := Sub(s, k);
    DeletedOrdered(s, k, lo, hi);
    CutNodes(s, k);
    RootApart(s, k, lo, hi);
    DeletedNodes(s, k);
    OneLess(Nodes(s), u.node, Nodes(Cut(s, k)), Nodes(u.left), Nodes(u.right));
  }
}
