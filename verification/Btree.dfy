/** The search tree with parent links (kernel/ds/btree.c). */
module Btree {
  import opened SearchTree

  datatype Err = OK | EEXIST | ENOENT

  /** Keys are uintptr_t values. */
  const TOP: nat := 0x1_0000_0000_0000_0000

  // ---- Nodes in memory that form a shape ----

  datatype Cell = Cell(left: Node?, parent: Node?, right: Node?)

  /** The nodes reachable from n, whose parent is p, form the shape s. */
  ghost predicate Rep(s: Shape, c: map<Node, Cell>, n: Node?, p: Node?) {
    match s
    case Nil => n == null
    case Bin(l, x, r) => n == x && x in c && c[x].parent == p && Rep(l, c, c[x].left, x) && Rep(r, c, c[x].right, x)
  }

  lemma {:induction false} RepFrame(s: Shape, c: map<Node, Cell>, c': map<Node, Cell>, n: Node?, p: Node?)
    requires Rep(s, c, n, p) && forall x :: x in Nodes(s) ==> x in c && x in c' && c'[x] == c[x]
    ensures Rep(s, c', n, p)
  {
    if s.Bin? {
      RepFrame(s.left, c, c', c[s.node].left, s.node);
      RepFrame(s.right, c, c', c[s.node].right, s.node);
    }
  }

  lemma {:induction false} RepCells(s: Shape, c: map<Node, Cell>, n: Node?, p: Node?)
    requires Rep(s, c, n, p)
    ensures Nodes(s) <= c.Keys
  {
    if s.Bin? {
      RepCells(s.left, c, c[s.node].left, s.node);
      RepCells(s.right, c, c[s.node].right, s.node);
    }
  }

  /** A new parent for the root of u, whose nodes are otherwise untouched. */
  lemma RepAdopted(u: Shape, c: map<Node, Cell>, c': map<Node, Cell>, p: Node?, lo: int, hi: int)
    requires u.Bin? && Ordered(u, lo, hi) && u.node in c && Rep(u, c, u.node, c[u.node].parent)
    requires forall x :: x in Nodes(u) && x != u.node ==> x in c && x in c' && c'[x] == c[x]
    requires u.node in c' && c'[u.node] == c[u.node].(parent := p)
    ensures Rep(u, c', u.node, p)
  {
    Placed(u, lo, hi, u.node);
    RepFrame(u.left, c, c', c[u.node].left, u.node);
    RepFrame(u.right, c, c', c[u.node].right, u.node);
  }

  /** The node where a search for k ends. */
  ghost function Last(s: Shape, k: nat): Node
    requires s.Bin?
  {
    var t := if k < s.node.key then s.left else s.right;
    if k == s.node.key || t.Nil? then s.node else Last(t, k)
  }

  lemma {:induction false} LastIsNode(s: Shape, k: nat)
    requires s.Bin?
    ensures Last(s, k) in Nodes(s) && (Sub(s, k).Nil? ==> Last(s, k).key != k)
  {
    var t := if k < s.node.key then s.left else s.right;
    if k != s.node.key && t.Bin? {
      LastIsNode(t, k);
    }
  }

  /** Node q with its link on the side of k set to x. */
  ghost function WithChild(q: Node, c: Cell, k: nat, x: Node?): Cell {
    if k < q.key then c.(left := x) else c.(right := x)
  }

  /** Setting one link of the last node of the search hangs u into the tree. */
  lemma {:induction false} HangRep(s: Shape, c: map<Node, Cell>, c': map<Node, Cell>, n: Node?, p: Node?,
                                   u: Shape, k: nat, lo: int, hi: int)
    requires s.Bin? && Rep(s, c, n, p) && Ordered(s, lo, hi) && Sub(s, k).Nil? && u.Bin?
    requires Rep(u, c', u.node, Last(s, k))
    requires Last(s, k) in c && Last(s, k) in c' && c'[Last(s, k)] == WithChild(Last(s, k), c[Last(s, k)], k, u.node)
    requires forall x :: x in Nodes(s) && x != Last(s, k) ==> x in c && x in c' && c'[x] == c[x]
    ensures Rep(Hang(s, u, k), c', n, p)
  {
    var q := Last(s, k);
    var left := k < s.node.key;
    var t := if left then s.left else s.right;
    LastIsNode(s, k);
    Placed(s, lo, hi, q);
    Placed(s, lo, hi, s.node);
    if t.Bin? {
      LastIsNode(t, k);
      if left {
        HangRep(t, c, c', c[s.node].left, s.node, u, k, lo, s.node.key);
      } else {
        HangRep(t, c, c', c[s.node].right, s.node, u, k, s.node.key, hi);
      }
    }
    if left {
      OtherSide(s, lo, hi, q);
      RepFrame(s.right, c, c', c[s.node].right, s.node);
    } else {
      OtherSide(s, lo, hi, q);
      RepFrame(s.left, c, c', c[s.node].left, s.node);
    }
  }

  /** A node is on one side only. */
  lemma OtherSide(s: Shape, lo: int, hi: int, q: Node)
    requires s.Bin? && Ordered(s, lo, hi)
    ensures q in Nodes(s.left) ==> q !in Nodes(s.right) && q != s.node
    ensures q in Nodes(s.right) ==> q !in Nodes(s.left) && q != s.node
  {
    if q in Nodes(s) {
      Placed(s, lo, hi, q);
    }
  }

  /** The node above the subtree at k. */
  ghost function Above(s: Shape, k: nat): Node
    requires s.Bin? && k != s.node.key && Sub(s, k).Bin?
  {
    var t := if k < s.node.key then s.left else s.right;
    assert Sub(t, k).Bin?;
    if t.node.key == k then s.node else Above(t, k)
  }

  lemma {:induction false} AboveIsNode(s: Shape, k: nat)
    requires s.Bin? && k != s.node.key && Sub(s, k).Bin?
    ensures Above(s, k) in Nodes(s)
  {
    var t := if k < s.node.key then s.left else s.right;
    if t.node.key != k {
      AboveIsNode(t, k);
    }
  }

  /** The subtree that a search finds, and who its parent is. */
  lemma {:induction false} SubRep(s: Shape, c: map<Node, Cell>, n: Node?, p: Node?, k: nat, lo: int, hi: int)
    requires Rep(s, c, n, p) && Ordered(s, lo, hi) && Sub(s, k).Bin?
    ensures Rep(Sub(s, k), c, Sub(s, k).node, if k == s.node.key then p else Above(s, k))
    ensures k != s.node.key ==> Above(s, k) in c
    ensures k != s.node.key ==> c[Above(s, k)] == WithChild(Above(s, k), c[Above(s, k)], k, Sub(s, k).node)
    ensures k != s.node.key && k < Above(s, k).key ==> c[Above(s, k)].right != Sub(s, k).node
  {
    if k < s.node.key {
      SubRep(s.left, c, c[s.node].left, s.node, k, lo, s.node.key);
    } else if k > s.node.key {
      SubRep(s.right, c, c[s.node].right, s.node, k, s.node.key, hi);
    }
  }

  /** Clearing one link of that parent cuts the subtree off. */
  lemma {:induction false} CutRep(s: Shape, c: map<Node, Cell>, c': map<Node, Cell>, n: Node?, p: Node?,
                                  k: nat, lo: int, hi: int)
    requires Rep(s, c, n, p) && Ordered(s, lo, hi) && Sub(s, k).Bin? && k != s.node.key
    requires Above(s, k) in c && Above(s, k) in c' && c'[Above(s, k)] == WithChild(Above(s, k), c[Above(s, k)], k, null)
    requires forall x :: x in Nodes(Cut(s, k)) && x != Above(s, k) ==> x in c && x in c' && c'[x] == c[x]
    ensures Rep(Cut(s, k), c', n, p)
  {
    var q := Above(s, k);
    AboveIsNode(s, k);
    OtherSide(s, lo, hi, q);
    if k < s.node.key {
      if s.left.node.key != k {
        AboveIsNode(s.left, k);
        CutRep(s.left, c, c', c[s.node].left, s.node, k, lo, s.node.key);
      }
      RepFrame(s.right, c, c', c[s.node].right, s.node);
    } else {
      if s.right.node.key != k {
        AboveIsNode(s.right, k);
        CutRep(s.right, c, c', c[s.node].right, s.node, k, s.node.key, hi);
      }
      RepFrame(s.left, c, c', c[s.node].left, s.node);
    }
  }

  class Tree {
    var root: Node?
    var nr: int
    ghost var cells: map<Node, Cell>
    ghost var shape: Shape

    /** BTREE_INIT. */
    constructor ()
      ensures Valid() && shape == Nil
    {
      root, nr, cells, shape := null, 0, map[], Nil;
    }

    /** What the model knows of a node is what is stored in it. */
    ghost predicate Mirrored(n: Node)
      requires n in cells
      reads this`cells, n
    {
      cells[n] == Cell(n.left, n.parent, n.right)
    }

    /** The tree is well linked and ordered, whatever the node count says. */
    ghost predicate Sound()
      reads this, cells.Keys
    {
      && (forall n {:trigger Mirrored(n)} :: n in cells ==> Mirrored(n))
      && Rep(shape, cells, root, null)
      && Ordered(shape, -1, TOP)
    }

    ghost predicate Valid()
      reads this, cells.Keys
    {
      Sound() && nr == Size(shape)
    }

    /** btree_lookup. */
    method Lookup(key: nat) returns (n: Node?)
      requires Sound()
      ensures n == null <==> Sub(shape, key).Nil?
      ensures n != null ==> n == Sub(shape, key).node && n.key == key && n in Nodes(shape)
    {
      SearchIsLookup(shape, -1, TOP, key);
      n := root;
      ghost var t, p := shape, null;
      while n != null
        invariant Rep(t, cells, n, p) && Sub(t, key) == Sub(shape, key)
        decreases t
      {
        assert Mirrored(n);
        if n.key == key {
          return;
        } else if key < n.key {
          p, t := n, t.left;
          n := n.left;
        } else {
          p, t := n, t.right;
          n := n.right;
        }
      }
    }

    /** btree_search: the value that the map holds for key. */
    method Search(key: nat) returns (err: Err, data: int)
      requires Sound()
      ensures err == if HasKey(shape, key) then OK else ENOENT
      ensures err == OK ==> Maps(shape, key, data)
    {
      SearchIsLookup(shape, -1, TOP, key);
      var n := Lookup(key);
      if n == null {
        return ENOENT, 0;
      }
      return OK, n.data;
    }

    /** The descent of btree_insert_node: the node under which key belongs, unless key is there already. */
    method Descend(key: nat) returns (found: bool, q: Node)
      requires Sound() && root != null
      ensures found <==> Sub(shape, key).Bin?
      ensures !found ==> q == Last(shape, key)
    {
      ghost var t, p := shape, null;
      q := root;
      while true
        invariant t.Bin? && Rep(t, cells, q, p) && Sub(t, key) == Sub(shape, key) && Last(t, key) == Last(shape, key)
        decreases t
      {
        assert Mirrored(q);
        var iter: Node?;
        ghost var t';
        if key < q.key {
          iter, t' := q.left, t.left;
        } else if key > q.key {
          iter, t' := q.right, t.right;
        } else {
          return true, q;
        }
        if iter == null {
          return false, q;
        }
        p, q, t := q, iter, t';
      }
    }

    /** btree_insert_node, for a node that heads a whole subtree u. */
    method InsertNode(node: Node, ghost u: Shape, ghost a: int, ghost b: int) returns (err: Err)
      requires Sound() && u.Bin? && u.node == node && node in cells && Rep(u, cells, node, cells[node].parent)
      requires Ordered(u, a, b) && -1 <= a && b <= TOP && Nodes(shape) !! Nodes(u)
      requires Sub(shape, node.key).Bin? || Avoids(shape, a, b)
      modifies this, cells.Keys
      ensures Sound() && cells.Keys == old(cells.Keys)
      ensures err == if Sub(old(shape), node.key).Bin? then EEXIST else OK
      ensures err != OK ==> shape == old(shape) && nr == old(nr)
      ensures err == OK ==> shape == Hang(old(shape), u, node.key) && nr == old(nr) + 1
      ensures forall x :: x in cells && x !in Nodes(old(shape)) + Nodes(u) ==> cells[x] == old(cells)[x]
    {
      RepCells(u, cells, node, cells[node].parent);
      SetParent(node, null, u, a, b);
      if root == null {
        PlantRoot(node, u, a, b);
      } else {
        var found, parent := Descend(node.key);
        if found {
          return EEXIST;
        }
        LastIsNode(shape, node.key);
        RepCells(shape, cells, root, null);
        InsertBelow(parent, node, u, a, b);
      }
      nr := nr + 1;
      return OK;
    }

    /** The first subtree of an empty tree. */
    method PlantRoot(node: Node, ghost u: Shape, ghost a: int, ghost b: int)
      requires Sound() && root == null && u.Bin? && Rep(u, cells, node, null) && Ordered(u, a, b) && -1 <= a && b <= TOP
      modifies this`root, this`shape
      ensures Sound() && old(shape).Nil? && shape == u
    {
      root := node;
      shape := u;
      Widen(u, a, b, -1, TOP);
    }

    /** The key of node is new, and parent is where the search for it ended. */
    method InsertBelow(parent: Node, node: Node, ghost u: Shape, ghost a: int, ghost b: int)
      requires Sound() && shape.Bin? && Sub(shape, node.key).Nil? && parent == Last(shape, node.key)
      requires u.Bin? && u.node == node && node in cells && Rep(u, cells, node, cells[node].parent)
      requires Ordered(u, a, b) && -1 <= a && b <= TOP && Nodes(shape) !! Nodes(u) && Avoids(shape, a, b)
      modifies this`cells, this`shape, node`parent, parent`left, parent`right
      ensures Sound() && cells.Keys == old(cells.Keys) && shape == Hang(old(shape), u, node.key)
      ensures forall x :: x in cells && x != parent && x != node ==> cells[x] == old(cells)[x]
    {
      LastIsNode(shape, node.key);
      HangOrdered(shape, u, node.key, -1, TOP, a, b);
      Attach(parent, node, u, a, b);
    }

    /** node->parent = p, for the root of a subtree that is not in the tree. */
    method SetParent(node: Node, p: Node?, ghost u: Shape, ghost a: int, ghost b: int)
      requires Sound() && u.Bin? && u.node == node && node in cells && Rep(u, cells, node, cells[node].parent)
      requires Ordered(u, a, b) && node !in Nodes(shape)
      modifies this`cells, node`parent
      ensures Sound() && cells == old(cells)[node := old(cells)[node].(parent := p)] && Rep(u, cells, node, p)
    {
      RepCells(shape, cells, root, null);
      RepCells(u, cells, node, cells[node].parent);
      ghost var c := cells;
      assert Mirrored(node);
      node.parent := p;
      cells := c[node := c[node].(parent := p)];
      forall n | n in cells ensures Mirrored(n) {
        assert old(Mirrored(n));
      }
      RepFrame(shape, c, cells, root, null);
      RepAdopted(u, c, cells, p, a, b);
    }

    /** Hang node under parent, the last node of the search for its key. */
    method Attach(parent: Node, node: Node, ghost u: Shape, ghost a: int, ghost b: int)
      requires Sound() && shape.Bin? && Sub(shape, node.key).Nil? && parent == Last(shape, node.key)
      requires u.Bin? && u.node == node && node in cells && Rep(u, cells, node, cells[node].parent) && Ordered(u, a, b)
      requires Nodes(shape) !! Nodes(u) && Ordered(Hang(shape, u, node.key), -1, TOP)
      modifies this`cells, this`shape, node`parent, parent`left, parent`right
      ensures Sound() && cells.Keys == old(cells.Keys) && shape == Hang(old(shape), u, node.key)
      ensures forall x :: x in cells && x != parent && x != node ==> cells[x] == old(cells)[x]
    {
      LastIsNode(shape, node.key);
      SetParent(node, parent, u, a, b);
      SetChild(parent, node, u, a, b);
    }

    method SetChild(parent: Node, node: Node, ghost u: Shape, ghost a: int, ghost b: int)
      requires Sound() && shape.Bin? && Sub(shape, node.key).Nil? && parent == Last(shape, node.key)
      requires u.Bin? && u.node == node && Rep(u, cells, node, parent) && parent !in Nodes(u)
      requires Ordered(Hang(shape, u, node.key), -1, TOP)
      modifies this`cells, this`shape, parent`left, parent`right
      ensures Sound() && cells.Keys == old(cells.Keys) && shape == Hang(old(shape), u, node.key)
      ensures forall x :: x in cells && x != parent ==> cells[x] == old(cells)[x]
    {
      LastIsNode(shape, node.key);
      RepCells(shape, cells, root, null);
      RepCells(u, cells, node, parent);
      ghost var c := cells;
      assert Mirrored(parent);
      SetLink(parent, node);
      cells := c[parent := WithChild(parent, c[parent], node.key, node)];
      RepFrame(u, c, cells, node, parent);
      HangRep(shape, c, cells, root, null, u, node.key, -1, TOP);
      shape := Hang(shape, u, node.key);
      forall n | n in cells ensures Mirrored(n) {
        assert old(Mirrored(n));
      }
    }

    /** btree_insert. */
    method Insert(key: nat, data: int) returns (err: Err)
      requires Valid() && key < TOP
      modifies this, cells.Keys
      ensures Valid()
      ensures err == if HasKey(old(shape), key) then EEXIST else OK
      ensures forall k, d :: Maps(shape, k, d) <==> Maps(old(shape), k, d) || (err == OK && k == key && d == data)
      ensures nr == old(nr) + if err == OK then 1 else 0
      ensures forall n :: n in cells ==> n in old(cells) || fresh(n)
    {
      SearchIsLookup(shape, -1, TOP, key);
      RepCells(shape, cells, root, null);
      var node := new Node(key, data);
      ghost var u, c := Bin(Nil, node, Nil), cells;
      cells := c[node := Cell(null, null, null)];
      RepFrame(shape, c, cells, root, null);
      forall n | n in cells ensures Mirrored(n) {
        assert n in c ==> old(Mirrored(n));
      }
      if !HasKey(shape, key) {
        AbsentKey(shape, key);
      }
      HangNodes(shape, u, key);
      err := InsertNode(node, u, key - 1, key + 1);
    }

    /** The first part of btree_delete_node: no link leads to node any more. */
    method Unhook(node: Node)
      requires Sound() && Sub(shape, node.key).Bin? && Sub(shape, node.key).node == node
      modifies this`root, this`cells, this`shape, cells.Keys
      ensures Sound() && cells.Keys == old(cells.Keys) && shape == Cut(old(shape), node.key)
      ensures forall x :: x in Nodes(Sub(old(shape), node.key)) ==> x in cells && cells[x] == old(cells)[x]
    {
      ghost var s, c, k := shape, cells, node.key;
      RepCells(s, c, root, null);
      SubRep(s, c, root, null, k, -1, TOP);
      ApartFromCut(s, k, -1, TOP);
      assert Mirrored(node);
      if node == root {
        root := null;
        shape := Nil;
      } else {
        UnhookBelow(node, node.parent);
      }
    }

    method UnhookBelow(node: Node, parent: Node)
      requires Sound() && Sub(shape, node.key).Bin? && Sub(shape, node.key).node == node && node.key != shape.node.key
      requires parent == Above(shape, node.key)
      modifies this`cells, this`shape, parent`left, parent`right
      ensures Sound() && cells.Keys == old(cells.Keys) && shape == Cut(old(shape), node.key)
      ensures forall x :: x in cells && x != parent ==> cells[x] == old(cells)[x]
    {
      ghost var s, c, k := shape, cells, node.key;
      RepCells(s, c, root, null);
      SubRep(s, c, root, null, k, -1, TOP);
      ApartFromCut(s, k, -1, TOP);
      CutLeavesRoom(s, k, -1, TOP);
      assert Mirrored(parent);
      ClearLink(parent, node);
      cells := c[parent := WithChild(parent, c[parent], k, null)];
      CutRep(s, c, cells, root, null, k, -1, TOP);
      shape := Cut(s, k);
      forall n | n in cells ensures Mirrored(n) {
        assert old(Mirrored(n));
      }
    }

    /** btree_free_node. */
    method Free(node: Node)
      requires Sound() && node in cells && node !in Nodes(shape)
      modifies this`cells, node`left, node`parent, node`right
      ensures Sound() && cells == old(cells)[node := Cell(null, null, null)]
    {
      RepCells(shape, cells, root, null);
      ghost var c := cells;
      node.left, node.parent, node.right := null, null, null;
      cells := c[node := Cell(null, null, null)];
      RepFrame(shape, c, cells, root, null);
      forall n | n in cells ensures Mirrored(n) {
        assert old(Mirrored(n));
      }
    }

    /** Take node out of the tree and free it; its two subtrees stay behind. */
    method Remove(node: Node, left: Node?, right: Node?, ghost u: Shape)
      requires Sound() && u.Bin? && u == Sub(shape, node.key) && u.node == node
      requires Rep(u.left, cells, left, node) && Rep(u.right, cells, right, node)
      modifies this, cells.Keys
      ensures Sound() && cells.Keys == old(cells.Keys) && shape == Cut(old(shape), node.key) && nr == old(nr) - 1
      ensures Rep(u.left, cells, left, node) && Rep(u.right, cells, right, node)
    {
      PartsApart(shape, node.key, -1, TOP);
      ghost var c := cells;
      Unhook(node);
      Free(node);
      nr := nr - 1;
      PartsKept(u, c, cells, left, right);
    }

    /** Insert subtree u again while v waits. */
    method Reinsert(x: Node, y: Node?, ghost u: Shape, ghost v: Shape, ghost a: int, ghost b: int, ghost p: Node)
      requires Sound() && u.Bin? && Rep(u, cells, x, p) && Rep(v, cells, y, p)
      requires Ordered(u, a, b) && -1 <= a && b <= TOP && Avoids(shape, a, b)
      requires Nodes(shape) !! Nodes(v) && Nodes(u) !! Nodes(v)
      modifies this, cells.Keys
      ensures Sound() && cells.Keys == old(cells.Keys) && shape == Hang(old(shape), u, x.key) && nr == old(nr) + 1
      ensures Rep(v, cells, y, p)
    {
      RepCells(v, cells, y, p);
      Disjoint(shape, u, a, b);
      SearchIsLookup(shape, -1, TOP, x.key);
      if n :| n in Nodes(shape) && n.key == x.key {
        AvoidedKey(shape, a, b, n);
      }
      ghost var c := cells;
      var err := InsertNode(x, u, a, b);
      RepFrame(v, c, cells, y, p);
    }

    /** btree_delete_node: take node out and insert its right and then its left subtree again. */
    method DeleteNode(node: Node)
      requires Valid() && Sub(shape, node.key).Bin? && Sub(shape, node.key).node == node
      modifies this, cells.Keys
      ensures Valid() && cells.Keys == old(cells.Keys) && shape == Deleted(old(shape), node.key)
    {
      ghost var s, k, u := shape, node.key, Sub(shape, node.key);
      Root(u);
      ghost var a, b, s1 := Plan(s, k, -1, TOP);
      assert Mirrored(node);
      var left, right := node.left, node.right;
      Remove(node, left, right, u);
      PutBack(right, left, u.right, u.left, k, b, node);
      PutBack(left, null, u.left, Nil, a, k, node);
    }

    /** Insert subtree u again, if there is one; it has been counted already. */
    method PutBack(x: Node?, y: Node?, ghost u: Shape, ghost v: Shape, ghost a: int, ghost b: int, ghost p: Node)
      requires Sound() && Rep(u, cells, x, p) && Rep(v, cells, y, p)
      requires Ordered(u, a, b) && -1 <= a && b <= TOP && Avoids(shape, a, b)
      requires Nodes(shape) !! Nodes(v) && Nodes(u) !! Nodes(v)
      modifies this, cells.Keys
      ensures Sound() && cells.Keys == old(cells.Keys) && nr == old(nr) && Rep(v, cells, y, p)
      ensures shape == if u.Nil? then old(shape) else Hang(old(shape), u, u.node.key)
    {
      if x != null {
        nr := nr - 1;
        Reinsert(x, y, u, v, a, b, p);
      }
    }

    /** btree_delete: key is gone and nothing else is. */
    method Delete(key: nat)
      requires Valid()
      modifies this, cells.Keys
      ensures Valid() && cells.Keys == old(cells.Keys)
      ensures forall k, d :: Maps(shape, k, d) <==> Maps(old(shape), k, d) && k != key
      ensures nr == old(nr) - if HasKey(old(shape), key) then 1 else 0
    {
      ghost var s := shape;
      SearchIsLookup(s, -1, TOP, key);
      var node := Lookup(key);
      if node != null {
        DeletedIsRemoval(s, key, -1, TOP);
        DeleteNode(node);
        forall n | n in Nodes(s) && n.key == key ensures n == node {
          KeyIsUnique(s, -1, TOP, n, node);
        }
      }
    }

    /** btree_flush_node: the whole subtree t goes, although every deletion moves parts of it. */
    method FlushNode(node: Node?, ghost t: Shape)
      requires Valid() && (if t.Nil? then node == null else node == t.node && Sub(shape, t.node.key) == t)
      modifies this, cells.Keys
      ensures Valid() && cells.Keys == old(cells.Keys)
      ensures shape == if t.Nil? then old(shape) else Cut(old(shape), t.node.key)
      decreases t
    {
      if node != null {
        ghost var s, k := shape, node.key;
        Root(t);
        assert Mirrored(node);
        ChildrenFound(s, t, -1, TOP);
        FlushNode(node.left, t.left);
        CutChild(s, t, -1, TOP);
        ghost var t' := t.(left := Nil);
        Root(t');
        assert Mirrored(node);
        var right := node.right;
        RightBack(shape, t', -1, TOP);
        DeleteNode(node);
        FlushNode(right, t.right);
      }
    }

    /** A subtree that a search finds is linked to its children. */
    lemma Root(t: Shape)
      requires Sound() && t.Bin? && Sub(shape, t.node.key) == t
      ensures t.node in cells
      ensures Rep(t.left, cells, cells[t.node].left, t.node) && Rep(t.right, cells, cells[t.node].right, t.node)
    {
      SubRep(shape, cells, root, null, t.node.key, -1, TOP);
    }

    /** btree_flush. */
    method Flush()
      requires Valid()
      modifies this, cells.Keys
      ensures Valid() && shape == Nil && root == null && nr == 0
    {
      FlushNode(root, shape);
    }

    /** btree_node_traverse, onto a queue that takes no value twice. */
    method TraverseNode(node: Node?, queue: seq<int>, ghost t: Shape, ghost p: Node?) returns (err: Err, q: seq<int>)
      requires Sound() && Rep(t, cells, node, p)
      ensures q == Walk(t, queue)
      ensures err == if t.Bin? && t.node.data in Walk(t.left, queue) then EEXIST else OK
      decreases t
    {
      q := queue;
      if node != null {
        assert Mirrored(node);
        var e;
        e, q := TraverseNode(node.left, q, t.left, node);
        if node.data in q {
          return EEXIST, q;
        }
        q := q + [node.data];
        e, q := TraverseNode(node.right, q, t.right, node);
      }
      return OK, q;
    }

    /** btree_traverse on an empty queue. */
    method Traverse() returns (q: seq<int>)
      requires Sound()
      ensures q == Data(InOrder(shape)) <==> Distinct(Data(InOrder(shape)))
    {
      var err;
      err, q := TraverseNode(root, [], shape, null);
      WalkIsInOrder(shape, []);
      assert [] + Data(InOrder(shape)) == Data(InOrder(shape));
    }

    /** The link from parent to node, on the side where its key belongs. */
    static method SetLink(parent: Node, node: Node)
      modifies parent`left, parent`right
      ensures parent.left == if node.key < parent.key then node else old(parent.left)
      ensures parent.right == if node.key > parent.key then node else old(parent.right)
    {
      if node.key < parent.key {
        parent.left := node;
      } else if node.key > parent.key {
        parent.right := node;
      }
    }

    /** Clear the link from parent to node. */
    static method ClearLink(parent: Node, node: Node)
      requires node.key != parent.key && (if node.key < parent.key then parent.left == node else parent.right == node)
      requires node.key < parent.key ==> parent.right != node
      modifies parent`left, parent`right
      ensures parent.left == (if node.key < parent.key then null else old(parent.left))
      ensures parent.right == (if node.key < parent.key then old(parent.right) else null)
    {
      if parent.right == node {
        parent.right := null;
      } else if parent.left == node {
        parent.left := null;
      }
    }
  }

  /** Where the two subtrees go and what the deletion leaves. */
  lemma Plan(s: Shape, k: nat, lo: int, hi: int) returns (a: int, b: int, s1: Shape)
    requires Ordered(s, lo, hi) && Sub(s, k).Bin?
    ensures var u := Sub(s, k); var c := Cut(s, k);
      && lo <= a <= k <= b <= hi
      && Ordered(u.left, a, k) && Ordered(u.right, k, b)
      && Avoids(c, k, b) && Avoids(s1, a, k)
      && Nodes(c) !! Nodes(u.left) && Nodes(u.right) !! Nodes(u.left)
      && s1 == (if u.right.Nil? then c else Hang(c, u.right, u.right.node.key))
      && Deleted(s, k) == (if u.left.Nil? then s1 else Hang(s1, u.left, u.left.node.key))
    ensures Size(Deleted(s, k)) == Size(s) - 1
  {
    PartsApart(s, k, lo, hi);
    a, b, s1 := PartsFit(s, k, lo, hi);
    DeletedIsRemoval(s, k, lo, hi);
  }

  /** What is below the root of u is still linked when only the root has changed. */
  lemma PartsKept(u: Shape, c: map<Node, Cell>, c': map<Node, Cell>, left: Node?, right: Node?)
    requires u.Bin? && Rep(u.left, c, left, u.node) && Rep(u.right, c, right, u.node)
    requires u.node !in Nodes(u.left) && u.node !in Nodes(u.right)
    requires forall x :: x in Nodes(u) && x != u.node ==> x in c && x in c' && c'[x] == c[x]
    ensures Rep(u.left, c', left, u.node) && Rep(u.right, c', right, u.node)
  {
    RepFrame(u.left, c, c', left, u.node);
    RepFrame(u.right, c, c', right, u.node);
  }

  /** The two subtrees under the root of u, once u is out of the tree. */
  lemma PartsApart(s: Shape, k: nat, lo: int, hi: int)
    requires Ordered(s, lo, hi) && Sub(s, k).Bin?
    ensures var u := Sub(s, k);
      u.node !in Nodes(u.left) && u.node !in Nodes(u.right) && Nodes(u.left) !! Nodes(u.right) && u.node !in Nodes(Cut(s, k))
    ensures Nodes(Sub(s, k)) !! Nodes(Cut(s, k))
  {
    var u := Sub(s, k);
    var b := Bounds(s, k, lo, hi);
    CutLeavesRoom(s, k, lo, hi);
    ApartFromCut(s, k, lo, hi);
    Placed(u, b.0, b.1, u.node);
    forall x | x in Nodes(u.left) ensures x !in Nodes(u.right) {
      OtherSide(u, b.0, b.1, x);
    }
  }

  /** The parent of a subtree is not part of it; nor is any other node that stays. */
  lemma ApartFromCut(s: Shape, k: nat, lo: int, hi: int)
    requires Ordered(s, lo, hi) && Sub(s, k).Bin?
    ensures Sub(s, k).node.key == k
    ensures Nodes(Cut(s, k)) !! Nodes(Sub(s, k)) && Nodes(s) == Nodes(Cut(s, k)) + Nodes(Sub(s, k))
    ensures k != s.node.key ==> Above(s, k) in Nodes(Cut(s, k)) && Above(s, k).key != k
  {
    SearchIsLookup(s, lo, hi, k);
    CutLeavesRoom(s, k, lo, hi);
    CutNodes(s, k);
    var b := Bounds(s, k, lo, hi);
    Disjoint(Cut(s, k), Sub(s, k), b.0, b.1);
    if k != s.node.key {
      AboveStays(s, k, lo, hi);
    }
  }

  lemma {:induction false} AboveStays(s: Shape, k: nat, lo: int, hi: int)
    requires Ordered(s, lo, hi) && Sub(s, k).Bin? && k != s.node.key
    ensures Above(s, k) in Nodes(Cut(s, k)) && Above(s, k).key != k
  {
    var t := if k < s.node.key then s.left else s.right;
    if t.node.key != k {
      AboveStays(t, k, if k < s.node.key then lo else s.node.key, if k < s.node.key then s.node.key else hi);
    }
  }

  lemma {:induction false} AbsentKey(s: Shape, k: nat)
    requires !HasKey(s, k)
    ensures Avoids(s, k - 1, k + 1)
  {
    if s.Bin? {
      assert s.node in Nodes(s);
      assert forall n :: n in Nodes(s.left) || n in Nodes(s.right) ==> n in Nodes(s);
      AbsentKey(s.left, k);
      AbsentKey(s.right, k);
    }
  }

  // ---- Flushing ----

  lemma {:induction false} ChildrenFound(s: Shape, t: Shape, lo: int, hi: int)
    requires Ordered(s, lo, hi) && t.Bin? && Sub(s, t.node.key) == t
    ensures t.left.Bin? ==> Sub(s, t.left.node.key) == t.left
  {
    var k := t.node.key;
    if t.left.Bin? {
      CutLeavesRoom(s, k, lo, hi);
      SearchIsLookup(s, lo, hi, k);
      if k < s.node.key {
        CutLeavesRoom(s.left, k, lo, s.node.key);
        ChildrenFound(s.left, t, lo, s.node.key);
      } else if k > s.node.key {
        CutLeavesRoom(s.right, k, s.node.key, hi);
        ChildrenFound(s.right, t, s.node.key, hi);
      }
    }
  }

  /** Cutting the left child leaves the node where it is. */
  lemma {:induction false} CutChild(s: Shape, t: Shape, lo: int, hi: int)
    requires Ordered(s, lo, hi) && t.Bin? && Sub(s, t.node.key) == t
    ensures var s1 := if t.left.Nil? then s else Cut(s, t.left.node.key);
      Sub(s1, t.node.key) == t.(left := Nil) && Cut(s1, t.node.key) == Cut(s, t.node.key)
  {
    var k := t.node.key;
    if t.left.Bin? {
      CutLeavesRoom(s, k, lo, hi);
      if k < s.node.key {
        CutLeavesRoom(s.left, k, lo, s.node.key);
        CutChild(s.left, t, lo, s.node.key);
      } else if k > s.node.key {
        CutLeavesRoom(s.right, k, s.node.key, hi);
        CutChild(s.right, t, s.node.key, hi);
      }
    } else {
      assert t == t.(left := Nil);
    }
  }

  /** Deleting a node without a left child puts its right subtree in its place. */
  lemma RightBack(s: Shape, t: Shape, lo: int, hi: int)
    requires Ordered(s, lo, hi) && t.Bin? && t.left.Nil? && Sub(s, t.node.key) == t
    ensures var s2 := Deleted(s, t.node.key);
      if t.right.Nil? then s2 == Cut(s, t.node.key)
      else Sub(s2, t.right.node.key) == t.right && Cut(s2, t.right.node.key) == Cut(s, t.node.key)
  {
    if t.right.Bin? {
      var a, b, s1 := PartsFit(s, t.node.key, lo, hi);
      HangThenCut(Cut(s, t.node.key), t.right, lo, hi, t.node.key, b);
    }
  }

  // ---- Traversal ----

  /** The nodes from the smallest key to the largest. */
  ghost function InOrder(s: Shape): seq<Node> {
    if s.Nil? then [] else InOrder(s.left) + [s.node] + InOrder(s.right)
  }

  ghost function Data(ns: seq<Node>): seq<int> {
    seq(|ns|, i requires 0 <= i < |ns| => ns[i].data)
  }

  ghost predicate Distinct(q: seq<int>) {
    forall i, j :: 0 <= i < j < |q| ==> q[i] != q[j]
  }

  lemma {:induction false} InOrderAscends(s: Shape, lo: int, hi: int)
    requires Ordered(s, lo, hi)
    ensures forall i :: 0 <= i < |InOrder(s)| ==> lo < InOrder(s)[i].key < hi
    ensures forall i, j :: 0 <= i < j < |InOrder(s)| ==> InOrder(s)[i].key < InOrder(s)[j].key
    ensures forall n :: n in InOrder(s) <==> n in Nodes(s)
  {
    if s.Bin? {
      InOrderAscends(s.left, lo, s.node.key);
      InOrderAscends(s.right, s.node.key, hi);
    }
  }

  /** What a traversal appends to q: the value of a node is skipped, and with it its right subtree, when it
      is in the queue already. */
  ghost function Walk(s: Shape, q: seq<int>): seq<int> {
    if s.Nil? then q
    else
      var q' := Walk(s.left, q);
      if s.node.data in q' then q' else Walk(s.right, q' + [s.node.data])
  }

  lemma {:induction false} WalkAppends(s: Shape, q: seq<int>) returns (more: seq<int>)
    ensures Walk(s, q) == q + more
    ensures Distinct(q) ==> Distinct(q + more)
  {
    if s.Nil? {
      more := [];
      assert q + [] == q;
    } else {
      var m := WalkAppends(s.left, q);
      if s.node.data in q + m {
        more := m;
      } else {
        var r := WalkAppends(s.right, q + m + [s.node.data]);
        more := m + [s.node.data] + r;
        assert q + more == q + m + [s.node.data] + r;
      }
    }
  }

  /** The traversal is the in-order list of the data exactly when no value occurs twice. */
  lemma WalkIsInOrder(s: Shape, q: seq<int>)
    requires Distinct(q)
    ensures Walk(s, q) == q + Data(InOrder(s)) <==> Distinct(q + Data(InOrder(s)))
  {
    var more := WalkAppends(s, q);
    if Distinct(q + Data(InOrder(s))) {
      WalkListsAll(s, q);
    }
  }

  lemma {:induction false} WalkListsAll(s: Shape, q: seq<int>)
    requires Distinct(q + Data(InOrder(s)))
    ensures Walk(s, q) == q + Data(InOrder(s))
  {
    if s.Nil? {
      assert q + Data(InOrder(s)) == q;
    } else {
      var l, r, x := Data(InOrder(s.left)), Data(InOrder(s.right)), s.node.data;
      var all := q + Data(InOrder(s));
      assert all == q + l + [x] + r;
      assert q + l == all[..|q + l|] && q + l + [x] + r == all;
      WalkListsAll(s.left, q);
      assert x == all[|q + l|];
      assert x !in q + l;
      WalkListsAll(s.right, q + l + [x]);
    }
  }
}
