/** Heap nodes and links shared by the two red-black trees of the code base.

    Every node carries three ghost fields. `lo` and `hi` are the keys of the nearest ancestors
    that have the node in their right and in their left subtree; the open interval `(lo, hi)` is
    the region of keys whose search path runs through the node. `bh` is the node's black height.
    With them, being a search tree is a property of one node and its neighbours, so that a
    rotation disturbs only the two nodes it moves.
  */
module RedBlack {
  import opened Basics

  datatype Color = Red | Black

  class Node<D> {
    var key: int
    var data: D
    var color: Color
    var left: Node?<D>
    var right: Node?<D>
    var parent: Node?<D>
    ghost var lo: int
    ghost var hi: int
    ghost var bh: nat

    /** `v` lies in the node's region, that is, a search for `v` visits the node. */
    ghost predicate In(v: int)
      reads this
    {
      lo < v < hi
    }

    constructor Nil(d: D)
      ensures color == Black && left == null && right == null && parent == null
    {
      key, data, color := 0, d, Black;
      left, right, parent := null, null, null;
      lo, hi, bh := 0, 0, 0;
    }

    constructor (k: int, d: D, nil: Node<D>)
      ensures key == k && data == d && color == Red && left == nil && right == nil && parent == null
      ensures bh == 0
    {
      key, data, color := k, d, Red;
      left, right, parent := nil, nil, null;
      lo, hi, bh := 0, 0, 0;
    }
  }

  /** The nodes reachable from `root`, the sentinel, and the bounds of the whole key line. */
  datatype Shape<!D> = Shape(nodes: set<Node<D>>, root: Node<D>, nil: Node<D>, lo: int, hi: int) {

    ghost predicate NodeOk(n: Node<D>)
      requires n in nodes
      reads nodes
    {
      && n.left != null && n.right != null
      && lo <= n.lo < n.key < n.hi <= hi
      && (n.left != nil ==>
            n.left in nodes && n.left.parent == n && n.left.lo == n.lo && n.left.hi == n.key)
      && (n.right != nil ==>
            n.right in nodes && n.right.parent == n && n.right.lo == n.key && n.right.hi == n.hi)
      && (n == root ==> n.parent == null && n.lo == lo && n.hi == hi)
      && (n != root ==>
            n.parent != null && n.parent in nodes && (n.parent.left == n || n.parent.right == n))
    }

    /** The links form a search tree over the nodes of `nodes`, hanging from `root`. */
    ghost predicate Linked()
      reads nodes
    {
      && nil !in nodes
      && (root == nil <==> nodes == {})
      && (root != nil ==> root in nodes)
      && forall n {:trigger NodeOk(n)} :: n in nodes ==> NodeOk(n)
    }

    /** The nodes of the subtree at `n`. */
    ghost function Below(n: Node<D>): set<Node<D>>
      requires Linked() && (n == nil || n in nodes)
      reads nodes
      decreases if n == nil then 0 else n.hi - n.lo
    {
      if n == nil then {}
      else
        assert NodeOk(n);
        assert n.left != nil ==> NodeOk(n.left);
        assert n.right != nil ==> NodeOk(n.right);
        {n} + Below(n.left) + Below(n.right)
    }

    /** Whenever `b`'s key lies in `a`'s region, `b`'s whole region lies on one side of `a`. */
    ghost predicate Nested(a: Node<D>, b: Node<D>)
      requires a in nodes && b in nodes
      reads nodes
    {
      a != b && a.In(b.key) ==>
        || (b.key < a.key && a.lo <= b.lo && b.hi <= a.key)
        || (a.key < b.key && a.key <= b.lo && b.hi <= a.hi)
    }

    lemma {:induction false} BelowInRegion(n: Node<D>, k: Node<D>)
      requires Linked() && n in nodes && k in Below(n)
      ensures NodeOk(n)
      ensures k in nodes && n.lo <= k.lo && k.hi <= n.hi && n.In(k.key)
      ensures k.key < n.key ==>
        n.left != nil && k in Below(n.left) && k.hi <= n.key
      ensures k.key > n.key ==>
        n.right != nil && k in Below(n.right) && n.key <= k.lo
      ensures k.key == n.key ==> k == n
      decreases n.hi - n.lo
    {
      assert NodeOk(n);
      if k != n {
        var c := if k in Below(n.left) then n.left else n.right;
        assert NodeOk(c);
        BelowInRegion(c, k);
      }
    }

    /** Every node is below the root. */
    lemma {:induction false} AllBelowRoot(k: Node<D>)
      requires Linked() && k in nodes
      ensures Below(k) <= Below(root) && k in Below(root)
      decreases (hi - lo) - (k.hi - k.lo)
    {
      assert NodeOk(k);
      if k != root {
        var p := k.parent;
        assert NodeOk(p);
        assert Below(k) <= Below(p);
        AllBelowRoot(p);
      }
    }

    lemma {:induction false} NestedBelow(r: Node<D>, a: Node<D>, b: Node<D>)
      requires Linked() && r in nodes && a in Below(r) && b in Below(r)
      ensures a in nodes && b in nodes && Nested(a, b)
      ensures a.In(b.key) ==> b in Below(a)
      decreases r.hi - r.lo
    {
      BelowInRegion(r, a);
      BelowInRegion(r, b);
      assert NodeOk(r);
      if a != r {
        var c := if a.key < r.key then r.left else r.right;
        assert NodeOk(c);
        if b in Below(c) {
          NestedBelow(c, a, b);
        }
      }
    }

    lemma LaminarPair(a: Node<D>, b: Node<D>)
      requires Linked() && a in nodes && b in nodes
      ensures Nested(a, b)
      ensures a.In(b.key) ==> b in Below(a)
      ensures a.key == b.key ==> a == b
    {
      AllBelowRoot(a);
      AllBelowRoot(b);
      NestedBelow(root, a, b);
      NestedBelow(root, b, a);
      assert NodeOk(a) && NodeOk(b);
    }

    /** A key in the region of a node that lacks the child on that side belongs to no node. */
    lemma GapIsEmpty(n: Node<D>, k: Node<D>)
      requires Linked() && n in nodes && k in nodes && n.In(k.key)
      ensures NodeOk(n)
      ensures k.key < n.key ==> n.left != nil
      ensures k.key > n.key ==> n.right != nil
    {
      LaminarPair(n, k);
      BelowInRegion(n, k);
    }

    /** Where a descent for `v` stands: `R` is the subtree still to search, with region `(a, b)`, and
        `parent` is the node above it. */
    ghost predicate At(v: int, R: Node<D>, parent: Node?<D>, a: int, b: int)
      reads nodes, R
    {
      && a < v < b
      && (R != nil ==> R in nodes && R.lo == a && R.hi == b)
      && (parent == null ==> R == root && a == lo && b == hi)
      && (parent != null ==>
            && parent in nodes && parent.In(v) && v != parent.key
            && (if v < parent.key then parent.left == R && a == parent.lo && b == parent.key
                else parent.right == R && a == parent.key && b == parent.hi))
    }

    /** Nodes on the search path of `v` lie below the current position or above it. */
    lemma DescendPath(v: int, R: Node<D>, n: Node<D>)
      requires Linked() && R in nodes && n in nodes && R.In(v) && n.In(v) && R.In(n.key) && R.key != v
      ensures n == R || (n.key < R.key <==> v < R.key)
    {
      LaminarPair(R, n);
      LaminarPair(n, R);
    }

    lemma DescendedPast(v: int, R: Node<D>, n: Node<D>)
      requires Linked() && R in nodes && n in nodes && R.key == v && n != R
      requires R.In(n.key)
      ensures !n.In(v)
    {
      LaminarPair(R, n);
      LaminarPair(n, R);
    }

    /** No node has its key in the region of an empty position. */
    lemma EmptyPosition(v: int, parent: Node?<D>, a: int, b: int, k: Node<D>)
      requires Linked() && At(v, nil, parent, a, b) && k in nodes
      ensures !(a < k.key < b)
    {
      if parent != null && a < k.key < b {
        assert NodeOk(parent);
        GapIsEmpty(parent, k);
      }
    }

    // ----- colours

    ghost function BlackHeight(n: Node?<D>): nat
      reads nodes
    {
      if n != null && n in nodes then n.bh else 0
    }

    ghost predicate Balanced(n: Node<D>)
      requires n in nodes
      reads nodes
    {
      && BlackHeight(n.left) == BlackHeight(n.right)
      && n.bh == BlackHeight(n.left) + if n.color == Black then 1 else 0
    }

    ghost predicate NoRedRed(n: Node<D>)
      requires n in nodes
      reads nodes
    {
      n.color == Red && n.parent != null && n.parent in nodes ==> n.parent.color == Black
    }

    /** The red-black invariants, except that `x` and its parent may both be red. */
    ghost predicate Fixing(x: Node<D>)
      reads nodes
    {
      && Linked()
      && x in nodes && x.color == Red
      && (forall n {:trigger Balanced(n)} :: n in nodes ==> Balanced(n))
      && (forall n {:trigger NoRedRed(n)} :: n in nodes && n != x ==> NoRedRed(n))
      && (x != root ==> root.color == Black)
    }

    /** A red-black search tree. */
    ghost predicate RedBlackTree()
      reads nodes
    {
      && Linked()
      && (forall n {:trigger Balanced(n)} :: n in nodes ==> Balanced(n))
      && (forall n {:trigger NoRedRed(n)} :: n in nodes ==> NoRedRed(n))
      && (root != nil ==> root.color == Black)
    }

    lemma BelowCount(n: Node<D>)
      requires Linked() && n in nodes
      ensures NodeOk(n) && |Below(n)| == 1 + |Below(n.left)| + |Below(n.right)|
    {
      assert NodeOk(n);
      var l, r := n.left, n.right;
      forall k | k in Below(l)
        ensures k.key < n.key
      {
        BelowInRegion(l, k);
      }
      forall k | k in Below(r)
        ensures k.key > n.key
      {
        BelowInRegion(r, k);
      }
      assert Below(n) == {n} + Below(l) + Below(r);
      assert n !in Below(l) && n !in Below(r) && Below(l) !! Below(r);
    }

    lemma {:induction false} SizeBelow(n: Node<D>)
      requires RedBlackTree() && (n == nil || n in nodes)
      ensures Pow2(BlackHeight(n)) <= |Below(n)| + 1
      decreases if n == nil then 0 else n.hi - n.lo
    {
      if n != nil {
        assert NodeOk(n) && Balanced(n);
        var l, r := n.left, n.right;
        assert (l != nil ==> NodeOk(l)) && (r != nil ==> NodeOk(r));
        SizeBelow(l);
        SizeBelow(r);
        BelowCount(n);
        assert Pow2(BlackHeight(l) + 1) == 2 * Pow2(BlackHeight(l));
        hide Pow2, Below, Linked, NodeOk;
      }
    }

    lemma {:induction false} HeightBelow(n: Node<D>)
      requires RedBlackTree() && (n == nil || n in nodes)
      ensures Height(n) <= 2 * BlackHeight(n) + if n != nil && n.color == Red then 1 else 0
      decreases if n == nil then 0 else n.hi - n.lo
    {
      if n != nil {
        assert NodeOk(n) && Balanced(n);
        var l, r := n.left, n.right;
        assert l != nil ==> NodeOk(l) && NoRedRed(l);
        assert r != nil ==> NodeOk(r) && NoRedRed(r);
        HeightBelow(l);
        HeightBelow(r);
      }
    }

    ghost function Height(n: Node<D>): nat
      requires Linked() && (n == nil || n in nodes)
      reads nodes
      decreases if n == nil then 0 else n.hi - n.lo
    {
      if n == nil then 0
      else
        assert NodeOk(n);
        assert n.left != nil ==> NodeOk(n.left);
        assert n.right != nil ==> NodeOk(n.right);
        var a, b := Height(n.left), Height(n.right);
        1 + if a > b then a else b
    }

    lemma BelowRootIsAll()
      requires Linked()
      ensures Below(root) == nodes
    {
      if root != nil {
        forall k | k in nodes
          ensures k in Below(root)
        {
          AllBelowRoot(k);
        }
        forall k | k in Below(root)
          ensures k in nodes
        {
          BelowInRegion(root, k);
        }
      }
    }

    /** The nodes a search for `v` visits. */
    ghost function OnPath(v: int, s: set<Node<D>>): set<Node<D>>
      reads s
    {
      set n | n in s && n.In(v)
    }

    lemma {:induction false} PathBelow(r: Node<D>, v: int)
      requires Linked() && (r == nil || r in nodes)
      ensures Below(r) <= nodes && |OnPath(v, Below(r))| <= Height(r)
      decreases if r == nil then 0 else r.hi - r.lo
    {
      if r != nil {
        assert NodeOk(r);
        var c := if v < r.key then r.left else r.right;
        assert c != nil ==> NodeOk(c);
        PathBelow(c, v);
        forall k | k in Below(r)
          ensures k in nodes && (k.In(v) ==> k == r || k in Below(c))
        {
          BelowInRegion(r, k);
        }
        assert OnPath(v, Below(r)) <= {r} + OnPath(v, Below(c));
        SubsetCount(OnPath(v, Below(r)), {r} + OnPath(v, Below(c)));
      }
    }

    /** A search visits no more nodes than the tree is high. */
    lemma PathIsShort(v: int)
      requires Linked()
      ensures |OnPath(v, nodes)| <= Height(root)
    {
      BelowRootIsAll();
      PathBelow(root, v);
    }

    /** The height of a red-black tree of `s` nodes is at most `2 * log2(s + 1)`. */
    lemma HeightIsLogarithmic()
      requires RedBlackTree()
      ensures Pow2(Height(root)) <= (|nodes| + 1) * (|nodes| + 1)
    {
      if root != nil {
        SizeBelow(root);
        HeightBelow(root);
        BelowRootIsAll();
        Pow2Monotone(Height(root), 2 * root.bh);
        Pow2Sum(root.bh, root.bh);
        SquareMonotone(Pow2(root.bh), |nodes| + 1);
      }
    }
  }

  lemma SquareMonotone(a: nat, b: nat)
    requires a <= b
    ensures a * a <= b * b
  {
    assert a * a <= a * b <= b * b;
  }

  // ----- rotations

  /** Make `to` the child of `p` in the place of `from`, or the root if there is no parent. */
  method Redirect<D>(ghost nodes: set<Node<D>>, root: Node<D>, p: Node?<D>, from: Node<D>, to: Node<D>)
    returns (r: Node<D>)
    requires p != null ==> p in nodes
    modifies nodes`left, nodes`right
    ensures r == if p == null then to else root
    ensures p != null ==>
      if old(p.left) == from then p.left == to && p.right == old(p.right)
      else p.left == old(p.left) && p.right == to
    ensures forall n :: n in nodes && n != p ==> n.left == old(n.left) && n.right == old(n.right)
  {
    r := root;
    if p == null {
      r := to;
    } else if from == p.left {
      p.left := to;
    } else {
      p.right := to;
    }
  }

  /** What a right rotation does to links and regions: the left child `y` of `pivot` takes its place
      and its whole region, and `pivot` keeps the part of its region above `y`. */
  twostate predicate TurnedRight<D>(sh: Shape<D>, new pivot: Node<D>, new y: Node<D>)
    reads sh.nodes
  {
    && pivot in sh.nodes && y in sh.nodes && y == old(pivot.left)
    && y.lo == old(pivot.lo) && y.hi == old(pivot.hi) && y.parent == old(pivot.parent)
    && y.left == old(y.left) && y.right == pivot
    && pivot.lo == y.key && pivot.hi == old(pivot.hi) && pivot.parent == y
    && pivot.left == old(y.right) && pivot.right == old(pivot.right)
    && forall n :: n in sh.nodes && n != pivot && n != y ==>
         && n.lo == old(n.lo) && n.hi == old(n.hi)
         && n.left == (if old(n.left) == pivot then y else old(n.left))
         && n.right == (if old(n.right) == pivot then y else old(n.right))
         && n.parent == (if n == old(y.right) then pivot else old(n.parent))
  }

  twostate lemma TurnedRightLinked<D>(sh: Shape<D>, new r: Node<D>, new pivot: Node<D>, new y: Node<D>)
    requires old(sh.Linked()) && TurnedRight(sh, pivot, y)
    requires forall n :: n in sh.nodes ==> n.key == old(n.key)
    requires r == if pivot == sh.root then y else sh.root
    ensures sh.(root := r).Linked()
  {
    assert old(sh.NodeOk(pivot)) && old(sh.NodeOk(y));
    forall n | n in sh.nodes
      ensures sh.(root := r).NodeOk(n)
    {
      assert old(sh.NodeOk(n));
      if n != sh.root {
        assert old(sh.NodeOk(n.parent));
      }
    }
  }

  /** The assignments of a right rotation. */
  method RelinkRight<D>(ghost sh: Shape<D>, root: Node<D>, nil: Node<D>, pivot: Node<D>)
    returns (r: Node<D>, y: Node<D>)
    requires sh.root == root && sh.nil == nil
    requires pivot in sh.nodes && pivot.left in sh.nodes && pivot.left != pivot
    requires pivot.left.right == nil || (pivot.left.right in sh.nodes && pivot.left.right.parent == pivot.left)
    requires pivot.left.parent == pivot && pivot.left.lo == pivot.lo && nil !in sh.nodes
    requires pivot == root <==> pivot.parent == null
    requires pivot != root ==> pivot.parent in sh.nodes && pivot.parent != pivot
    requires pivot != root ==> (pivot.parent.left == pivot) != (pivot.parent.right == pivot)
    requires forall n :: n in sh.nodes && (n.left == pivot || n.right == pivot) ==> n == pivot.parent
    requires pivot.right != pivot && pivot.parent != pivot.left && pivot.left.right != pivot && pivot.left.right != pivot.left
    modifies sh.nodes`left, sh.nodes`right, sh.nodes`parent, sh.nodes`lo, sh.nodes`hi
    ensures TurnedRight(sh, pivot, y)
    ensures r == if pivot == root then y else root
  {
    y := pivot.left;
    pivot.left := y.right;
    if y.right != nil {
      y.right.parent := pivot;
    }
    y.parent := pivot.parent;
    r := Redirect(sh.nodes, root, pivot.parent, pivot, y);
    y.right := pivot;
    pivot.parent := y;
    y.hi := pivot.hi;
    pivot.lo := y.key;
  }

  method RotateRight<D>(ghost sh: Shape<D>, root: Node<D>, nil: Node<D>, pivot: Node<D>)
    returns (r: Node<D>, y: Node<D>)
    requires sh.root == root && sh.nil == nil && sh.Linked()
    requires pivot in sh.nodes && pivot.left in sh.nodes
    modifies sh.nodes`left, sh.nodes`right, sh.nodes`parent, sh.nodes`lo, sh.nodes`hi
    ensures TurnedRight(sh, pivot, y)
    ensures r == if pivot == root then y else root
  {
    assert sh.NodeOk(pivot) && sh.NodeOk(pivot.left);
    if pivot != root {
      assert sh.NodeOk(pivot.parent);
    }
    forall n | n in sh.nodes && (n.left == pivot || n.right == pivot)
      ensures n == pivot.parent
    {
      assert sh.NodeOk(n);
    }
    r, y := RelinkRight(sh, root, nil, pivot);
  }

  /** Insertion, inner grandchild: turning two red nodes makes the lower one the outer grandchild. */
  twostate lemma FixInnerRight<D>(sh: Shape<D>, new p: Node<D>, new x: Node<D>)
    requires x in sh.nodes && old(sh.Fixing(x)) && old(x.parent) == p && TurnedRight(sh, p, x)
    requires p != sh.root && old(p.color) == Red
    requires forall n :: n in sh.nodes ==> n.key == old(n.key) && n.color == old(n.color) && n.bh == old(n.bh)
    ensures sh.Fixing(p) && p.parent == x && x.color == Red
    ensures x.parent == old(p.parent) && x.parent in sh.nodes
    ensures old(p.parent.right) == p ==> x.parent.right == x && x.parent.left == old(p.parent.left)
  {
    TurnedRightLinked(sh, sh.root, p, x);
    var g := old(p.parent);
    assert old(sh.NodeOk(p)) && old(sh.NodeOk(x)) && old(sh.NodeOk(g)) && old(sh.Balanced(p)) && old(sh.Balanced(x));
    forall n | n in sh.nodes
      ensures sh.Balanced(n) && (n != p ==> sh.NoRedRed(n))
    {
      assert old(sh.Balanced(n)) && old(sh.NodeOk(n));
      if n != x {
        assert old(sh.NoRedRed(n));
      }
      assert n != p ==> sh.NoRedRed(n) by {
        assert old(sh.NoRedRed(p)) && sh.NodeOk(n);
      }
    }
  }

  /** Insertion, outer grandchild: parent and grandparent are recoloured and the grandparent turned. */
  twostate predicate OuterRight<D>(sh: Shape<D>, new r: Node<D>, new g: Node<D>, new p: Node<D>, new x: Node<D>)
    reads sh.nodes
  {
    && x in sh.nodes && g in sh.nodes && old(sh.Fixing(x))
    && old(x.parent) == p && old(p.left) == x && old(p.parent) == g
    && p != sh.root && old(p.color) == Red && TurnedRight(sh, g, p)
    && old(g.right) != null && (old(g.right) != sh.nil ==> old(g.right) in sh.nodes && old(g.right.color) == Black)
    && (forall n :: n in sh.nodes ==> n.key == old(n.key))
    && (forall n :: n in sh.nodes && n != p && n != g ==> n.color == old(n.color) && n.bh == old(n.bh))
    && p.color == Black && g.color == Red && p.bh == old(p.bh) + 1 && g.bh + 1 == old(g.bh)
    && r == if g == sh.root then p else sh.root
  }

  twostate lemma FixOuterRightNode<D>(sh: Shape<D>, new r: Node<D>, new g: Node<D>, new p: Node<D>, new x: Node<D>, new n: Node<D>)
    requires OuterRight(sh, r, g, p, x) && n in sh.nodes && sh.(root := r).Linked()
    ensures sh.(root := r).Balanced(n) && (n != x ==> sh.(root := r).NoRedRed(n))
  {
    assert old(sh.NodeOk(p)) && old(sh.NodeOk(x)) && old(sh.NodeOk(g)) && old(sh.NodeOk(n));
    assert old(sh.Balanced(p)) && old(sh.Balanced(x)) && old(sh.Balanced(g)) && old(sh.NoRedRed(p));
    assert old(sh.Balanced(n)) && sh.(root := r).NodeOk(n);
    if n != x {
      assert old(sh.NoRedRed(n));
    }
  }

  /** ... and that repairs the last red-red edge. */
  twostate lemma FixOuterRight<D>(sh: Shape<D>, new r: Node<D>, new g: Node<D>, new p: Node<D>, new x: Node<D>)
    requires OuterRight(sh, r, g, p, x)
    ensures sh.(root := r).Fixing(x) && x.parent == p
  {
    TurnedRightLinked(sh, r, g, p);
    assert old(sh.NodeOk(p)) && old(sh.NodeOk(x));
    forall n | n in sh.nodes
      ensures sh.(root := r).Balanced(n) && (n != x ==> sh.(root := r).NoRedRed(n))
    {
      FixOuterRightNode(sh, r, g, p, x, n);
    }
  }

  /** What a left rotation does to links and regions: the right child `y` of `pivot` takes its place
      and its whole region, and `pivot` keeps the part of its region below `y`. */
  twostate predicate TurnedLeft<D>(sh: Shape<D>, new pivot: Node<D>, new y: Node<D>)
    reads sh.nodes
  {
    && pivot in sh.nodes && y in sh.nodes && y == old(pivot.right)
    && y.hi == old(pivot.hi) && y.lo == old(pivot.lo) && y.parent == old(pivot.parent)
    && y.right == old(y.right) && y.left == pivot
    && pivot.hi == y.key && pivot.lo == old(pivot.lo) && pivot.parent == y
    && pivot.right == old(y.left) && pivot.left == old(pivot.left)
    && forall n :: n in sh.nodes && n != pivot && n != y ==>
         && n.hi == old(n.hi) && n.lo == old(n.lo)
         && n.right == (if old(n.right) == pivot then y else old(n.right))
         && n.left == (if old(n.left) == pivot then y else old(n.left))
         && n.parent == (if n == old(y.left) then pivot else old(n.parent))
  }

  twostate lemma TurnedLeftLinked<D>(sh: Shape<D>, new r: Node<D>, new pivot: Node<D>, new y: Node<D>)
    requires old(sh.Linked()) && TurnedLeft(sh, pivot, y)
    requires forall n :: n in sh.nodes ==> n.key == old(n.key)
    requires r == if pivot == sh.root then y else sh.root
    ensures sh.(root := r).Linked()
  {
    assert old(sh.NodeOk(pivot)) && old(sh.NodeOk(y));
    forall n | n in sh.nodes
      ensures sh.(root := r).NodeOk(n)
    {
      assert old(sh.NodeOk(n));
      if n != sh.root {
        assert old(sh.NodeOk(n.parent));
      }
    }
  }

  /** The assignments of a left rotation. */
  method RelinkLeft<D>(ghost sh: Shape<D>, root: Node<D>, nil: Node<D>, pivot: Node<D>)
    returns (r: Node<D>, y: Node<D>)
    requires sh.root == root && sh.nil == nil
    requires pivot in sh.nodes && pivot.right in sh.nodes && pivot.right != pivot
    requires pivot.right.left == nil || (pivot.right.left in sh.nodes && pivot.right.left.parent == pivot.right)
    requires pivot.right.parent == pivot && pivot.right.hi == pivot.hi && nil !in sh.nodes
    requires pivot == root <==> pivot.parent == null
    requires pivot != root ==> pivot.parent in sh.nodes && pivot.parent != pivot
    requires pivot != root ==> (pivot.parent.right == pivot) != (pivot.parent.left == pivot)
    requires forall n :: n in sh.nodes && (n.right == pivot || n.left == pivot) ==> n == pivot.parent
    requires pivot.left != pivot && pivot.parent != pivot.right && pivot.right.left != pivot && pivot.right.left != pivot.right
    modifies sh.nodes`right, sh.nodes`left, sh.nodes`parent, sh.nodes`hi, sh.nodes`lo
    ensures TurnedLeft(sh, pivot, y)
    ensures r == if pivot == root then y else root
  {
    y := pivot.right;
    pivot.right := y.left;
    if y.left != nil {
      y.left.parent := pivot;
    }
    y.parent := pivot.parent;
    r := Redirect(sh.nodes, root, pivot.parent, pivot, y);
    y.left := pivot;
    pivot.parent := y;
    y.lo := pivot.lo;
    pivot.hi := y.key;
  }

  method RotateLeft<D>(ghost sh: Shape<D>, root: Node<D>, nil: Node<D>, pivot: Node<D>)
    returns (r: Node<D>, y: Node<D>)
    requires sh.root == root && sh.nil == nil && sh.Linked()
    requires pivot in sh.nodes && pivot.right in sh.nodes
    modifies sh.nodes`right, sh.nodes`left, sh.nodes`parent, sh.nodes`hi, sh.nodes`lo
    ensures TurnedLeft(sh, pivot, y)
    ensures r == if pivot == root then y else root
  {
    assert sh.NodeOk(pivot) && sh.NodeOk(pivot.right);
    if pivot != root {
      assert sh.NodeOk(pivot.parent);
    }
    forall n | n in sh.nodes && (n.right == pivot || n.left == pivot)
      ensures n == pivot.parent
    {
      assert sh.NodeOk(n);
    }
    r, y := RelinkLeft(sh, root, nil, pivot);
  }

  /** Insertion, inner grandchild: turning two red nodes makes the lower one the outer grandchild. */
  twostate lemma FixInnerLeft<D>(sh: Shape<D>, new p: Node<D>, new x: Node<D>)
    requires x in sh.nodes && old(sh.Fixing(x)) && old(x.parent) == p && TurnedLeft(sh, p, x)
    requires p != sh.root && old(p.color) == Red
    requires forall n :: n in sh.nodes ==> n.key == old(n.key) && n.color == old(n.color) && n.bh == old(n.bh)
    ensures sh.Fixing(p) && p.parent == x && x.color == Red
    ensures x.parent == old(p.parent) && x.parent in sh.nodes
    ensures old(p.parent.left) == p ==> x.parent.left == x && x.parent.right == old(p.parent.right)
  {
    TurnedLeftLinked(sh, sh.root, p, x);
    var g := old(p.parent);
    assert old(sh.NodeOk(p)) && old(sh.NodeOk(x)) && old(sh.NodeOk(g)) && old(sh.Balanced(p)) && old(sh.Balanced(x));
    forall n | n in sh.nodes
      ensures sh.Balanced(n) && (n != p ==> sh.NoRedRed(n))
    {
      assert old(sh.Balanced(n)) && old(sh.NodeOk(n));
      if n != x {
        assert old(sh.NoRedRed(n));
      }
      assert n != p ==> sh.NoRedRed(n) by {
        assert old(sh.NoRedRed(p)) && sh.NodeOk(n);
      }
    }
  }

  /** Insertion, outer grandchild: parent and grandparent are recoloured and the grandparent turned. */
  twostate predicate OuterLeft<D>(sh: Shape<D>, new r: Node<D>, new g: Node<D>, new p: Node<D>, new x: Node<D>)
    reads sh.nodes
  {
    && x in sh.nodes && g in sh.nodes && old(sh.Fixing(x))
    && old(x.parent) == p && old(p.right) == x && old(p.parent) == g
    && p != sh.root && old(p.color) == Red && TurnedLeft(sh, g, p)
    && old(g.left) != null && (old(g.left) != sh.nil ==> old(g.left) in sh.nodes && old(g.left.color) == Black)
    && (forall n :: n in sh.nodes ==> n.key == old(n.key))
    && (forall n :: n in sh.nodes && n != p && n != g ==> n.color == old(n.color) && n.bh == old(n.bh))
    && p.color == Black && g.color == Red && p.bh == old(p.bh) + 1 && g.bh + 1 == old(g.bh)
    && r == if g == sh.root then p else sh.root
  }

  twostate lemma FixOuterLeftNode<D>(sh: Shape<D>, new r: Node<D>, new g: Node<D>, new p: Node<D>, new x: Node<D>, new n: Node<D>)
    requires OuterLeft(sh, r, g, p, x) && n in sh.nodes && sh.(root := r).Linked()
    ensures sh.(root := r).Balanced(n) && (n != x ==> sh.(root := r).NoRedRed(n))
  {
    assert old(sh.NodeOk(p)) && old(sh.NodeOk(x)) && old(sh.NodeOk(g)) && old(sh.NodeOk(n));
    assert old(sh.Balanced(p)) && old(sh.Balanced(x)) && old(sh.Balanced(g)) && old(sh.NoRedRed(p));
    assert old(sh.Balanced(n)) && sh.(root := r).NodeOk(n);
    if n != x {
      assert old(sh.NoRedRed(n));
    }
  }

  /** ... and that repairs the last red-red edge. */
  twostate lemma FixOuterLeft<D>(sh: Shape<D>, new r: Node<D>, new g: Node<D>, new p: Node<D>, new x: Node<D>)
    requires OuterLeft(sh, r, g, p, x)
    ensures sh.(root := r).Fixing(x) && x.parent == p
  {
    TurnedLeftLinked(sh, r, g, p);
    assert old(sh.NodeOk(p)) && old(sh.NodeOk(x));
    forall n | n in sh.nodes
      ensures sh.(root := r).Balanced(n) && (n != x ==> sh.(root := r).NoRedRed(n))
    {
      FixOuterLeftNode(sh, r, g, p, x, n);
    }
  }

  /** Insertion, red uncle: recolouring moves the red-red edge two levels up. */
  twostate lemma FixRecolour<D>(sh: Shape<D>, new g: Node<D>, new p: Node<D>, new u: Node<D>, new x: Node<D>)
    requires x in sh.nodes && old(sh.Fixing(x)) && old(x.parent) == p && old(p.parent) == g && p in sh.nodes && g in sh.nodes
    requires p != u && u in sh.nodes && old(u.parent) == g && old(p.color) == Red && old(u.color) == Red
    requires forall n :: n in sh.nodes ==> n.key == old(n.key) && n.lo == old(n.lo) && n.hi == old(n.hi)
    requires forall n :: n in sh.nodes ==>
      n.left == old(n.left) && n.right == old(n.right) && n.parent == old(n.parent)
    requires forall n :: n in sh.nodes && n != p && n != u && n != g ==> n.color == old(n.color) && n.bh == old(n.bh)
    requires p.color == Black && u.color == Black && g.color == Red
    requires p.bh == old(p.bh) + 1 && u.bh == old(u.bh) + 1 && g.bh == old(g.bh)
    ensures sh.Fixing(g)
  {
    assert old(sh.NodeOk(p)) && old(sh.NodeOk(u)) && old(sh.NodeOk(g));
    assert old(sh.Balanced(p)) && old(sh.Balanced(u)) && old(sh.Balanced(g)) && old(sh.NoRedRed(p));
    forall n | n in sh.nodes
      ensures sh.NodeOk(n) && sh.Balanced(n) && (n != g ==> sh.NoRedRed(n))
    {
      assert old(sh.NodeOk(n)) && old(sh.Balanced(n));
      if n != x {
        assert old(sh.NoRedRed(n));
      }
    }
  }

  /** Insertion, last step: the root is painted black. */
  twostate lemma FixRoot<D>(sh: Shape<D>, new x: Node<D>)
    requires x in sh.nodes && old(sh.Fixing(x))
    requires x == sh.root || (old(x.parent) != null && old(x.parent) in sh.nodes && old(x.parent.color) == Black)
    requires forall n :: n in sh.nodes ==> n.key == old(n.key) && n.lo == old(n.lo) && n.hi == old(n.hi)
    requires forall n :: n in sh.nodes ==>
      n.left == old(n.left) && n.right == old(n.right) && n.parent == old(n.parent)
    requires forall n :: n in sh.nodes && n != sh.root ==> n.color == old(n.color) && n.bh == old(n.bh)
    requires sh.root.color == Black
    requires sh.root.bh == old(sh.root.bh) + if old(sh.root.color) == Red then 1 else 0
    ensures sh.RedBlackTree()
  {
    SameLinks(sh);
    assert old(sh.NodeOk(sh.root));
    forall n | n in sh.nodes
      ensures sh.Balanced(n) && sh.NoRedRed(n)
    {
      assert old(sh.NodeOk(n)) && old(sh.Balanced(n));
      if n != x {
        assert old(sh.NoRedRed(n));
      }
    }
  }

  /** Colours are no part of the links. */
  twostate lemma SameLinks<D>(sh: Shape<D>)
    requires old(sh.Linked())
    requires forall n :: n in sh.nodes ==> n.key == old(n.key) && n.lo == old(n.lo) && n.hi == old(n.hi)
    requires forall n :: n in sh.nodes ==>
      n.left == old(n.left) && n.right == old(n.right) && n.parent == old(n.parent)
    ensures sh.Linked()
  {
    forall n | n in sh.nodes
      ensures sh.NodeOk(n)
    {
      assert old(sh.NodeOk(n));
    }
  }

  lemma FixingIsLinked<D>(sh: Shape<D>, x: Node<D>)
    requires sh.Fixing(x)
    ensures sh.Linked()
  {
  }

  /** Hang the fresh leaf `x` below `parent`, on the side where `parent` has no child. */
  method AttachLeaf<D>(ghost sh: Shape<D>, root: Node<D>, nil: Node<D>, parent: Node?<D>, x: Node<D>)
    returns (r: Node<D>)
    requires sh.Linked() && sh.root == root && sh.nil == nil
    requires x !in sh.nodes && x != nil && x.left == nil && x.right == nil && x.parent == null
    requires sh.lo < x.key < sh.hi
    requires parent == null ==> root == nil
    requires parent != null ==> parent in sh.nodes && parent.In(x.key) && x.key != parent.key
    requires parent != null ==> (if x.key < parent.key then parent.left else parent.right) == nil
    modifies x`parent, x`lo, x`hi, sh.nodes`left, sh.nodes`right
    ensures r == if parent == null then x else root
    ensures x.parent == parent && x.left == nil && x.right == nil
    ensures forall n :: n in sh.nodes && n != parent ==> n.left == old(n.left) && n.right == old(n.right)
    ensures parent == null ==> x.lo == sh.lo && x.hi == sh.hi
    ensures parent != null ==>
      if x.key < parent.key
      then x.lo == parent.lo && x.hi == parent.key && parent.left == x && parent.right == old(parent.right)
      else x.lo == parent.key && x.hi == parent.hi && parent.right == x && parent.left == old(parent.left)
    ensures sh.(root := r, nodes := sh.nodes + {x}).Linked()
  {
    r := root;
    if parent == null {
      r := x;
      x.lo, x.hi := sh.lo, sh.hi;
    } else {
      x.parent := parent;
      if x.key < parent.key {
        x.lo, x.hi := parent.lo, parent.key;
        parent.left := x;
      } else {
        x.lo, x.hi := parent.key, parent.hi;
        parent.right := x;
      }
      assert old(sh.NodeOk(parent));
    }
    ghost var sh' := sh.(root := r, nodes := sh.nodes + {x});
    forall n | n in sh'.nodes
      ensures sh'.NodeOk(n)
    {
      if n != x {
        assert old(sh.NodeOk(n));
      }
    }
  }

  /** A red leaf hung below a node of a red-black tree may only clash with its parent. */
  twostate lemma AttachFixing<D>(sh: Shape<D>, new r: Node<D>, new parent: Node?<D>, new x: Node<D>)
    requires old(sh.RedBlackTree()) && x !in sh.nodes && sh.(root := r, nodes := sh.nodes + {x}).Linked()
    requires x.color == Red && x.bh == 0 && x.left == sh.nil && x.right == sh.nil && x.parent == parent
    requires parent != null ==> parent in sh.nodes && (parent.left == x || parent.right == x)
    requires r == if parent == null then x else sh.root
    requires forall n :: n in sh.nodes ==> n.color == old(n.color) && n.bh == old(n.bh) && n.parent == old(n.parent)
    requires forall n :: n in sh.nodes && n != parent ==> n.left == old(n.left) && n.right == old(n.right)
    requires parent != null && parent.left == x ==> old(parent.left) == sh.nil && parent.right == old(parent.right)
    requires parent != null && parent.right == x ==> old(parent.right) == sh.nil && parent.left == old(parent.left)
    ensures sh.(root := r, nodes := sh.nodes + {x}).Fixing(x)
  {
    var sh' := sh.(root := r, nodes := sh.nodes + {x});
    assert sh'.NodeOk(x);
    forall n | n in sh'.nodes
      ensures sh'.Balanced(n) && (n != x ==> sh'.NoRedRed(n))
    {
      if n != x {
        assert old(sh.NodeOk(n)) && old(sh.Balanced(n)) && old(sh.NoRedRed(n)) && sh'.NodeOk(n);
      }
    }
  }

  /** A new red leaf below `parent`, on the side where `parent` has no child. */
  method HangLeaf<D>(ghost sh: Shape<D>, root: Node<D>, nil: Node<D>, parent: Node?<D>, key: int, data: D)
    returns (r: Node<D>, x: Node<D>)
    requires sh.RedBlackTree() && sh.root == root && sh.nil == nil
    requires sh.lo < key < sh.hi
    requires parent == null ==> root == nil
    requires parent != null ==> parent in sh.nodes && parent.In(key) && key != parent.key
    requires parent != null ==> (if key < parent.key then parent.left else parent.right) == nil
    modifies sh.nodes`left, sh.nodes`right
    ensures fresh(x) && x.key == key && x.data == data && x.left == nil && x.right == nil
    ensures sh.(root := r, nodes := sh.nodes + {x}).Fixing(x)
    ensures parent == null ==> x.lo == sh.lo && x.hi == sh.hi
    ensures parent != null ==>
      if key < parent.key then x.lo == parent.lo && x.hi == parent.key
      else x.lo == parent.key && x.hi == parent.hi
  {
    if parent != null {
      assert sh.NodeOk(parent);
    }
    x := new Node<D>(key, data, nil);
    assert sh.RedBlackTree();
    r := AttachLeaf(sh, root, nil, parent, x);
    AttachFixing(sh, r, parent, x);
  }

  /** Data is no part of the red-black tree. */
  twostate lemma SameTree<D>(sh: Shape<D>)
    requires old(sh.RedBlackTree())
    requires forall n :: n in sh.nodes ==> n.key == old(n.key) && n.lo == old(n.lo) && n.hi == old(n.hi)
    requires forall n :: n in sh.nodes ==>
      n.left == old(n.left) && n.right == old(n.right) && n.parent == old(n.parent)
    requires forall n :: n in sh.nodes ==> n.color == old(n.color) && n.bh == old(n.bh)
    ensures sh.RedBlackTree()
  {
    SameLinks(sh);
    forall n | n in sh.nodes
      ensures sh.Balanced(n) && sh.NoRedRed(n)
    {
      assert old(sh.Balanced(n)) && old(sh.NoRedRed(n));
    }
  }

  twostate lemma SameFixing<D>(sh: Shape<D>, new x: Node<D>)
    requires x in sh.nodes && old(sh.Fixing(x))
    requires forall n :: n in sh.nodes ==> n.key == old(n.key) && n.lo == old(n.lo) && n.hi == old(n.hi)
    requires forall n :: n in sh.nodes ==>
      n.left == old(n.left) && n.right == old(n.right) && n.parent == old(n.parent)
    requires forall n :: n in sh.nodes ==> n.color == old(n.color) && n.bh == old(n.bh)
    ensures sh.Fixing(x)
  {
    SameLinks(sh);
    forall n | n in sh.nodes
      ensures sh.Balanced(n) && (n != x ==> sh.NoRedRed(n))
    {
      assert old(sh.Balanced(n));
      if n != x {
        assert old(sh.NoRedRed(n));
      }
    }
  }
}
