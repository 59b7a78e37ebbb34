/** The address-range tree: a red-black tree with deletion, keyed by the start of each range. */
module AddrRangeTree {
  import opened RedBlack
  import opened RedBlackDelete
  import opened AddrRanges

  type RNode = Node<Range>

  class Tree {
    const nil: RNode
    var setSize: int
    var setData: RNode

    /** The entries of the tree, and the finite map it stands for. */
    ghost var nodes: set<RNode>
    ghost var M: RangeMap

    ghost function Sh(): Shape<Range>
      reads this
    {
      Shape(nodes, setData, nil, -1, WORD)
    }

    /** The entries are the map. */
    ghost predicate Maps()
      reads this, nodes
    {
      && (forall n :: n in nodes ==> n.key in M && M[n.key] == n.data)
      && (forall k <- M :: HasKey(k))
      && Keyed(M)
    }

    ghost predicate HasKey(k: int)
      reads this, nodes
    {
      exists n :: n in nodes && n.key == k
    }

    ghost predicate Valid()
      reads this, nil, nodes
    {
      nil.color == Black && Sh().RedBlackTree() && Maps() && setSize == |M|
    }

    constructor ()
      ensures Valid() && fresh(nil) && fresh(nodes) && M == map[]
    {
      var n := new Node<Range>.Nil(Range(0, 0, 0));
      nil, setData, setSize := n, n, 0;
      nodes, M := {}, map[];
    }

    method RightRotate(pivot: Node?<Range>) returns (ghost y: RNode)
      requires Sh().Linked() && (pivot != null && pivot != nil ==> pivot in nodes)
      modifies this`setData, nodes`left, nodes`right, nodes`parent, nodes`lo, nodes`hi
      ensures pivot == null || pivot == nil || old(pivot.left) == nil ==> unchanged(this) && unchanged(nodes)
      ensures pivot != null && pivot != nil && old(pivot.left) != nil ==>
        && TurnedRight(old(Sh()), pivot, y)
        && setData == (if pivot == old(setData) then y else old(setData))
        && Sh().Linked()
    {
      y := nil;
      if pivot == null || pivot == nil {
        return;
      }
      assert Sh().NodeOk(pivot);
      if pivot.left == nil {
        return;
      }
      var r, z := RotateRight(Sh(), setData, nil, pivot);
      TurnedRightLinked(Sh(), r, pivot, z);
      y := z;
      setData := r;
    }

    method LeftRotate(pivot: Node?<Range>) returns (ghost y: RNode)
      requires Sh().Linked() && (pivot != null && pivot != nil ==> pivot in nodes)
      modifies this`setData, nodes`right, nodes`left, nodes`parent, nodes`hi, nodes`lo
      ensures pivot == null || pivot == nil || old(pivot.right) == nil ==> unchanged(this) && unchanged(nodes)
      ensures pivot != null && pivot != nil && old(pivot.right) != nil ==>
        && TurnedLeft(old(Sh()), pivot, y)
        && setData == (if pivot == old(setData) then y else old(setData))
        && Sh().Linked()
    {
      y := nil;
      if pivot == null || pivot == nil {
        return;
      }
      assert Sh().NodeOk(pivot);
      if pivot.right == nil {
        return;
      }
      var r, z := RotateLeft(Sh(), setData, nil, pivot);
      TurnedLeftLinked(Sh(), r, pivot, z);
      y := z;
      setData := r;
    }

    // ----- insertion

    /** `x` and its parent are not both red. */
    ghost predicate Settled(x: RNode)
      reads this, nodes, x
    {
      x == setData || (x.parent != null && x.parent in nodes && x.parent.color == Black)
    }

    /** One round of the loop of `insert` when the parent of `x` is a left child. */
    method FixLeftSide(x: RNode, p: RNode, g: RNode) returns (x': RNode)
      requires nil.color == Black && Sh().Fixing(x)
      requires p in nodes && g in nodes && x.parent == p && p.parent == g && g.left == p && p.color == Red
      modifies this`setData, nodes`left, nodes`right, nodes`parent, nodes`lo, nodes`hi, nodes`color, nodes`bh
      ensures Sh().Fixing(x')
      ensures Settled(x') || (x' == g && g.lo == old(g.lo) && g.hi == old(g.hi))
    {
      assert Sh().NodeOk(g) && Sh().NodeOk(p) && Sh().NodeOk(x);
      var y := g.right;
      if y.color == Red {
        p.color := Black;
        y.color := Black;
        g.color := Red;
        p.bh, y.bh := p.bh + 1, y.bh + 1;
        FixRecolour(Sh(), g, p, y, x);
        x' := g;
      } else if x == p.right {
        ghost var t := LeftRotate(p);
        FixInnerLeft(old(Sh()), p, x);
        x' := p;
        TurnOuterRight(x', x, g);
      } else {
        x' := x;
        TurnOuterRight(x', p, g);
      }
    }

    /** One node turns black and another red. */
    method Paint(b: RNode, r: RNode)
      requires Sh().Linked() && b in nodes && r in nodes && b != r && r.bh > 0
      modifies b`color, r`color, b`bh, r`bh
      ensures Sh().Linked() && b.color == Black && r.color == Red && b.bh == old(b.bh) + 1 && r.bh + 1 == old(r.bh)
    {
      b.color := Black;
      r.color := Red;
      b.bh, r.bh := b.bh + 1, r.bh - 1;
      SameLinks(Sh());
    }

    method TurnOuterRight(x: RNode, p: RNode, g: RNode)
      requires Sh().Fixing(x) && x.parent == p && p in nodes && p.left == x && p.color == Red
      requires g in nodes && p.parent == g && g.left == p
      requires g.right != null && (g.right != nil ==> g.right in nodes && g.right.color == Black)
      modifies this`setData, nodes`left, nodes`right, nodes`parent, nodes`lo, nodes`hi, nodes`color, nodes`bh
      ensures Sh().Fixing(x) && x.parent == p && p.color == Black && p in nodes
    {
      assert Sh().NodeOk(p) && Sh().NodeOk(g) && Sh().NoRedRed(p) && Sh().Balanced(p) && Sh().Balanced(g);
      Paint(p, g);
      ghost var y := RightRotate(g);
      FixOuterRight(old(Sh()), setData, g, p, x);
    }

    /** One round of the loop of `insert` when the parent of `x` is a right child. */
    method FixRightSide(x: RNode, p: RNode, g: RNode) returns (x': RNode)
      requires nil.color == Black && Sh().Fixing(x)
      requires p in nodes && g in nodes && x.parent == p && p.parent == g && g.right == p && p.color == Red
      modifies this`setData, nodes`right, nodes`left, nodes`parent, nodes`hi, nodes`lo, nodes`color, nodes`bh
      ensures Sh().Fixing(x')
      ensures Settled(x') || (x' == g && g.hi == old(g.hi) && g.lo == old(g.lo))
    {
      assert Sh().NodeOk(g) && Sh().NodeOk(p) && Sh().NodeOk(x);
      var y := g.left;
      if y.color == Red {
        p.color := Black;
        y.color := Black;
        g.color := Red;
        p.bh, y.bh := p.bh + 1, y.bh + 1;
        FixRecolour(Sh(), g, p, y, x);
        x' := g;
      } else if x == p.left {
        ghost var t := RightRotate(p);
        FixInnerRight(old(Sh()), p, x);
        x' := p;
        TurnOuterLeft(x', x, g);
      } else {
        x' := x;
        TurnOuterLeft(x', p, g);
      }
    }

    method TurnOuterLeft(x: RNode, p: RNode, g: RNode)
      requires Sh().Fixing(x) && x.parent == p && p in nodes && p.right == x && p.color == Red
      requires g in nodes && p.parent == g && g.right == p
      requires g.left != null && (g.left != nil ==> g.left in nodes && g.left.color == Black)
      modifies this`setData, nodes`right, nodes`left, nodes`parent, nodes`hi, nodes`lo, nodes`color, nodes`bh
      ensures Sh().Fixing(x) && x.parent == p && p.color == Black && p in nodes
    {
      assert Sh().NodeOk(p) && Sh().NodeOk(g) && Sh().NoRedRed(p) && Sh().Balanced(p) && Sh().Balanced(g);
      Paint(p, g);
      ghost var y := LeftRotate(g);
      FixOuterLeft(old(Sh()), setData, g, p, x);
    }

    /** The rebalancing loop of `insert`. */
    method InsertFixup(x0: RNode)
      requires nil.color == Black && Sh().Fixing(x0)
      modifies this`setData, nodes`left, nodes`right, nodes`parent, nodes`lo, nodes`hi, nodes`color, nodes`bh
      ensures Sh().RedBlackTree() && nil.color == Black
    {
      var x := x0;
      assert Sh().NodeOk(x);
      while x != setData && x.parent.color == Red
        invariant Sh().Fixing(x)
        invariant x != setData ==> x.parent != null
        invariant Sh().NodeOk(x)
        decreases if Settled(x) then 0 else 1 + (WORD + 1) - (x.hi - x.lo)
      {
        var p := x.parent;
        assert Sh().NodeOk(p);
        var g := p.parent;
        assert Sh().NodeOk(g);
        if p == g.left {
          x := FixLeftSide(x, p, g);
        } else {
          x := FixRightSide(x, p, g);
        }
        assert Sh().NodeOk(x);
      }
      label L:
      setData.bh := if setData.color == Red then setData.bh + 1 else setData.bh;
      setData.color := Black;
      FixRoot@L(Sh(), x);
    }

    /** `treeInsert`: a new red leaf, unless the key is there already. */
    method TreeInsert(key: int, value: Range) returns (z: Node?<Range>)
      requires Sh().RedBlackTree() && 0 <= key < WORD
      modifies this`setData, this`setSize, this`nodes, nodes`left, nodes`right
      ensures z == null ==> unchanged(this) && unchanged(nodes) && HasKey(key)
      ensures z != null ==>
        && fresh(z) && nodes == old(nodes) + {z} && setSize == old(setSize) + 1
        && z.key == key && z.data == value && Sh().Fixing(z)
        && !old(HasKey(key))
    {
      var y: Node?<Range> := null;
      var x: RNode := setData;
      ghost var a, b := -1, WORD;
      assert x != nil ==> Sh().NodeOk(x);
      while x != nil
        invariant Sh().At(key, x, y, a, b)
        invariant forall n :: n in nodes && n.key == key ==> a < n.key < b
        decreases b - a
      {
        assert Sh().NodeOk(x);
        y := x;
        if key < x.key {
          b := x.key;
          x := x.left;
        } else if key > x.key {
          a := x.key;
          x := x.right;
        } else {
          return null;
        }
      }
      forall n | n in nodes
        ensures n.key != key
      {
        Sh().EmptyPosition(key, y, a, b, n);
      }
      var r, w := HangLeaf(Sh(), setData, nil, y, key, value);
      z := w;
      setData := r;
      nodes := nodes + {w};
      setSize := setSize + 1;
    }

    /** The map gains the key of the new entry `x`. */
    twostate lemma AddedMaps(new x: RNode)
      requires old(Maps()) && nodes == old(nodes) + {x} && x !in old(nodes)
      requires forall n :: n in old(nodes) ==> old(n.key) != x.key
      requires x.data.address == x.key && x.data.Fits() && M == old(M)[x.key := x.data]
      requires forall n :: n in old(nodes) ==> n.key == old(n.key) && n.data == old(n.data)
      ensures Maps() && x.key !in old(M)
    {
      forall k | k in M
        ensures HasKey(k)
      {
        if k == x.key {
          assert x in nodes;
        } else {
          assert old(HasKey(k));
          var n :| n in old(nodes) && old(n.key) == k;
          assert n in nodes;
        }
      }
    }

    /** `insert`: the first value inserted under a key stays. */
    method Insert(value: Range)
      requires Valid() && value.Fits()
      modifies this, nodes
      ensures Valid() && fresh(nodes - old(nodes))
      ensures M == if value.address in old(M) then old(M) else old(M)[value.address := value]
    {
      hide Shape.Fixing, Shape.RedBlackTree;
      var x := TreeInsert(value.address, value);
      if x == null {
        return;
      }
      M := M[value.address := value];
      AddedMaps(x);
      hide Maps;
      label L:
      InsertFixup(x);
      SameMaps@L();
    }

    /** Only keys and values matter to the map. */
    twostate lemma SameMaps()
      requires old(Maps()) && nodes == old(nodes) && M == old(M)
      requires forall n :: n in nodes ==> n.key == old(n.key) && n.data == old(n.data)
      ensures Maps()
    {
      forall k | k in M
        ensures HasKey(k)
      {
        assert old(HasKey(k));
        var n :| n in nodes && old(n.key) == k;
        assert n.key == k;
      }
    }

    /** `x`, black and one black node short, is the left child of `p`. */
    ghost predicate LeftShort(x: RNode, p: RNode)
      reads this, nodes, x
    {
      Short(Sh(), x, p) && p in nodes && p.left == x && x.parent == p && (x in nodes ==> x.color == Black)
    }

    lemma LeftShortFacts(x: RNode, p: RNode)
      requires LeftShort(x, p)
      ensures Sh().NodeOk(p) && p.right in nodes && p.right != x
      ensures Sh().BlackHeight(x) + 1 == Sh().BlackHeight(p.right)
      ensures Sh().NodeOk(p.right) && Sh().Balanced(p.right) && p.right.parent == p
      ensures p.right.color == Red ==> p.color == Black && p.bh > 0
      ensures p.right.color == Black ==> p.right.bh > 0 && p.bh > 0
    {
      assert Sh().NodeOk(p);
      assert p.right in nodes;
      assert Sh().NodeOk(p.right) && Sh().Balanced(p.right) && Sh().NoRedRed(p.right);
    }

    method RedSiblingLeft(x: RNode, p: RNode, w: RNode)
      requires LeftShort(x, p) && w == p.right && w in nodes && w.color == Red
      modifies this`setData, nodes`left, nodes`right, nodes`parent, nodes`lo, nodes`hi, nodes`color, nodes`bh
      ensures LeftShort(x, p) && p.right in nodes && p.right.color == Black && p.color == Red
    {
      LeftShortFacts(x, p);
      Paint(w, p);
      ghost var y := LeftRotate(p);
      ShortRedSiblingLeft(old(Sh()), setData, p, w, x);
    }

    method BlackNephewsLeft(x: RNode, p: RNode, w: RNode)
      requires LeftShort(x, p) && w == p.right && w in nodes && w.color == Black
      requires BlackOrNil(Sh(), w.left) && BlackOrNil(Sh(), w.right)
      modifies w`color, w`bh, p`bh
      ensures Short(Sh(), p, p.parent)
    {
      LeftShortFacts(x, p);
      w.color := Red;
      w.bh, p.bh := w.bh - 1, p.bh - 1;
      ShortUpLeft(Sh(), p, w, x);
    }

    method InnerNephewLeft(x: RNode, p: RNode, w: RNode, l: RNode)
      requires LeftShort(x, p) && w == p.right && w in nodes && w.color == Black
      requires l == w.left && l in nodes && l.color == Red && BlackOrNil(Sh(), w.right)
      modifies this`setData, nodes`left, nodes`right, nodes`parent, nodes`lo, nodes`hi, nodes`color, nodes`bh
      ensures LeftShort(x, p) && p.right == l && l.color == Black && l.right == w && w.color == Red
    {
      LeftShortFacts(x, p);
      assert Sh().NodeOk(l);
      Paint(l, w);
      ghost var y := RightRotate(w);
      ShortInnerLeft(old(Sh()), p, w, l, x);
    }

    /** The sibling takes the parent's colour; the parent and the outer nephew become black. */
    method PaintOuter(p: RNode, w: RNode, o: RNode)
      requires Sh().Linked() && p in nodes && w in nodes && o in nodes && p != w && p != o && w != o
      modifies p`color, p`bh, w`color, w`bh, o`color, o`bh
      ensures Sh().Linked()
      ensures w.color == old(p.color) && p.color == Black && o.color == Black
      ensures w.bh == old(p.bh) && p.bh == old(w.bh) && o.bh == old(o.bh) + 1
    {
      w.color := p.color;
      p.color := Black;
      o.color := Black;
      w.bh, p.bh, o.bh := p.bh, w.bh, o.bh + 1;
      SameLinks(Sh());
    }

    method OuterNephewLeft(x: RNode, p: RNode, w: RNode, o: RNode)
      requires LeftShort(x, p) && w == p.right && w in nodes && w.color == Black
      requires o == w.right && o in nodes && o.color == Red
      modifies this`setData, nodes`left, nodes`right, nodes`parent, nodes`lo, nodes`hi, nodes`color, nodes`bh
      ensures Sh().RedBlackTree()
    {
      LeftShortFacts(x, p);
      assert Sh().NodeOk(o);
      PaintOuter(p, w, o);
      ghost var y := LeftRotate(p);
      ShortOuterLeft(old(Sh()), setData, p, w, o, x);
    }

    /** One round of the loop of `deleteFixup` when `x` is a left child. The sibling is never the
        sentinel, even when `x` is. */
    method DeleteLeftSide(x: RNode, p: RNode) returns (x': RNode)
      requires nil.color == Black && LeftShort(x, p)
      modifies this`setData, nodes`left, nodes`right, nodes`parent, nodes`lo, nodes`hi, nodes`color, nodes`bh
      ensures nil !in nodes
      ensures || (x' == setData && Sh().RedBlackTree())
              || (x' == p && Short(Sh(), p, p.parent) && (p.color == Red || (p.lo == old(p.lo) && p.hi == old(p.hi))))
    {
      LeftShortFacts(x, p);
      var w := p.right;
      if w.color == Red {
        RedSiblingLeft(x, p, w);
        w := p.right;
      }
      LeftShortFacts(x, p);
      if w.left.color == Black && w.right.color == Black {
        BlackNephewsLeft(x, p, w);
        x' := p;
      } else {
        if w.right.color == Black {
          InnerNephewLeft(x, p, w, w.left);
          w := p.right;
        }
        OuterNephewLeft(x, p, w, w.right);
        x' := setData;
      }
    }

    /** `x`, black and one black node short, is the right child of `p`. */
    ghost predicate RightShort(x: RNode, p: RNode)
      reads this, nodes, x
    {
      Short(Sh(), x, p) && p in nodes && p.right == x && x.parent == p && (x in nodes ==> x.color == Black)
    }

    lemma RightShortFacts(x: RNode, p: RNode)
      requires RightShort(x, p)
      ensures Sh().NodeOk(p) && p.left in nodes && p.left != x
      ensures Sh().BlackHeight(x) + 1 == Sh().BlackHeight(p.left)
      ensures Sh().NodeOk(p.left) && Sh().Balanced(p.left) && p.left.parent == p
      ensures p.left.color == Red ==> p.color == Black && p.bh > 0
      ensures p.left.color == Black ==> p.left.bh > 0 && p.bh > 0
    {
      assert Sh().NodeOk(p);
      assert p.left in nodes;
      assert Sh().NodeOk(p.left) && Sh().Balanced(p.left) && Sh().NoRedRed(p.left);
    }

    method RedSiblingRight(x: RNode, p: RNode, w: RNode)
      requires RightShort(x, p) && w == p.left && w in nodes && w.color == Red
      modifies this`setData, nodes`right, nodes`left, nodes`parent, nodes`hi, nodes`lo, nodes`color, nodes`bh
      ensures RightShort(x, p) && p.left in nodes && p.left.color == Black && p.color == Red
    {
      RightShortFacts(x, p);
      Paint(w, p);
      ghost var y := RightRotate(p);
      ShortRedSiblingRight(old(Sh()), setData, p, w, x);
    }

    method BlackNephewsRight(x: RNode, p: RNode, w: RNode)
      requires RightShort(x, p) && w == p.left && w in nodes && w.color == Black
      requires BlackOrNil(Sh(), w.right) && BlackOrNil(Sh(), w.left)
      modifies w`color, w`bh, p`bh
      ensures Short(Sh(), p, p.parent)
    {
      RightShortFacts(x, p);
      w.color := Red;
      w.bh, p.bh := w.bh - 1, p.bh - 1;
      ShortUpRight(Sh(), p, w, x);
    }

    method InnerNephewRight(x: RNode, p: RNode, w: RNode, l: RNode)
      requires RightShort(x, p) && w == p.left && w in nodes && w.color == Black
      requires l == w.right && l in nodes && l.color == Red && BlackOrNil(Sh(), w.left)
      modifies this`setData, nodes`right, nodes`left, nodes`parent, nodes`hi, nodes`lo, nodes`color, nodes`bh
      ensures RightShort(x, p) && p.left == l && l.color == Black && l.left == w && w.color == Red
    {
      RightShortFacts(x, p);
      assert Sh().NodeOk(l);
      Paint(l, w);
      ghost var y := LeftRotate(w);
      ShortInnerRight(old(Sh()), p, w, l, x);
    }

    method OuterNephewRight(x: RNode, p: RNode, w: RNode, o: RNode)
      requires RightShort(x, p) && w == p.left && w in nodes && w.color == Black
      requires o == w.left && o in nodes && o.color == Red
      modifies this`setData, nodes`right, nodes`left, nodes`parent, nodes`hi, nodes`lo, nodes`color, nodes`bh
      ensures Sh().RedBlackTree()
    {
      RightShortFacts(x, p);
      assert Sh().NodeOk(o);
      PaintOuter(p, w, o);
      ghost var y := RightRotate(p);
      ShortOuterRight(old(Sh()), setData, p, w, o, x);
    }

    /** One round of the loop of `deleteFixup` when `x` is a right child. The sibling is never the
        sentinel, even when `x` is. */
    method DeleteRightSide(x: RNode, p: RNode) returns (x': RNode)
      requires nil.color == Black && RightShort(x, p)
      modifies this`setData, nodes`right, nodes`left, nodes`parent, nodes`hi, nodes`lo, nodes`color, nodes`bh
      ensures nil !in nodes
      ensures || (x' == setData && Sh().RedBlackTree())
              || (x' == p && Short(Sh(), p, p.parent) && (p.color == Red || (p.hi == old(p.hi) && p.lo == old(p.lo))))
    {
      RightShortFacts(x, p);
      var w := p.left;
      if w.color == Red {
        RedSiblingRight(x, p, w);
        w := p.left;
      }
      RightShortFacts(x, p);
      if w.right.color == Black && w.left.color == Black {
        BlackNephewsRight(x, p, w);
        x' := p;
      } else {
        if w.left.color == Black {
          InnerNephewRight(x, p, w, w.right);
          w := p.left;
        }
        OuterNephewRight(x, p, w, w.left);
        x' := setData;
      }
    }

    /** `deleteFixup`: ends with a red-black tree, whatever the depth of the shortage at `x0`, which
        may be the sentinel. */
    method DeleteFixup(x0: RNode)
      requires nil.color == Black && Short(Sh(), x0, x0.parent)
      modifies this`setData, nodes`left, nodes`right, nodes`parent, nodes`lo, nodes`hi, nodes`color, nodes`bh, nil`color
      ensures Sh().RedBlackTree() && nil.color == Black
    {
      var x := x0;
      while x != setData && x.color == Black
        invariant nil.color == Black && nil !in nodes
        invariant Short(Sh(), x, x.parent) || (x == setData && Sh().RedBlackTree())
        decreases if x == setData || x.color == Red then 0
                  else 1 + (WORD + 1) - (x.parent.hi - x.parent.lo)
      {
        var p := x.parent;
        assert Sh().NodeOk(p);
        if x == p.left {
          x := DeleteLeftSide(x, p);
        } else {
          x := DeleteRightSide(x, p);
        }
        if x != setData && x.color == Black {
          assert Sh().NodeOk(x) && Sh().NodeOk(x.parent);
        }
      }
      Blacken(x);
    }

    /** The last step of `deleteFixup` */
    method Blacken(x: RNode)
      requires nil.color == Black && nil !in nodes && (x == setData || x.color == Red)
      requires Short(Sh(), x, x.parent) || (x == setData && Sh().RedBlackTree())
      modifies nodes`color, nodes`bh, nil`color
      ensures Sh().RedBlackTree() && nil.color == Black
    {
      if x in nodes {
        x.bh := if x.color == Red then x.bh + 1 else x.bh;
      }
      x.color := Black;
      if old(Short(Sh(), x, x.parent)) {
        ShortEnd(Sh(), x, x.parent);
      } else {
        SameColours(Sh(), nil, null);
      }
    }

    // ----- walking and removal

    /** `treeSuccessor`: the entry with the next greater key. */
    method TreeSuccessor(x: Node?<Range>) returns (y: Node?<Range>)
      requires Sh().Linked() && (x != null && x != nil ==> x in nodes)
      ensures x == null || x == nil ==> y == null
      ensures x != null && x != nil && y == null ==> forall n :: n in nodes ==> n.key <= x.key
      ensures x != null && x != nil && y != null ==>
        y in nodes && y.key > x.key && forall n :: n in nodes && n.key > x.key ==> n.key >= y.key
      ensures x != null && x != nil && x.right != nil ==> y != null && y.left == nil && y.key < x.hi
    {
      if x == null || x == nil {
        return null;
      }
      assert Sh().NodeOk(x);
      if x.right != nil {
        var z: RNode := x.right;
        while z.left != nil
          invariant z in nodes && z.lo == x.key && z.hi <= x.hi && Sh().NodeOk(z)
          decreases z.hi - z.lo
        {
          assert Sh().NodeOk(z.left);
          z := z.left;
        }
        forall n | n in nodes && n.key > x.key
          ensures n.key >= z.key
        {
          if n.key < z.key {
            Sh().GapIsEmpty(z, n);
          }
        }
        return z;
      }
      forall n | n in nodes && n.key > x.key
        ensures n.key >= x.hi
      {
        if n.key < x.hi {
          Sh().GapIsEmpty(x, n);
        }
      }
      var c: RNode := x;
      y := x.parent;
      while y != null && c == y.right
        invariant c in nodes && c.hi == x.hi && y == c.parent && Sh().NodeOk(c)
        invariant y != null ==> y in nodes && Sh().NodeOk(y)
        decreases (WORD + 1) - (c.hi - c.lo)
      {
        c := y;
        y := y.parent;
        assert y != null ==> Sh().NodeOk(y);
      }
      forall n | n in nodes
        ensures n.key < WORD
      {
        assert Sh().NodeOk(n);
      }
    }

    /** `find_internal` */
    method FindInternal(key: int) returns (z: Node?<Range>)
      requires Sh().Linked() && 0 <= key < WORD
      ensures z == null ==> !HasKey(key)
      ensures z != null ==> z in nodes && z.key == key
    {
      var x: RNode := setData;
      ghost var y: Node?<Range> := null;
      ghost var a, b := -1, WORD;
      assert x != nil ==> Sh().NodeOk(x);
      while x != nil
        invariant Sh().At(key, x, y, a, b)
        decreases b - a
      {
        assert Sh().NodeOk(x);
        y := x;
        if key < x.key {
          b := x.key;
          x := x.left;
        } else if key > x.key {
          a := x.key;
          x := x.right;
        } else {
          return x;
        }
      }
      forall n | n in nodes
        ensures n.key != key
      {
        Sh().EmptyPosition(key, y, a, b, n);
      }
      return null;
    }

    /** The map loses exactly `key`, although the entry that goes is `y`. */
    twostate lemma RemovedMaps(new key: int, new y: RNode, new z: RNode)
      requires old(Maps()) && y in old(nodes) && z in old(nodes) && old(z.key) == key && nodes == old(nodes) - {y}
      requires M == old(M) - {key}
      requires old(OnlyKey(z))
      requires forall n :: n in nodes && n != z ==> n.key == old(n.key) && n.data == old(n.data)
      requires y != z ==> z.key == old(y.key) && z.data == old(y.data)
      ensures Maps()
    {
      forall n | n in nodes
        ensures n.key in M && M[n.key] == n.data
      {
      }
      forall k | k in M
        ensures HasKey(k)
      {
        assert old(HasKey(k));
        var n :| n in old(nodes) && old(n.key) == k;
        if n == y {
          assert z in nodes && z.key == k;
        } else {
          assert n in nodes && n.key == k;
        }
      }
    }

    /** No other entry has the key of `z`. */
    ghost predicate OnlyKey(z: RNode)
      reads this, nodes, z
    {
      forall n :: n in nodes && n.key == z.key ==> n == z
    }

    lemma KeysAreDistinct(z: RNode)
      requires Sh().Linked() && z in nodes
      ensures OnlyKey(z)
    {
      forall n | n in nodes && n.key == z.key
        ensures n == z
      {
        Sh().LaminarPair(n, z);
      }
    }

    /** The entry to unlink: `z` itself, or the next one if `z` has two children. */
    method ChooseUnlinked(z: RNode) returns (y: RNode)
      requires Sh().Linked() && z in nodes
      ensures y in nodes && (y.left == nil || y.right == nil) && y.key < y.hi
      ensures y != z ==> z.key < y.key < z.hi && forall n :: n in nodes && n != y && n.key > z.key ==> n.key > y.key
    {
      assert Sh().NodeOk(z);
      y := z;
      if z.left != nil && z.right != nil {
        var s := TreeSuccessor(z);
        y := s;
        KeysAreDistinct(y);
        assert Sh().NodeOk(y);
      }
    }

    /** Splices out an entry with at most one child. */
    method Detach(y: RNode) returns (x: RNode)
      requires Sh().RedBlackTree() && y in nodes && (y.left == nil || y.right == nil)
      modifies this`setData, this`nodes, nodes`left, nodes`right, nodes`parent, nodes`lo, nodes`hi, nil`parent
      ensures nodes == old(nodes) - {y} && nil !in nodes && Sh().Linked()
      ensures (x == nil || x in nodes) && (x.parent != null ==> x.parent in nodes)
      ensures forall n :: n in nodes ==> n.hi >= old(n.hi)
      ensures y.color == Red ==> Sh().RedBlackTree()
      ensures y.color == Black ==> Short(Sh(), x, x.parent)
    {
      assert nil !in nodes;
      hide Shape.RedBlackTree, Short, Shape.Linked, Shape.NodeOk, Shape.BlackHeight, Spliced;
      var r;
      r, x := SpliceOut(Sh(), setData, nil, y);
      ghost var sh := Without(Sh(), r, y);
      setData := r;
      nodes := nodes - {y};
      assert Sh() == sh;
    }

    /** Unlinks the entry of `z`, or the next one after moving its contents to `z`. */
    method UnlinkEntry(z: RNode) returns (y: RNode, x: RNode)
      requires Sh().RedBlackTree() && z in nodes && OnlyKey(z)
      modifies this`setData, this`nodes, nodes, nil`parent
      ensures y in old(nodes) && nodes == old(nodes) - {y} && (y != z ==> z.key == old(y.key) && z.data == old(y.data))
      ensures forall n :: n in nodes && n != z ==> n.key == old(n.key) && n.data == old(n.data)
      ensures y.color == Red ==> Sh().RedBlackTree()
      ensures y.color == Black ==> Short(Sh(), x, x.parent)
      ensures nil !in nodes && (x == nil || x in nodes)
    {
      y := ChooseUnlinked(z);
      hide Shape.RedBlackTree, Short, Shape.Linked;
      x := Detach(y);
      if y != z {
        MoveKey(Sh(), z, y.key, y.data, x, x.parent);
      }
    }

    /** Takes the key of `z` out of the map; the tree may then be one black node short at `x`. */
    method RemoveEntry(z: RNode) returns (y: RNode, x: RNode)
      requires nil.color == Black && Sh().RedBlackTree() && Maps() && OnlyKey(z) && z in nodes
      modifies this`setData, this`nodes, this`M, nodes, nil`parent
      ensures nodes <= old(nodes) && M == old(M) - {old(z.key)} && Maps()
      ensures y.color == Red ==> Sh().RedBlackTree()
      ensures y.color == Black ==> Short(Sh(), x, x.parent)
      ensures nil !in nodes && (x == nil || x in nodes)
    {
      hide Shape.RedBlackTree, Short;
      ghost var key := z.key;
      y, x := UnlinkEntry(z);
      M := M - {key};
      RemovedMaps(key, y, z);
    }

    /** `remove`: exactly the given key goes. */
    method Remove(key: int)
      requires Valid() && 0 <= key < WORD
      modifies this, nodes, nil
      ensures Valid() && nodes <= old(nodes)
      ensures M == old(M) - {key}
    {
      var z := FindInternal(key);
      if z == null {
        return;
      }
      KeysAreDistinct(z);
      assert nil !in nodes && key in M;
      assert |M - {key}| == |M| - 1 by {
        assert M.Keys == (M - {key}).Keys + {key};
      }
      hide Shape.RedBlackTree, Short, Maps;
      RemoveFound(z);
    }

    method RemoveFound(z: RNode)
      requires nil.color == Black && Sh().RedBlackTree() && Maps() && OnlyKey(z) && z in nodes && nil !in nodes
      modifies this`setData, this`nodes, this`M, this`setSize, nodes, nil
      ensures nodes <= old(nodes) && M == old(M) - {old(z.key)} && Maps() && setSize == old(setSize) - 1
      ensures Sh().RedBlackTree() && nil.color == Black
    {
      hide Shape.RedBlackTree, Short, Maps, OnlyKey;
      var y, x := RemoveEntry(z);
      label L:
      if y.color == Black {
        DeleteFixup(x);
      }
      setSize := setSize - 1;
      SameMaps@L();
    }

    /** `clear` */
    method Clear()
      requires Valid()
      modifies this
      ensures Valid() && nodes == {} && M == map[]
    {
      if setData == nil {
        EmptyMap();
        return;
      }
      setData := nil;
      setSize := 0;
      nodes, M := {}, map[];
    }

    lemma EmptyMap()
      requires Valid()
      ensures setData == nil <==> M == map[]
    {
      forall k | k in M
        ensures nodes != {}
      {
        assert HasKey(k);
      }
      if setData != nil {
        assert setData.key in M;
      }
    }

    // ----- queries

    /** `precessor_internal`: the entry with the greatest key at most `key`. */
    method PrecessorInternal(key: int) returns (v: Node?<Range>)
      requires Valid() && 0 <= key < WORD
      ensures v == null <==> forall k <- M :: k > key
      ensures v != null ==> v in nodes && IsPred(M, key, v.key)
    {
      var x: RNode := setData;
      var last: RNode := nil;
      ghost var y: Node?<Range> := null;
      ghost var a, b := -1, WORD;
      assert x != nil ==> Sh().NodeOk(x);
      while x != nil
        invariant Sh().At(key, x, y, a, b)
        invariant if last == nil then a == -1 else last in nodes && last.key == a
        decreases b - a
      {
        assert Sh().NodeOk(x);
        y := x;
        if x.key == key {
          return x;
        } else if key < x.key {
          b := x.key;
          x := x.left;
        } else {
          last := x;
          a := x.key;
          x := x.right;
        }
      }
      KeysOutside(key, y, a, b);
      if last != nil {
        return last;
      } else {
        return null;
      }
    }

    /** `successor_internal`: the entry with the least key at least `key`. */
    method SuccessorInternal(key: int) returns (v: Node?<Range>)
      requires Valid() && 0 <= key < WORD
      ensures v == null <==> forall k <- M :: k < key
      ensures v != null ==> v in nodes && IsSucc(M, key, v.key)
    {
      var x: RNode := setData;
      var last: RNode := nil;
      ghost var y: Node?<Range> := null;
      ghost var a, b := -1, WORD;
      assert x != nil ==> Sh().NodeOk(x);
      while x != nil
        invariant Sh().At(key, x, y, a, b)
        invariant if last == nil then b == WORD else last in nodes && last.key == b
        decreases b - a
      {
        assert Sh().NodeOk(x);
        y := x;
        if x.key == key {
          return x;
        } else if key > x.key {
          a := x.key;
          x := x.right;
        } else {
          last := x;
          b := x.key;
          x := x.left;
        }
      }
      KeysOutside(key, y, a, b);
      if last != nil {
        return last;
      } else {
        return null;
      }
    }

    /** Where a search ends without a match, every key lies outside the region it ended in. */
    lemma KeysOutside(key: int, y: Node?<Range>, a: int, b: int)
      requires Valid() && Sh().At(key, nil, y, a, b)
      ensures forall k <- M :: (k <= a || k >= b) && -1 < k < WORD
    {
      forall k | k in M
        ensures (k <= a || k >= b) && -1 < k < WORD
      {
        assert HasKey(k);
        var n :| n in nodes && n.key == k;
        assert Sh().NodeOk(n);
        Sh().EmptyPosition(key, y, a, b, n);
      }
    }

    /** The tests that `find` makes of the predecessor `v` of the key */
    static method Test(v: Range, key: int) returns (accepted: bool)
      requires v.Fits() && v.address <= key < WORD
      ensures accepted <==> Accepts(v, key)
    {
      if v.size == 0 {
        if key > v.address {
          return false;
        }
      } else if key >= (v.address + v.size) % WORD {
        return false;
      }
      if key < v.address {
        return false;
      }
      return true;
    }

    /** The predecessor, if the tests accept it. */
    method AcceptedPred(key: int) returns (found: bool, value: Range)
      requires Valid() && 0 <= key < WORD
      ensures found <==> Found(M, key)
      ensures found ==> IsPred(M, key, value.address) && M[value.address] == value
    {
      value := Range(0, 0, 0);
      var v := PrecessorInternal(key);
      if v == null {
        return false, value;
      }
      value := v.data;
      assert M[v.key] == value && value.address == v.key && value.Fits();
      hide Valid;
      found := Test(value, key);
    }

    /** `find` for an address */
    method FindPoint(key: int) returns (found: bool, value: Range)
      requires Valid() && 0 <= key < WORD
      ensures found <==> Found(M, key)
      ensures found ==> IsPred(M, key, value.address) && M[value.address] == value
      ensures Disjoint(M) && found ==> value.Contains(key)
      ensures Disjoint(M) ==> ((found <==> Stored(M, key)) <==> !WrapsBelow(M, key))
    {
      assert Keyed(M);
      hide Valid, Stored, WrapsBelow;
      found, value := AcceptedPred(key);
      if Disjoint(M) {
        FoundIsStored(M, key);
        if found {
          assert Accepts(M[value.address], key);
        }
      }
    }

    /** The values `vs` are those of the keys in `[from, to)`, in ascending order. */
    ghost predicate Lists(vs: seq<Range>, from: int, to: int)
      reads this
    {
      && Ascending(vs)
      && forall v :: v in vs <==> Holds(M, v) && from <= v.address < to
    }

    /** The next value extends the listing. */
    lemma ListsOneMore(vs: seq<Range>, from: int, upto: int, cur: RNode)
      requires Valid() && NextAt(cur, upto) && from <= upto && Lists(vs, from, upto)
      ensures Lists(vs + [cur.data], from, cur.key + 1) && cur in nodes && upto <= cur.key < WORD
    {
      assert Sh().NodeOk(cur);
      var more := vs + [cur.data];
      assert M[cur.key] == cur.data && cur.data.address == cur.key;
      forall v
        ensures v in more <==> Holds(M, v) && from <= v.address < cur.key + 1
      {
        assert v in more <==> v in vs || v == cur.data;
      }
    }

    /** Nothing more is listed up to `end`. */
    lemma ListsToEnd(vs: seq<Range>, from: int, upto: int, end: int, cur: Node?<Range>)
      requires Lists(vs, from, upto) && (upto <= end || vs == [])
      requires NextAt(cur, upto) && (cur != null ==> cur.key >= end)
      ensures Lists(vs, from, end)
    {
      assert forall v :: Holds(M, v) && upto <= v.address ==> v.address >= end;
    }

    /** `cur` is the entry of the least key from `upto` on, if there is one. */
    ghost predicate NextAt(cur: Node?<Range>, upto: int)
      reads this, nodes, cur
    {
      if cur == null then forall k <- M :: k < upto else cur in nodes && IsSucc(M, upto, cur.key)
    }

    method Advance(cur: RNode) returns (next: Node?<Range>)
      requires Valid() && cur in nodes
      ensures NextAt(next, cur.key + 1)
    {
      next := TreeSuccessor(cur);
      NextIsSucc(cur, next);
    }

    /** Collects the values from `cur` on, up to `end`. */
    method Collect(cur0: Node?<Range>, end: int, ranges0: seq<Range>, ghost from: int) returns (ranges: seq<Range>)
      requires Valid() && NextAt(cur0, from)
      ensures ranges0 <= ranges && Lists(ranges[|ranges0|..], from, end)
    {
      ranges := ranges0;
      ghost var vs: seq<Range> := [];
      var cur := cur0;
      ghost var upto := from;
      assert Lists(vs, from, upto) && nil !in nodes && (cur != null ==> cur in nodes);
      hide Valid, Lists, NextAt;
      while cur != null && cur != nil && cur.key < end
        invariant NextAt(cur, upto) && (cur != null ==> cur != nil)
        invariant ranges == ranges0 + vs && from <= upto && (upto <= end || vs == [])
        invariant Lists(vs, from, upto)
        decreases WORD - upto
      {
        ListsOneMore(vs, from, upto, cur);
        ranges := ranges + [cur.data];
        vs := vs + [cur.data];
        upto := cur.key + 1;
        cur := Advance(cur);
        NextIsEntry(cur, upto);
      }
      ListsToEnd(vs, from, upto, end, cur);
      assert ranges[|ranges0|..] == vs;
    }

    lemma NextIsEntry(cur: Node?<Range>, upto: int)
      requires Valid() && NextAt(cur, upto)
      ensures cur != null ==> cur != nil
    {
    }

    lemma NextIsSucc(cur: RNode, next: Node?<Range>)
      requires Valid() && cur in nodes
      requires next == null ==> forall n :: n in nodes ==> n.key <= cur.key
      requires next != null ==>
        next in nodes && next.key > cur.key && forall n :: n in nodes && n.key > cur.key ==> n.key >= next.key
      ensures next == null ==> forall k <- M :: k < cur.key + 1
      ensures next != null ==> IsSucc(M, cur.key + 1, next.key)
    {
      forall k | k in M
        ensures HasKey(k)
      {
      }
    }

    /** Where the listing of a range query starts. */
    lemma ListedFrom(start: int, end: int, c: int, from: int, vs: seq<Range>)
      requires Keyed(M) && First(M, start, c) && from == (if M[c].End() < start then c + 1 else c) && Lists(vs, from, end)
      ensures Ascending(vs)
      ensures forall v :: v in vs <==> Holds(M, v) && Listed(M, start, end, v.address)
    {
      assert forall d :: First(M, start, d) ==> d == c;
    }

    /** The entry where the listing starts to look. */
    method FirstCandidate(start: int) returns (cur: Node?<Range>)
      requires Valid() && 0 <= start < WORD
      ensures cur == null <==> M == map[]
      ensures cur != null ==> cur in nodes && First(M, start, cur.key) && cur.data == M[cur.key] && IsSucc(M, cur.key, cur.key)
    {
      cur := PrecessorInternal(start);
      if cur == null {
        cur := SuccessorInternal(start);
      }
      if cur == null {
        assert forall k :: k !in M;
        assert M == map[];
      }
    }

    /** The first candidate is passed over if it ends before `start`. */
    method SkipEnded(start: int, cur0: RNode) returns (cur: Node?<Range>, ghost from: int)
      requires Valid() && cur0 in nodes && cur0.data == M[cur0.key] && IsSucc(M, cur0.key, cur0.key)
      ensures from == if M[cur0.key].End() < start then cur0.key + 1 else cur0.key
      ensures NextAt(cur, from)
    {
      assert M[cur0.key].address == cur0.key;
      hide Valid, Maps, Shape.Linked, Shape.NodeOk;
      cur, from := cur0, cur0.key;
      if (cur0.key + cur0.data.size) % WORD < start {
        from := cur0.key + 1;
        cur := Advance(cur0);
      }
    }

    /** `find` for the addresses from `start` to `end`. */
    method FindRange(start: int, end: int, ranges0: seq<Range>) returns (found: bool, ranges: seq<Range>)
      requires Valid() && 0 <= start < WORD && 0 <= end < WORD
      ensures ranges0 <= ranges && Ascending(ranges[|ranges0|..])
      ensures forall v :: v in ranges[|ranges0|..] <==> Holds(M, v) && Listed(M, start, end, v.address)
      ensures found <==> M != map[] && ranges != []
    {
      assert Keyed(M);
      hide Valid, Listed, First, Lists;
      var cur := FirstCandidate(start);
      if cur == null {
        assert ranges0[|ranges0|..] == [];
        return false, ranges0;
      }
      ghost var c, from := cur.key, cur.key;
      cur, from := SkipEnded(start, cur);
      ranges := Collect(cur, end, ranges0, from);
      ListedFrom(start, end, c, from, ranges[|ranges0|..]);
      found := ranges != [];
    }

    /** `traverse`: the values below `node` in ascending order. */
    method Traverse(all0: seq<Range>, node: RNode) returns (all: seq<Range>)
      requires Valid() && (node != nil ==> node in nodes)
      ensures node == nil ==> all == all0
      ensures node != nil ==> all0 <= all && Lists(all[|all0|..], node.lo + 1, node.hi)
      decreases if node == nil then 0 else node.hi - node.lo
    {
      hide Valid, Lists, Shape.Linked, Shape.NodeOk;
      all := all0;
      if node == nil {
        return;
      }
      EmptySides(node);
      if node.left != nil {
        all := Traverse(all, node.left);
      }
      ghost var vl := all[|all0|..];
      all := all + [node.data];
      ghost var upto := |all|;
      if node.right != nil {
        all := Traverse(all, node.right);
      }
      ghost var vr := all[upto..];
      ListsJoin(vl, node, vr);
      assert all[|all0|..] == vl + [node.data] + vr;
    }

    lemma EmptySides(node: RNode)
      requires Valid() && node in nodes
      ensures node.lo < node.key < node.hi && node.left != null && node.right != null
      ensures node.left != nil ==> node.left in nodes && node.left.lo == node.lo && node.left.hi == node.key
      ensures node.right != nil ==> node.right in nodes && node.right.lo == node.key && node.right.hi == node.hi
      ensures node.left == nil ==> Lists([], node.lo + 1, node.key)
      ensures node.right == nil ==> Lists([], node.key + 1, node.hi)
    {
      assert Sh().NodeOk(node);
      forall k | k in M && node.In(k)
        ensures k < node.key ==> node.left != nil
        ensures k > node.key ==> node.right != nil
      {
        assert HasKey(k);
        var n :| n in nodes && n.key == k;
        Sh().GapIsEmpty(node, n);
      }
    }

    lemma ListsJoin(vl: seq<Range>, node: RNode, vr: seq<Range>)
      requires Valid() && node in nodes && Lists(vl, node.lo + 1, node.key) && Lists(vr, node.key + 1, node.hi)
      ensures Lists(vl + [node.data] + vr, node.lo + 1, node.hi)
    {
      assert Sh().NodeOk(node);
      var vs := vl + [node.data] + vr;
      assert forall v <- vl :: v.address < node.key;
      assert forall v <- vr :: v.address > node.key;
      forall v
        ensures v in vs <==> Holds(M, v) && node.lo + 1 <= v.address < node.hi
      {
        assert v in vs <==> v in vl || v == node.data || v in vr;
      }
    }

    /** `elements`: all values in ascending order. */
    method Elements(buffer0: seq<Range>) returns (some: bool, buffer: seq<Range>)
      requires Valid()
      ensures some <==> M != map[]
      ensures buffer0 <= buffer && Lists(buffer[|buffer0|..], 0, WORD) && |buffer| == |buffer0| + |M|
    {
      EmptyMap();
      if setData == nil {
        assert buffer0[|buffer0|..] == [];
        return false, buffer0;
      }
      assert Sh().NodeOk(setData);
      buffer := Traverse(buffer0, setData);
      ListingCount(buffer[|buffer0|..]);
      some := true;
    }

    /** A full listing has one value per key. */
    lemma ListingCount(vs: seq<Range>)
      requires Keyed(M) && Lists(vs, 0, WORD)
      ensures |vs| == |M|
    {
      AscendingCount(vs);
      forall k | k in M
        ensures exists v :: v in vs && v.address == k
      {
        assert Holds(M, M[k]);
        assert M[k] in vs;
      }
      assert (set v | v in vs :: v.address) == M.Keys;
    }
  }
}
