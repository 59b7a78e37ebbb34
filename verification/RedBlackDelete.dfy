/** Deletion from a red-black tree: unlinking a node and restoring the black heights. */
module RedBlackDelete {
  import opened RedBlack

  /** A child the code may treat as black: the sentinel or a black node. */
  ghost predicate BlackOrNil<D>(sh: Shape<D>, c: Node?<D>)
    reads sh.nodes
  {
    c != null && (c == sh.nil || (c in sh.nodes && c.color == Black))
  }

  /** The side of `p` where `x` hangs is one black node short. */
  ghost predicate ShortSide<D>(sh: Shape<D>, p: Node<D>, x: Node<D>)
    requires p in sh.nodes
    reads sh.nodes
  {
    var c := if p.color == Black then 1 else 0;
    || (p.left == x && sh.BlackHeight(x) + 1 == sh.BlackHeight(p.right) && p.bh == sh.BlackHeight(p.right) + c)
    || (p.right == x && sh.BlackHeight(x) + 1 == sh.BlackHeight(p.left) && p.bh == sh.BlackHeight(p.left) + c)
  }

  /** A red-black tree except at `x`, whose paths are one black node short and which may be red
      together with its parent or its children. `x` may be the sentinel; `p` is its parent. */
  ghost predicate Short<D>(sh: Shape<D>, x: Node<D>, p: Node?<D>)
    reads sh.nodes
  {
    && sh.Linked()
    && (x == sh.nil || (x in sh.nodes && x.parent == p))
    && (p == null ==> x == sh.root)
    && (p != null ==> p in sh.nodes && x != sh.root && ShortSide(sh, p, x))
    && (forall n {:trigger sh.Balanced(n)} :: n in sh.nodes && n != p ==> sh.Balanced(n))
    && (forall n {:trigger sh.NoRedRed(n)} :: n in sh.nodes && n != x && n.parent != x ==> sh.NoRedRed(n))
    && (sh.root != x ==> sh.root.color == Black)
  }

  twostate predicate SameKeys<D>(sh: Shape<D>)
    reads sh.nodes
  {
    forall n :: n in sh.nodes ==> n.key == old(n.key)
  }

  /** Colours and black heights change at the given nodes only. */
  twostate predicate PaintedOnly<D>(sh: Shape<D>, new a: Node<D>, new b: Node<D>, new c: Node<D>)
    reads sh.nodes
  {
    forall n :: n in sh.nodes && n != a && n != b && n != c ==> n.color == old(n.color) && n.bh == old(n.bh)
  }

  /** Links and regions stay. */
  twostate predicate SameShape<D>(sh: Shape<D>)
    reads sh.nodes
  {
    forall n :: n in sh.nodes ==>
      && n.key == old(n.key) && n.lo == old(n.lo) && n.hi == old(n.hi)
      && n.left == old(n.left) && n.right == old(n.right) && n.parent == old(n.parent)
  }

  /** Last step: `x` is painted black. */
  twostate lemma ShortEnd<D>(sh: Shape<D>, new x: Node<D>, new p: Node?<D>)
    requires (x == sh.nil || x in sh.nodes) && (p != null ==> p in sh.nodes) && old(Short(sh, x, p))
    requires SameShape(sh) && PaintedOnly(sh, x, x, x)
    requires x == sh.root || (x in sh.nodes && old(x.color) == Red)
    requires x in sh.nodes ==> x.color == Black && x.bh == old(x.bh) + if old(x.color) == Red then 1 else 0
    ensures sh.RedBlackTree()
  {
    SameLinks(sh);
    if x in sh.nodes {
      assert old(sh.NodeOk(x)) && (x != p ==> old(sh.Balanced(x)));
    }
    forall n | n in sh.nodes
      ensures sh.Balanced(n) && sh.NoRedRed(n)
    {
      assert old(sh.NodeOk(n));
      if n != p {
        assert old(sh.Balanced(n));
      }
      if n != x && n.parent != x {
        assert old(sh.NoRedRed(n));
      }
    }
  }

  // ----- `x` is a left child; `w` is its sibling

  /** A red sibling: after the rotation the sibling is black. */
  twostate predicate ShortRedLeftStep<D>(sh: Shape<D>, new r: Node<D>, new p: Node<D>, new w: Node<D>, new x: Node<D>)
    reads sh.nodes
  {
    && (p in sh.nodes && w in sh.nodes && (x == sh.nil || x in sh.nodes) && old(Short(sh, x, p)))
    && (old(p.left) == x && old(p.right) == w && old(sh.BlackHeight(x)) + 1 == old(sh.BlackHeight(w)))
    && (old(w.color) == Red && (x in sh.nodes ==> old(x.color) == Black))
    && (TurnedLeft(sh, p, w) && SameKeys(sh) && PaintedOnly(sh, p, w, w))
    && (w.color == Black && p.color == Red && w.bh == old(w.bh) + 1 && p.bh + 1 == old(p.bh))
    && (r == if p == sh.root then w else sh.root)
  }

  twostate lemma ShortRedSiblingLeftNode<D>(sh: Shape<D>, new r: Node<D>, new p: Node<D>, new w: Node<D>, new x: Node<D>, new n: Node<D>)
    requires ShortRedLeftStep(sh, r, p, w, x) && n in sh.nodes
    ensures n != p ==> sh.(root := r).Balanced(n)
    ensures n != x && n.parent != x ==> sh.(root := r).NoRedRed(n)
  {
    assert old(sh.NodeOk(p)) && old(sh.NodeOk(w)) && old(sh.NodeOk(n)) && old(sh.Balanced(w)) && old(sh.NoRedRed(w));
    var c := old(w.left);
    assert c in sh.nodes && old(sh.NoRedRed(c)) && old(sh.Balanced(c));
    if n != p {
      assert old(sh.Balanced(n));
    }
    if n != x && old(n.parent) != x {
      assert old(sh.NoRedRed(n));
    }
  }

  twostate lemma ShortRedSiblingLeft<D>(sh: Shape<D>, new r: Node<D>, new p: Node<D>, new w: Node<D>, new x: Node<D>)
    requires ShortRedLeftStep(sh, r, p, w, x)
    ensures Short(sh.(root := r), x, p) && p.left == x && p.right == old(w.left) && p.color == Red
    ensures p.right in sh.nodes && p.right.color == Black
    ensures sh.BlackHeight(x) + 1 == sh.BlackHeight(p.right)
  {
    TurnedLeftLinked(sh, r, p, w);
    assert old(sh.NodeOk(p)) && old(sh.NodeOk(w)) && old(sh.Balanced(w)) && old(sh.NoRedRed(w));
    var c := old(w.left);
    assert c in sh.nodes && old(sh.NoRedRed(c)) && old(sh.Balanced(c));
    forall n | n in sh.nodes
      ensures n != p ==> sh.(root := r).Balanced(n)
      ensures n != x && n.parent != x ==> sh.(root := r).NoRedRed(n)
    {
      ShortRedSiblingLeftNode(sh, r, p, w, x, n);
    }
  }

  /** Both nephews black: the sibling turns red and the shortage moves up. */
  twostate predicate ShortUpLeftStep<D>(sh: Shape<D>, new p: Node<D>, new w: Node<D>, new x: Node<D>)
    reads sh.nodes
  {
    && (p in sh.nodes && w in sh.nodes && (x == sh.nil || x in sh.nodes) && old(Short(sh, x, p)))
    && (old(p.left) == x && old(p.right) == w && old(sh.BlackHeight(x)) + 1 == old(sh.BlackHeight(w)))
    && (old(w.color) == Black && (x in sh.nodes ==> old(x.color) == Black))
    && (old(BlackOrNil(sh, w.left)) && old(BlackOrNil(sh, w.right)))
    && (SameShape(sh) && PaintedOnly(sh, p, w, w))
    && (w.color == Red && p.color == old(p.color) && w.bh + 1 == old(w.bh) && p.bh + 1 == old(p.bh))
  }

  twostate lemma ShortUpLeftNode<D>(sh: Shape<D>, new p: Node<D>, new w: Node<D>, new x: Node<D>, new n: Node<D>)
    requires ShortUpLeftStep(sh, p, w, x) && n in sh.nodes
    ensures n != p.parent ==> sh.Balanced(n)
    ensures n != p && n.parent != p ==> sh.NoRedRed(n)
  {
    assert old(sh.NodeOk(p)) && old(sh.NodeOk(w)) && old(sh.Balanced(w)) && old(sh.NodeOk(n));
    if n != p {
      assert old(sh.Balanced(n));
    }
    if n != x && n.parent != x {
      assert old(sh.NoRedRed(n));
    }
  }

  twostate lemma ShortUpLeft<D>(sh: Shape<D>, new p: Node<D>, new w: Node<D>, new x: Node<D>)
    requires ShortUpLeftStep(sh, p, w, x)
    ensures Short(sh, p, p.parent)
  {
    SameLinks(sh);
    assert old(sh.NodeOk(p)) && old(sh.NodeOk(w)) && old(sh.Balanced(w));
    if p != sh.root {
      assert old(sh.NodeOk(p.parent)) && old(sh.Balanced(p.parent));
    }
    forall n | n in sh.nodes
      ensures n != p.parent ==> sh.Balanced(n)
      ensures n != p && n.parent != p ==> sh.NoRedRed(n)
    {
      ShortUpLeftNode(sh, p, w, x, n);
    }
  }

  /** The inner nephew red: a rotation at the sibling makes it the outer nephew. */
  twostate predicate ShortInnerLeftStep<D>(sh: Shape<D>, new p: Node<D>, new w: Node<D>, new l: Node<D>, new x: Node<D>)
    reads sh.nodes
  {
    && (p in sh.nodes && w in sh.nodes && (x == sh.nil || x in sh.nodes) && old(Short(sh, x, p)))
    && (old(p.left) == x && old(p.right) == w && old(sh.BlackHeight(x)) + 1 == old(sh.BlackHeight(w)))
    && (old(w.color) == Black && old(BlackOrNil(sh, w.right)) && (x in sh.nodes ==> old(x.color) == Black))
    && (l in sh.nodes && old(w.left) == l && old(l.color) == Red)
    && (TurnedRight(sh, w, l) && SameKeys(sh) && PaintedOnly(sh, w, l, l))
    && (l.color == Black && w.color == Red && l.bh == old(l.bh) + 1 && w.bh + 1 == old(w.bh))
  }

  twostate lemma ShortInnerLeftBalanced<D>(sh: Shape<D>, new p: Node<D>, new w: Node<D>, new l: Node<D>, new x: Node<D>, new n: Node<D>)
    requires ShortInnerLeftStep(sh, p, w, l, x) && n in sh.nodes && n != p
    ensures sh.Balanced(n)
  {
    assert old(sh.NodeOk(p)) && old(sh.NodeOk(w)) && old(sh.NodeOk(l)) && old(sh.NodeOk(n));
    assert old(sh.Balanced(w)) && old(sh.Balanced(l)) && old(sh.Balanced(n));
  }

  twostate lemma ShortInnerLeftNoRedRed<D>(sh: Shape<D>, new p: Node<D>, new w: Node<D>, new l: Node<D>, new x: Node<D>, new n: Node<D>)
    requires ShortInnerLeftStep(sh, p, w, l, x) && n in sh.nodes && n != x && n.parent != x
    ensures sh.NoRedRed(n)
  {
    assert old(sh.NodeOk(p)) && old(sh.NodeOk(w)) && old(sh.NodeOk(l)) && old(sh.NodeOk(n));
    if old(n.parent) != x {
      assert old(sh.NoRedRed(n));
    }
  }

  twostate lemma ShortInnerLeft<D>(sh: Shape<D>, new p: Node<D>, new w: Node<D>, new l: Node<D>, new x: Node<D>)
    requires ShortInnerLeftStep(sh, p, w, l, x)
    ensures Short(sh, x, p) && p.left == x && p.right == l && l.right == w
    ensures sh.BlackHeight(x) + 1 == sh.BlackHeight(l)
  {
    assert old(sh.NodeOk(p)) && old(sh.NodeOk(w)) && old(sh.NodeOk(l)) && old(sh.Balanced(w)) && old(sh.Balanced(l));
    TurnedRightLinked(sh, sh.root, w, l);
    forall n | n in sh.nodes
      ensures n != p ==> sh.Balanced(n)
      ensures n != x && n.parent != x ==> sh.NoRedRed(n)
    {
      if n != p {
        ShortInnerLeftBalanced(sh, p, w, l, x, n);
      }
      if n != x && n.parent != x {
        ShortInnerLeftNoRedRed(sh, p, w, l, x, n);
      }
    }
  }

  /** The outer nephew red: one rotation repairs the tree. */
  twostate predicate ShortOuterLeftStep<D>(sh: Shape<D>, new r: Node<D>, new p: Node<D>, new w: Node<D>, new o: Node<D>, new x: Node<D>)
    reads sh.nodes
  {
    && (p in sh.nodes && w in sh.nodes && (x == sh.nil || x in sh.nodes) && old(Short(sh, x, p)))
    && (old(p.left) == x && old(p.right) == w && old(sh.BlackHeight(x)) + 1 == old(sh.BlackHeight(w)))
    && (old(w.color) == Black && (x in sh.nodes ==> old(x.color) == Black))
    && (o in sh.nodes && old(w.right) == o && old(o.color) == Red)
    && (TurnedLeft(sh, p, w) && SameKeys(sh) && PaintedOnly(sh, p, w, o))
    && (w.color == old(p.color) && p.color == Black && o.color == Black)
    && (w.bh == old(p.bh) && p.bh == old(w.bh) && o.bh == old(o.bh) + 1)
    && (r == if p == sh.root then w else sh.root)
  }

  twostate lemma ShortOuterLeftBalanced<D>(sh: Shape<D>, new r: Node<D>, new p: Node<D>, new w: Node<D>, new o: Node<D>, new x: Node<D>, new n: Node<D>)
    requires ShortOuterLeftStep(sh, r, p, w, o, x) && n in sh.nodes
    ensures sh.(root := r).Balanced(n)
  {
    assert old(sh.NodeOk(p)) && old(sh.NodeOk(w)) && old(sh.NodeOk(n));
    assert old(sh.Balanced(w)) && old(sh.Balanced(o));
    if n != p {
      assert old(sh.Balanced(n));
    }
  }

  twostate lemma ShortOuterLeftNoRedRed<D>(sh: Shape<D>, new r: Node<D>, new p: Node<D>, new w: Node<D>, new o: Node<D>, new x: Node<D>, new n: Node<D>)
    requires ShortOuterLeftStep(sh, r, p, w, o, x) && n in sh.nodes
    ensures sh.(root := r).NoRedRed(n)
  {
    assert old(sh.NodeOk(p)) && old(sh.NodeOk(w)) && old(sh.NodeOk(o)) && old(sh.NodeOk(n)) && old(sh.NoRedRed(p));
    if n != x && old(n.parent) != x {
      assert old(sh.NoRedRed(n));
    }
  }

  twostate lemma ShortOuterLeft<D>(sh: Shape<D>, new r: Node<D>, new p: Node<D>, new w: Node<D>, new o: Node<D>, new x: Node<D>)
    requires ShortOuterLeftStep(sh, r, p, w, o, x)
    ensures sh.(root := r).RedBlackTree()
  {
    TurnedLeftLinked(sh, r, p, w);
    assert old(sh.NodeOk(p)) && old(sh.NodeOk(w));
    forall n | n in sh.nodes
      ensures sh.(root := r).Balanced(n) && sh.(root := r).NoRedRed(n)
    {
      ShortOuterLeftBalanced(sh, r, p, w, o, x, n);
      ShortOuterLeftNoRedRed(sh, r, p, w, o, x, n);
    }
  }

  // ----- `x` is a right child; `w` is its sibling

  /** A red sibling: after the rotation the sibling is black. */
  twostate predicate ShortRedRightStep<D>(sh: Shape<D>, new r: Node<D>, new p: Node<D>, new w: Node<D>, new x: Node<D>)
    reads sh.nodes
  {
    && (p in sh.nodes && w in sh.nodes && (x == sh.nil || x in sh.nodes) && old(Short(sh, x, p)))
    && (old(p.right) == x && old(p.left) == w && old(sh.BlackHeight(x)) + 1 == old(sh.BlackHeight(w)))
    && (old(w.color) == Red && (x in sh.nodes ==> old(x.color) == Black))
    && (TurnedRight(sh, p, w) && SameKeys(sh) && PaintedOnly(sh, p, w, w))
    && (w.color == Black && p.color == Red && w.bh == old(w.bh) + 1 && p.bh + 1 == old(p.bh))
    && (r == if p == sh.root then w else sh.root)
  }

  twostate lemma ShortRedSiblingRightNode<D>(sh: Shape<D>, new r: Node<D>, new p: Node<D>, new w: Node<D>, new x: Node<D>, new n: Node<D>)
    requires ShortRedRightStep(sh, r, p, w, x) && n in sh.nodes
    ensures n != p ==> sh.(root := r).Balanced(n)
    ensures n != x && n.parent != x ==> sh.(root := r).NoRedRed(n)
  {
    assert old(sh.NodeOk(p)) && old(sh.NodeOk(w)) && old(sh.NodeOk(n)) && old(sh.Balanced(w)) && old(sh.NoRedRed(w));
    var c := old(w.right);
    assert c in sh.nodes && old(sh.NoRedRed(c)) && old(sh.Balanced(c));
    if n != p {
      assert old(sh.Balanced(n));
    }
    if n != x && old(n.parent) != x {
      assert old(sh.NoRedRed(n));
    }
  }

  twostate lemma ShortRedSiblingRight<D>(sh: Shape<D>, new r: Node<D>, new p: Node<D>, new w: Node<D>, new x: Node<D>)
    requires ShortRedRightStep(sh, r, p, w, x)
    ensures Short(sh.(root := r), x, p) && p.right == x && p.left == old(w.right) && p.color == Red
    ensures p.left in sh.nodes && p.left.color == Black
    ensures sh.BlackHeight(x) + 1 == sh.BlackHeight(p.left)
  {
    TurnedRightLinked(sh, r, p, w);
    assert old(sh.NodeOk(p)) && old(sh.NodeOk(w)) && old(sh.Balanced(w)) && old(sh.NoRedRed(w));
    var c := old(w.right);
    assert c in sh.nodes && old(sh.NoRedRed(c)) && old(sh.Balanced(c));
    forall n | n in sh.nodes
      ensures n != p ==> sh.(root := r).Balanced(n)
      ensures n != x && n.parent != x ==> sh.(root := r).NoRedRed(n)
    {
      ShortRedSiblingRightNode(sh, r, p, w, x, n);
    }
  }

  /** Both nephews black: the sibling turns red and the shortage moves up. */
  twostate predicate ShortUpRightStep<D>(sh: Shape<D>, new p: Node<D>, new w: Node<D>, new x: Node<D>)
    reads sh.nodes
  {
    && (p in sh.nodes && w in sh.nodes && (x == sh.nil || x in sh.nodes) && old(Short(sh, x, p)))
    && (old(p.right) == x && old(p.left) == w && old(sh.BlackHeight(x)) + 1 == old(sh.BlackHeight(w)))
    && (old(w.color) == Black && (x in sh.nodes ==> old(x.color) == Black))
    && (old(BlackOrNil(sh, w.right)) && old(BlackOrNil(sh, w.left)))
    && (SameShape(sh) && PaintedOnly(sh, p, w, w))
    && (w.color == Red && p.color == old(p.color) && w.bh + 1 == old(w.bh) && p.bh + 1 == old(p.bh))
  }

  twostate lemma ShortUpRightNode<D>(sh: Shape<D>, new p: Node<D>, new w: Node<D>, new x: Node<D>, new n: Node<D>)
    requires ShortUpRightStep(sh, p, w, x) && n in sh.nodes
    ensures n != p.parent ==> sh.Balanced(n)
    ensures n != p && n.parent != p ==> sh.NoRedRed(n)
  {
    assert old(sh.NodeOk(p)) && old(sh.NodeOk(w)) && old(sh.Balanced(w)) && old(sh.NodeOk(n));
    if n != p {
      assert old(sh.Balanced(n));
    }
    if n != x && n.parent != x {
      assert old(sh.NoRedRed(n));
    }
  }

  twostate lemma ShortUpRight<D>(sh: Shape<D>, new p: Node<D>, new w: Node<D>, new x: Node<D>)
    requires ShortUpRightStep(sh, p, w, x)
    ensures Short(sh, p, p.parent)
  {
    SameLinks(sh);
    assert old(sh.NodeOk(p)) && old(sh.NodeOk(w)) && old(sh.Balanced(w));
    if p != sh.root {
      assert old(sh.NodeOk(p.parent)) && old(sh.Balanced(p.parent));
    }
    forall n | n in sh.nodes
      ensures n != p.parent ==> sh.Balanced(n)
      ensures n != p && n.parent != p ==> sh.NoRedRed(n)
    {
      ShortUpRightNode(sh, p, w, x, n);
    }
  }

  /** The inner nephew red: a rotation at the sibling makes it the outer nephew. */
  twostate predicate ShortInnerRightStep<D>(sh: Shape<D>, new p: Node<D>, new w: Node<D>, new l: Node<D>, new x: Node<D>)
    reads sh.nodes
  {
    && (p in sh.nodes && w in sh.nodes && (x == sh.nil || x in sh.nodes) && old(Short(sh, x, p)))
    && (old(p.right) == x && old(p.left) == w && old(sh.BlackHeight(x)) + 1 == old(sh.BlackHeight(w)))
    && (old(w.color) == Black && old(BlackOrNil(sh, w.left)) && (x in sh.nodes ==> old(x.color) == Black))
    && (l in sh.nodes && old(w.right) == l && old(l.color) == Red)
    && (TurnedLeft(sh, w, l) && SameKeys(sh) && PaintedOnly(sh, w, l, l))
    && (l.color == Black && w.color == Red && l.bh == old(l.bh) + 1 && w.bh + 1 == old(w.bh))
  }

  twostate lemma ShortInnerRightBalanced<D>(sh: Shape<D>, new p: Node<D>, new w: Node<D>, new l: Node<D>, new x: Node<D>, new n: Node<D>)
    requires ShortInnerRightStep(sh, p, w, l, x) && n in sh.nodes && n != p
    ensures sh.Balanced(n)
  {
    assert old(sh.NodeOk(p)) && old(sh.NodeOk(w)) && old(sh.NodeOk(l)) && old(sh.NodeOk(n));
    assert old(sh.Balanced(w)) && old(sh.Balanced(l)) && old(sh.Balanced(n));
  }

  twostate lemma ShortInnerRightNoRedRed<D>(sh: Shape<D>, new p: Node<D>, new w: Node<D>, new l: Node<D>, new x: Node<D>, new n: Node<D>)
    requires ShortInnerRightStep(sh, p, w, l, x) && n in sh.nodes && n != x && n.parent != x
    ensures sh.NoRedRed(n)
  {
    assert old(sh.NodeOk(p)) && old(sh.NodeOk(w)) && old(sh.NodeOk(l)) && old(sh.NodeOk(n));
    if old(n.parent) != x {
      assert old(sh.NoRedRed(n));
    }
  }

  twostate lemma ShortInnerRight<D>(sh: Shape<D>, new p: Node<D>, new w: Node<D>, new l: Node<D>, new x: Node<D>)
    requires ShortInnerRightStep(sh, p, w, l, x)
    ensures Short(sh, x, p) && p.right == x && p.left == l && l.left == w
    ensures sh.BlackHeight(x) + 1 == sh.BlackHeight(l)
  {
    assert old(sh.NodeOk(p)) && old(sh.NodeOk(w)) && old(sh.NodeOk(l)) && old(sh.Balanced(w)) && old(sh.Balanced(l));
    TurnedLeftLinked(sh, sh.root, w, l);
    forall n | n in sh.nodes
      ensures n != p ==> sh.Balanced(n)
      ensures n != x && n.parent != x ==> sh.NoRedRed(n)
    {
      if n != p {
        ShortInnerRightBalanced(sh, p, w, l, x, n);
      }
      if n != x && n.parent != x {
        ShortInnerRightNoRedRed(sh, p, w, l, x, n);
      }
    }
  }

  /** The outer nephew red: one rotation repairs the tree. */
  twostate predicate ShortOuterRightStep<D>(sh: Shape<D>, new r: Node<D>, new p: Node<D>, new w: Node<D>, new o: Node<D>, new x: Node<D>)
    reads sh.nodes
  {
    && (p in sh.nodes && w in sh.nodes && (x == sh.nil || x in sh.nodes) && old(Short(sh, x, p)))
    && (old(p.right) == x && old(p.left) == w && old(sh.BlackHeight(x)) + 1 == old(sh.BlackHeight(w)))
    && (old(w.color) == Black && (x in sh.nodes ==> old(x.color) == Black))
    && (o in sh.nodes && old(w.left) == o && old(o.color) == Red)
    && (TurnedRight(sh, p, w) && SameKeys(sh) && PaintedOnly(sh, p, w, o))
    && (w.color == old(p.color) && p.color == Black && o.color == Black)
    && (w.bh == old(p.bh) && p.bh == old(w.bh) && o.bh == old(o.bh) + 1)
    && (r == if p == sh.root then w else sh.root)
  }

  twostate lemma ShortOuterRightBalanced<D>(sh: Shape<D>, new r: Node<D>, new p: Node<D>, new w: Node<D>, new o: Node<D>, new x: Node<D>, new n: Node<D>)
    requires ShortOuterRightStep(sh, r, p, w, o, x) && n in sh.nodes
    ensures sh.(root := r).Balanced(n)
  {
    assert old(sh.NodeOk(p)) && old(sh.NodeOk(w)) && old(sh.NodeOk(n));
    assert old(sh.Balanced(w)) && old(sh.Balanced(o));
    if n != p {
      assert old(sh.Balanced(n));
    }
  }

  twostate lemma ShortOuterRightNoRedRed<D>(sh: Shape<D>, new r: Node<D>, new p: Node<D>, new w: Node<D>, new o: Node<D>, new x: Node<D>, new n: Node<D>)
    requires ShortOuterRightStep(sh, r, p, w, o, x) && n in sh.nodes
    ensures sh.(root := r).NoRedRed(n)
  {
    assert old(sh.NodeOk(p)) && old(sh.NodeOk(w)) && old(sh.NodeOk(o)) && old(sh.NodeOk(n)) && old(sh.NoRedRed(p));
    if n != x && old(n.parent) != x {
      assert old(sh.NoRedRed(n));
    }
  }

  twostate lemma ShortOuterRight<D>(sh: Shape<D>, new r: Node<D>, new p: Node<D>, new w: Node<D>, new o: Node<D>, new x: Node<D>)
    requires ShortOuterRightStep(sh, r, p, w, o, x)
    ensures sh.(root := r).RedBlackTree()
  {
    TurnedRightLinked(sh, r, p, w);
    assert old(sh.NodeOk(p)) && old(sh.NodeOk(w));
    forall n | n in sh.nodes
      ensures sh.(root := r).Balanced(n) && sh.(root := r).NoRedRed(n)
    {
      ShortOuterRightBalanced(sh, r, p, w, o, x, n);
      ShortOuterRightNoRedRed(sh, r, p, w, o, x, n);
    }
  }

  // ----- unlinking

  /** `y`, which lacks a child, is gone and its other child `x` hangs in its place. The keys next to
      `y` now border each other, so the regions that ended at `y` end where the region of `y` did. */
  twostate predicate Spliced<D>(sh: Shape<D>, new y: Node<D>, new x: Node<D>)
    reads sh.nodes
  {
    && y in sh.nodes && (old(y.left) == sh.nil || old(y.right) == sh.nil)
    && x == (if old(y.left) != sh.nil then old(y.left) else old(y.right))
    && (y == sh.root && x == sh.nil ==> sh.nodes == {y})
    && (forall n :: n in sh.nodes && n != y ==> old(n.key) != old(y.key))
    && forall n :: n in sh.nodes && n != y ==>
         && n.key == old(n.key) && n.color == old(n.color) && n.bh == old(n.bh)
         && n.lo == (if old(n.lo) == old(y.key) then old(y.lo) else old(n.lo))
         && n.hi == (if old(n.hi) == old(y.key) then old(y.hi) else old(n.hi))
         && n.left == (if old(n.left) == y then x else old(n.left))
         && n.right == (if old(n.right) == y then x else old(n.right))
         && n.parent == (if n == x then old(y.parent) else old(n.parent))
  }

  ghost function Without<D>(sh: Shape<D>, r: Node<D>, y: Node<D>): Shape<D> {
    sh.(root := r, nodes := sh.nodes - {y})
  }

  twostate lemma SplicedNodeOk<D>(sh: Shape<D>, new r: Node<D>, new y: Node<D>, new x: Node<D>, new n: Node<D>)
    requires old(sh.Linked()) && Spliced(sh, y, x) && n in sh.nodes && n != y
    requires r == if y == sh.root then x else sh.root
    ensures Without(sh, r, y).NodeOk(n)
  {
    assert old(sh.NodeOk(y)) && old(sh.NodeOk(n));
    if n != sh.root {
      assert old(sh.NodeOk(n.parent));
    }
    if old(n.left) != sh.nil {
      assert old(sh.NodeOk(n.left));
    }
    if old(n.right) != sh.nil {
      assert old(sh.NodeOk(n.right));
    }
  }

  twostate lemma SplicedLinked<D>(sh: Shape<D>, new r: Node<D>, new y: Node<D>, new x: Node<D>)
    requires old(sh.Linked()) && Spliced(sh, y, x)
    requires r == if y == sh.root then x else sh.root
    ensures Without(sh, r, y).Linked()
  {
    var sh' := Without(sh, r, y);
    assert old(sh.NodeOk(y));
    forall n | n in sh'.nodes
      ensures sh'.NodeOk(n)
    {
      SplicedNodeOk(sh, r, y, x, n);
    }
    if x != sh.nil {
      assert old(sh.NodeOk(x));
    }
    if y == sh.root && x == sh.nil {
      assert sh'.nodes == {};
    } else {
      assert r in sh'.nodes;
    }
  }

  twostate lemma SplicedNode<D>(sh: Shape<D>, new r: Node<D>, new y: Node<D>, new x: Node<D>, new n: Node<D>)
    requires old(sh.RedBlackTree()) && Spliced(sh, y, x) && n in sh.nodes && n != y
    requires r == if y == sh.root then x else sh.root
    ensures old(y.color) == Red || n != old(y.parent) ==> Without(sh, r, y).Balanced(n)
    ensures old(y.color) == Black && n == old(y.parent) ==> ShortSide(Without(sh, r, y), n, x)
    ensures old(y.color) == Red || n != x ==> Without(sh, r, y).NoRedRed(n)
  {
    assert old(sh.NodeOk(y)) && old(sh.NodeOk(n)) && old(sh.Balanced(y)) && old(sh.Balanced(n));
    assert old(sh.NoRedRed(y)) && old(sh.NoRedRed(n));
    if x != sh.nil {
      assert old(sh.NodeOk(x)) && old(sh.NoRedRed(x));
    }
  }

  /** Unlinking a red node leaves a red-black tree; unlinking a black one leaves a shortage. */
  twostate lemma SplicedColours<D>(sh: Shape<D>, new r: Node<D>, new y: Node<D>, new x: Node<D>)
    requires old(sh.RedBlackTree()) && Spliced(sh, y, x)
    requires r == if y == sh.root then x else sh.root
    ensures old(y.color) == Red ==> Without(sh, r, y).RedBlackTree()
    ensures old(y.color) == Black ==> Short(Without(sh, r, y), x, old(y.parent))
  {
    SplicedLinked(sh, r, y, x);
    assert old(sh.NodeOk(y));
    if y != sh.root {
      assert old(sh.NodeOk(y.parent));
    }
    if x != sh.nil {
      assert old(sh.NodeOk(x));
    }
    forall n | n in sh.nodes && n != y
      ensures old(y.color) == Red || n != old(y.parent) ==> Without(sh, r, y).Balanced(n)
      ensures old(y.color) == Black && n == old(y.parent) ==> ShortSide(Without(sh, r, y), n, x)
      ensures old(y.color) == Red || n != x ==> Without(sh, r, y).NoRedRed(n)
    {
      SplicedNode(sh, r, y, x, n);
    }
  }

  /** Unlinks `y`, which lacks a child; `x` is its other child, or the sentinel, whose parent is then
      written as well. */
  method SpliceOut<D>(ghost sh: Shape<D>, root: Node<D>, nil: Node<D>, y: Node<D>) returns (r: Node<D>, x: Node<D>)
    requires sh.RedBlackTree() && sh.root == root && sh.nil == nil
    requires y in sh.nodes && (y.left == nil || y.right == nil)
    modifies sh.nodes`left, sh.nodes`right, sh.nodes`parent, sh.nodes`lo, sh.nodes`hi, nil`parent
    ensures Spliced(sh, y, x) && (x == nil || x in sh.nodes) && x != y
    ensures r == (if y == root then x else root) && x.parent == old(y.parent)
    ensures x.parent != null ==> x.parent in sh.nodes - {y}
    ensures Without(sh, r, y).Linked() && forall n :: n in sh.nodes && n != y ==> n.hi >= old(n.hi)
    ensures y.color == Red ==> Without(sh, r, y).RedBlackTree()
    ensures y.color == Black ==> Short(Without(sh, r, y), x, x.parent)
  {
    assert sh.NodeOk(y);
    assert y != root ==> sh.NodeOk(y.parent);
    forall n | n in sh.nodes && n != y
      ensures n.key != y.key && (n.left == y || n.right == y ==> n == y.parent && n.left != n.right)
    {
      sh.LaminarPair(y, n);
      assert sh.NodeOk(n);
    }
    if y == root && y.left == nil && y.right == nil {
      sh.BelowRootIsAll();
    }
    x := if y.left != nil then y.left else y.right;
    r := Unlink(sh, root, nil, y, x);
    SplicedColours(sh, r, y, x);
  }

  /** Links and colours are all that a shortage, or a red-black tree, is about. */
  twostate lemma SameColours<D>(sh: Shape<D>, new x: Node<D>, new p: Node?<D>)
    requires sh.Linked() && (x == sh.nil || x in sh.nodes) && (p != null ==> p in sh.nodes)
    requires forall n :: n in sh.nodes ==>
      && n.left == old(n.left) && n.right == old(n.right) && n.parent == old(n.parent)
      && n.color == old(n.color) && n.bh == old(n.bh)
    ensures old(Short(sh, x, p)) ==> Short(sh, x, p)
    ensures old(sh.RedBlackTree()) ==> sh.RedBlackTree()
  {
    forall n | n in sh.nodes
      ensures old(sh.Balanced(n)) ==> sh.Balanced(n)
      ensures old(sh.NoRedRed(n)) ==> sh.NoRedRed(n)
    {
    }
    if old(Short(sh, x, p)) {
      forall n | n in sh.nodes
        ensures n != p ==> sh.Balanced(n)
        ensures n != x && n.parent != x ==> sh.NoRedRed(n)
      {
        assert n != p ==> old(sh.Balanced(n));
        assert n != x && n.parent != x ==> old(sh.NoRedRed(n));
      }
    }
    if old(sh.RedBlackTree()) {
      forall n | n in sh.nodes
        ensures sh.Balanced(n) && sh.NoRedRed(n)
      {
        assert old(sh.Balanced(n)) && old(sh.NoRedRed(n));
      }
    }
  }

  /** `z` has the new key `k`, and the regions that ended at its old key end at the new one. */
  twostate lemma MovedLinked<D>(sh: Shape<D>, new z: Node<D>)
    requires old(sh.Linked()) && z in sh.nodes && old(z.key) < z.key < old(z.hi)
    requires forall n :: n in sh.nodes && old(n.key) > old(z.key) ==> old(n.key) > z.key
    requires forall n :: n in sh.nodes && n != z ==> n.key == old(n.key) != old(z.key)
    requires forall n :: n in sh.nodes ==>
      && n.left == old(n.left) && n.right == old(n.right) && n.parent == old(n.parent)
      && n.lo == (if old(n.lo) == old(z.key) then z.key else old(n.lo))
      && n.hi == (if old(n.hi) == old(z.key) then z.key else old(n.hi))
    ensures sh.Linked()
  {
    assert old(sh.NodeOk(z));
    forall n | n in sh.nodes
      ensures sh.NodeOk(n)
    {
      assert old(sh.NodeOk(n));
    }
  }

  /** `z` takes over the next greater key `k`, which no node has any more. */
  method MoveKey<D>(ghost sh: Shape<D>, z: Node<D>, k: int, d: D, ghost x: Node<D>, ghost p: Node?<D>)
    requires sh.Linked() && z in sh.nodes && z.key < k < z.hi
    requires (x == sh.nil || x in sh.nodes) && (p != null ==> p in sh.nodes)
    requires forall n :: n in sh.nodes && n.key > z.key ==> n.key > k
    requires forall n :: n in sh.nodes && n.key == z.key ==> n == z
    modifies z`key, z`data, sh.nodes`lo, sh.nodes`hi
    ensures z.key == k && z.data == d
    ensures old(Short(sh, x, p)) ==> Short(sh, x, p)
    ensures old(sh.RedBlackTree()) ==> sh.RedBlackTree()
  {
    hide Shape.Linked, Short, Shape.RedBlackTree;
    ghost var k0 := z.key;
    z.data := d;
    z.key := k;
    forall n | n in sh.nodes {
      n.lo := if n.lo == k0 then k else n.lo;
    }
    forall n | n in sh.nodes {
      n.hi := if n.hi == k0 then k else n.hi;
    }
    MovedLinked(sh, z);
    SameColours(sh, x, p);
  }

  /** The assignments that unlink `y`. */
  method Unlink<D>(ghost sh: Shape<D>, root: Node<D>, nil: Node<D>, y: Node<D>, x: Node<D>) returns (r: Node<D>)
    requires y in sh.nodes && nil !in sh.nodes && (x == nil || x in sh.nodes) && x != y
    requires y == root <==> y.parent == null
    requires y != root ==> y.parent in sh.nodes && y.parent != y && (y.parent.left == y || y.parent.right == y)
    requires forall n :: n in sh.nodes && n != y && (n.left == y || n.right == y) ==> n == y.parent && n.left != n.right
    modifies sh.nodes`left, sh.nodes`right, sh.nodes`parent, sh.nodes`lo, sh.nodes`hi, nil`parent
    ensures r == (if y == root then x else root) && x.parent == old(y.parent)
    ensures forall n :: n in sh.nodes && n != y ==>
      && n.lo == (if old(n.lo) == y.key then old(y.lo) else old(n.lo))
      && n.hi == (if old(n.hi) == y.key then old(y.hi) else old(n.hi))
      && n.left == (if old(n.left) == y then x else old(n.left))
      && n.right == (if old(n.right) == y then x else old(n.right))
      && n.parent == (if n == x then old(y.parent) else old(n.parent))
  {
    x.parent := y.parent;
    r := Redirect(sh.nodes, root, y.parent, y, x);
    forall n | n in sh.nodes && n != y {
      n.lo := if n.lo == y.key then y.lo else n.lo;
    }
    forall n | n in sh.nodes && n != y {
      n.hi := if n.hi == y.key then y.hi else n.hi;
    }
  }
}
