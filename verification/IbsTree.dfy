/** The interval binary search tree: a red-black tree over interval endpoints whose nodes carry
    marks, so that the marks met on the search path of a point name the intervals containing it. */
module IbsTree {
  import opened Basics
  import opened Counting
  import opened RedBlack
  import opened IbsMarks

  type MNode = Node<Marks>

  /** Where a traversal stands: the region of the current subtree, how far the keys were seen, and the
      pending nodes. */
  datatype Walk = Walk(a: int, b: int, low: int, pend: seq<MNode>)

  class IBSTree {
    const lim: Limits
    const nil: MNode
    var treeSize: int
    var root: MNode

    /** The nodes of the tree, the intervals inserted since the tree was last empty, and those of
        them that have not been removed. */
    ghost var nodes: set<MNode>
    ghost var ever: set<Interval>
    ghost var live: set<Interval>

    ghost function Sh(): Shape<Marks>
      reads this
    {
      Shape(nodes, root, nil, lim.min - 1, lim.max + 1)
    }

    // ----- the invariant

    ghost predicate MarkOk(n: MNode)
      requires n in nodes
      reads this, nodes
    {
      n.data.Sound(lim, n.lo, n.key, n.hi) && n.data.Only(live, ever, lim, n.key)
    }

    ghost predicate AllSound()
      reads this, nodes
    {
      forall n :: n in nodes ==> n.data.Sound(lim, n.lo, n.key, n.hi)
    }

    ghost predicate AllMarkOk()
      reads this, nodes
    {
      forall n {:trigger MarkOk(n)} :: n in nodes ==> MarkOk(n)
    }

    /** A stabbing query for `x` meets a mark of `m`. */
    ghost predicate Covered(x: int, m: Interval)
      reads this, nodes
    {
      exists n :: n in nodes && n.In(x) && m in n.data.Gives(n.key, x)
    }

    ghost predicate Complete(m: Interval)
      reads this, nodes
    {
      forall x :: m.Hits(x) ==> Covered(x, m)
    }

    /** The node of the lower endpoint carries `m` in its `equal` set. */
    ghost predicate Starts(m: Interval)
      reads this, nodes
    {
      m.low > lim.min ==> exists n :: n in nodes && n.key == m.low && m in n.data.equal
    }

    ghost predicate HasNode(v: int)
      reads this, nodes
    {
      exists n :: n in nodes && n.key == v
    }

    /** Every mark of `m` is on the search path of the endpoint it is marked from. */
    ghost predicate Tight(m: Interval)
      reads this, nodes
    {
      forall n :: n in nodes ==> n.data.TightAt(n.lo, n.hi, m)
    }

    /** What `addLeft` promises of every node on the search path of the lower endpoint. */
    ghost predicate LeftDone(m: Interval)
      reads this, nodes
    {
      forall n :: n in nodes ==> n.data.LeftDoneAt(lim, n.lo, n.key, n.hi, m)
    }

    /** What `addRight` promises of every node on the search path of the upper endpoint. */
    ghost predicate RightDone(m: Interval)
      reads this, nodes
    {
      forall n :: n in nodes ==> n.data.RightDoneAt(lim, n.lo, n.key, n.hi, m)
    }

    /** The marks of `m` have the form that the first half of its insertion gives them. */
    ghost predicate Half(m: Interval)
      reads this, nodes
    {
      lim.Inside(m) && HasNode(m.low) && Tight(m) && LeftDone(m)
    }

    /** The marks of `m` have the form that its insertion gives them: the shape of the tree determines
        them. */
    ghost predicate Formed(m: Interval)
      reads this, nodes
    {
      Half(m) && HasNode(m.high) && RightDone(m)
    }

    /** Everything but the colours; the intervals of `pending` need not be covered yet. */
    ghost predicate MarksInv(pending: set<Interval>)
      reads this, nodes
    {
      && AllMarkOk()
      && live <= ever
      && (forall m <- ever :: lim.Fits(m))
      && (forall m <- live :: m !in pending ==> Complete(m) && Starts(m))
      && (forall m <- live :: m !in pending && lim.Inside(m) ==> Formed(m))
    }

    /** The endpoints that have a node. */
    ghost function Ends(): set<int>
      reads this, nodes
    {
      Keys(nodes)
    }

    static ghost function Keys(s: set<MNode>): set<int>
      reads s
    {
      set n | n in s :: n.key
    }

    ghost predicate Valid()
      reads this, nil, nodes
    {
      nil.color == Black && Sh().RedBlackTree() && MarksInv({}) && treeSize == |nodes|
    }

    constructor (lim: Limits)
      requires lim.min <= lim.max
      ensures Valid() && this.lim == lim && fresh(nil) && fresh(nodes)
      ensures live == {} && ever == {} && nodes == {}
    {
      this.lim := lim;
      var n := new Node<Marks>.Nil(Marks({}, {}, {}));
      nil, root, treeSize := n, n, 0;
      nodes, ever, live := {}, {}, {};
    }

    // ----- rotations

    /** No node joins the search path of `q`, and no key changes. */
    twostate predicate PathShrinks(q: int)
      reads this, nodes
    {
      nodes == old(nodes) && forall n :: n in nodes ==> n.key == old(n.key) && (n.In(q) ==> old(n.In(q)))
    }

    /** Covering, marking and starting points survive. */
    twostate predicate Kept()
      reads this, nodes
    {
      && old(nodes) <= nodes && live == old(live) && ever == old(ever)
      && (forall x, m :: old(Covered(x, m)) ==> Covered(x, m))
      && (forall m {:trigger Starts(m)} :: old(Starts(m)) ==> Starts(m))
    }

    /** The form of the marks survives. */
    twostate predicate FormKept()
      reads this, nodes
    {
      forall m {:trigger Formed(m)} :: old(Formed(m)) ==> Formed(m)
    }

    /** ... also of a half-inserted interval that starts at `q`. */
    twostate predicate HalfKept(q: int)
      reads this, nodes
    {
      forall m: Interval {:trigger Half(m)} :: m.low == q && old(Half(m)) ==> Half(m)
    }

    /** What rebalancing after the insertion of the key `q` does to the marks. */
    twostate predicate Steady(q: int)
      reads this, nodes
    {
      Kept() && PathShrinks(q) && FormKept() && HalfKept(q)
    }

    /** Turn the marks of `pivot` and `y` for a right rotation, one mark of `y` at a time. */
    method TurnMarksRight(pivot: MNode, y: MNode)
      requires pivot != y
      modifies pivot`data, y`data
      ensures (pivot.data, y.data) == RightTurn(old(pivot.data), old(y.data))
    {
      ghost var p0, y0 := pivot.data, y.data;
      y.data := y.data.(less := y.data.less + pivot.data.less);
      y.data := y.data.(equal := y.data.equal + pivot.data.less);
      var rest := y.data.greater;
      while rest != {}
        invariant rest <= y0.greater
        invariant y.data.less == y0.less + p0.less && y.data.equal == y0.equal + p0.less
        invariant y.data.greater == y0.greater - ((y0.greater - rest) - p0.greater)
        invariant pivot.data.less == p0.less + ((y0.greater - rest) - p0.greater)
        invariant pivot.data.greater == p0.greater - (y0.greater - rest)
        invariant pivot.data.equal == p0.equal - ((y0.greater - rest) * p0.greater)
        decreases rest
      {
        var tmp :| tmp in rest;
        if tmp !in pivot.data.greater {
          pivot.data := pivot.data.(less := pivot.data.less + {tmp});
          y.data := y.data.(greater := y.data.greater - {tmp});
        } else {
          pivot.data := pivot.data.(greater := pivot.data.greater - {tmp});
          pivot.data := pivot.data.(equal := pivot.data.equal - {tmp});
        }
        rest := rest - {tmp};
      }
      assert y.data.greater == y0.greater * p0.greater;
      assert pivot.data.greater == p0.greater - y0.greater;
      assert pivot.data.equal == p0.equal - (y0.greater * p0.greater);
      assert pivot.data.less == p0.less + (y0.greater - p0.greater);
      assert pivot.data == RightTurn(p0, y0).0 && y.data == RightTurn(p0, y0).1;
    }

    /** The tree before and after a right rotation at `pivot`. */
    twostate predicate RightStep(new pivot: MNode, new y: MNode)
      reads this, nodes
    {
      && pivot in nodes && y in nodes && nodes == old(nodes) && live == old(live) && ever == old(ever)
      && old(Sh().Linked()) && old(AllMarkOk())
      && TurnedRight(old(Sh()), pivot, y)
      && (forall n :: n in nodes ==> n.key == old(n.key))
      && (pivot.data, y.data) == RightTurn(old(pivot.data), old(y.data))
      && (forall n :: n in nodes && n != pivot && n != y ==> n.data == old(n.data))
    }

    twostate lemma RightStepFacts(new pivot: MNode, new y: MNode)
      requires RightStep(pivot, y)
      ensures y.lo == old(y.lo) < y.key == pivot.lo < pivot.key == old(y.hi) < y.hi == pivot.hi
      ensures lim.min <= y.key && pivot.key <= lim.max
      ensures old(pivot.lo) == y.lo && old(pivot.hi) == y.hi
      ensures old(MarkOk(pivot)) && old(MarkOk(y))
    {
      assert old(Sh().NodeOk(pivot)) && old(Sh().NodeOk(y));
    }

    twostate lemma RightStepCovers(new pivot: MNode, new y: MNode, new x: int, new m: Interval)
      requires RightStep(pivot, y) && old(Covered(x, m))
      ensures Covered(x, m)
    {
      RightStepFacts(pivot, y);
      var n :| n in nodes && old(n.In(x)) && m in old(n.data.Gives(n.key, x));
      RightTurnKeeps(lim, old(pivot.data), old(y.data), y.lo, y.key, pivot.key, y.hi, x, m);
      assert n != pivot && n != y ==> n.In(x) && m in n.data.Gives(n.key, x);
      assert y.In(x) && m in y.data.Gives(y.key, x) ==> Covered(x, m);
    }

    twostate lemma RightStepSound(new pivot: MNode, new y: MNode, new n: MNode)
      requires RightStep(pivot, y) && n in nodes
      ensures MarkOk(n)
    {
      RightStepFacts(pivot, y);
      assert old(MarkOk(n));
      if n == pivot || n == y {
        RightTurnKeeps(lim, old(pivot.data), old(y.data), y.lo, y.key, pivot.key, y.hi, 0, Interval(0, 0, 0));
        RightTurnOnly(live, ever, lim, old(pivot.data), old(y.data), y.key, pivot.key);
      }
    }

    twostate lemma RightStepStarts(new pivot: MNode, new y: MNode, new m: Interval)
      requires RightStep(pivot, y) && old(Starts(m))
      ensures Starts(m)
    {
      if m.low > lim.min {
        RightStepFacts(pivot, y);
        var n :| n in nodes && n.key == m.low && m in old(n.data.equal);
        RightTurnStarts(lim, old(pivot.data), old(y.data), old(y.lo), y.key, pivot.key, m);
        assert n != pivot && n != y ==> n.data == old(n.data);
      }
    }

    /** A right rotation keeps the marks sound for the new regions and uncovers nothing. */
    twostate lemma RightStepKeeps(new pivot: MNode, new y: MNode)
      requires RightStep(pivot, y)
      ensures Kept() && AllMarkOk() && FormKept() && forall q :: HalfKept(q)
    {
      forall m
        ensures (old(Half(m)) ==> Half(m)) && (old(Formed(m)) ==> Formed(m))
      {
        RightStepForm(pivot, y, m);
      }
      forall x, m | old(Covered(x, m))
        ensures Covered(x, m)
      {
        RightStepCovers(pivot, y, x, m);
      }
      forall n | n in nodes
        ensures MarkOk(n)
      {
        RightStepSound(pivot, y, n);
      }
      forall m | old(Starts(m))
        ensures Starts(m)
      {
        RightStepStarts(pivot, y, m);
      }
    }

    twostate lemma RightStepForm(new pivot: MNode, new y: MNode, new m: Interval)
      requires RightStep(pivot, y)
      ensures (old(Half(m)) ==> Half(m)) && (old(Formed(m)) ==> Formed(m))
    {
      if old(Half(m)) {
        forall n | n in nodes
          ensures n.data.TightAt(n.lo, n.hi, m) && n.data.LeftDoneAt(lim, n.lo, n.key, n.hi, m)
          ensures old(RightDone(m)) ==> n.data.RightDoneAt(lim, n.lo, n.key, n.hi, m)
        {
          RightStepFormAt(pivot, y, m, n);
        }
        SameKeys();
      }
    }

    twostate lemma RightStepFormAt(new pivot: MNode, new y: MNode, new m: Interval, new n: MNode)
      requires RightStep(pivot, y) && old(Half(m)) && n in nodes
      ensures n.data.TightAt(n.lo, n.hi, m) && n.data.LeftDoneAt(lim, n.lo, n.key, n.hi, m)
      ensures old(RightDone(m)) ==> n.data.RightDoneAt(lim, n.lo, n.key, n.hi, m)
    {
      RightStepFacts(pivot, y);
      assert old(Sh().NodeOk(pivot));
      if n == pivot || n == y {
        RightTurnForm(lim, old(pivot.data), old(y.data), y.lo, y.key, pivot.key, y.hi, m);
      }
    }

    twostate lemma SameKeys()
      requires nodes == old(nodes) && forall n :: n in nodes ==> n.key == old(n.key)
      ensures forall v :: old(HasNode(v)) ==> HasNode(v)
    {
      forall v | old(HasNode(v))
        ensures HasNode(v)
      {
        var n :| n in nodes && old(n.key) == v;
        assert n.key == v;
      }
    }

    twostate lemma RightStepPath(new pivot: MNode, new y: MNode, new q: int)
      requires RightStep(pivot, y) && (old(pivot.In(q)) ==> q < pivot.key)
      requires forall v :: HalfKept(v)
      ensures PathShrinks(q) && HalfKept(q)
    {
      RightStepFacts(pivot, y);
    }

    method RightRotate(pivot: Node?<Marks>, ghost q: int) returns (ghost y: MNode)
      requires Sh().Linked() && AllMarkOk()
      requires pivot != null && pivot != nil ==> pivot in nodes && (pivot.In(q) ==> q < pivot.key)
      modifies this`root, nodes`left, nodes`right, nodes`parent, nodes`lo, nodes`hi, nodes`data
      ensures pivot == null || pivot == nil || old(pivot.left) == nil ==> unchanged(this) && unchanged(nodes)
      ensures pivot != null && pivot != nil && old(pivot.left) != nil ==>
        && TurnedRight(old(Sh()), pivot, y)
        && root == (if pivot == old(root) then y else old(root))
        && AllMarkOk() && Steady(q)
    {
      hide AllSound, AllMarkOk, Kept, FormKept, HalfKept;
      y := nil;
      if pivot == null || pivot == nil {
        return;
      }
      assert Sh().NodeOk(pivot);
      if pivot.left == nil {
        return;
      }
      assert pivot.left.hi == pivot.key;
      var r, z := RotateRight(Sh(), root, nil, pivot);
      y := z;
      root := r;
      TurnMarksRight(pivot, z);
      assert RightStep(pivot, z);
      hide RightStep;
      RightStepKeeps(pivot, z);
      RightStepPath(pivot, z, q);
    }

    /** Turn the marks of `pivot` and `y` for a left rotation, one mark of `y` at a time. */
    method TurnMarksLeft(pivot: MNode, y: MNode)
      requires pivot != y
      modifies pivot`data, y`data
      ensures (pivot.data, y.data) == LeftTurn(old(pivot.data), old(y.data))
    {
      ghost var p0, y0 := pivot.data, y.data;
      y.data := y.data.(greater := y.data.greater + pivot.data.greater);
      y.data := y.data.(equal := y.data.equal + pivot.data.greater);
      var rest := y.data.less;
      while rest != {}
        invariant rest <= y0.less
        invariant y.data.greater == y0.greater + p0.greater && y.data.equal == y0.equal + p0.greater
        invariant y.data.less == y0.less - ((y0.less - rest) - p0.less)
        invariant pivot.data.greater == p0.greater + ((y0.less - rest) - p0.less)
        invariant pivot.data.less == p0.less - (y0.less - rest)
        invariant pivot.data.equal == p0.equal - ((y0.less - rest) * p0.less)
        decreases rest
      {
        var tmp :| tmp in rest;
        if tmp !in pivot.data.less {
          pivot.data := pivot.data.(greater := pivot.data.greater + {tmp});
          y.data := y.data.(less := y.data.less - {tmp});
        } else {
          pivot.data := pivot.data.(less := pivot.data.less - {tmp});
          pivot.data := pivot.data.(equal := pivot.data.equal - {tmp});
        }
        rest := rest - {tmp};
      }
      assert y.data.less == y0.less * p0.less;
      assert pivot.data.less == p0.less - y0.less;
      assert pivot.data.equal == p0.equal - (y0.less * p0.less);
      assert pivot.data.greater == p0.greater + (y0.less - p0.less);
      assert pivot.data == LeftTurn(p0, y0).0 && y.data == LeftTurn(p0, y0).1;
    }

    /** The tree before and after a left rotation at `pivot`. */
    twostate predicate LeftStep(new pivot: MNode, new y: MNode)
      reads this, nodes
    {
      && pivot in nodes && y in nodes && nodes == old(nodes) && live == old(live) && ever == old(ever)
      && old(Sh().Linked()) && old(AllMarkOk())
      && TurnedLeft(old(Sh()), pivot, y)
      && (forall n :: n in nodes ==> n.key == old(n.key))
      && (pivot.data, y.data) == LeftTurn(old(pivot.data), old(y.data))
      && (forall n :: n in nodes && n != pivot && n != y ==> n.data == old(n.data))
    }

    twostate lemma LeftStepFacts(new pivot: MNode, new y: MNode)
      requires LeftStep(pivot, y)
      ensures pivot.lo == y.lo < pivot.key == old(y.lo) < y.key == pivot.hi < y.hi == old(y.hi)
      ensures lim.min <= pivot.key && y.key <= lim.max
      ensures old(pivot.hi) == y.hi && old(pivot.lo) == y.lo
      ensures old(MarkOk(pivot)) && old(MarkOk(y))
    {
      assert old(Sh().NodeOk(pivot)) && old(Sh().NodeOk(y));
    }

    twostate lemma LeftStepCovers(new pivot: MNode, new y: MNode, new x: int, new m: Interval)
      requires LeftStep(pivot, y) && old(Covered(x, m))
      ensures Covered(x, m)
    {
      LeftStepFacts(pivot, y);
      var n :| n in nodes && old(n.In(x)) && m in old(n.data.Gives(n.key, x));
      LeftTurnKeeps(lim, old(pivot.data), old(y.data), y.lo, pivot.key, y.key, y.hi, x, m);
      assert n != pivot && n != y ==> n.In(x) && m in n.data.Gives(n.key, x);
      assert y.In(x) && m in y.data.Gives(y.key, x) ==> Covered(x, m);
    }

    twostate lemma LeftStepSound(new pivot: MNode, new y: MNode, new n: MNode)
      requires LeftStep(pivot, y) && n in nodes
      ensures n.data.Sound(lim, n.lo, n.key, n.hi) && (y.key < lim.max ==> MarkOk(n))
    {
      LeftStepFacts(pivot, y);
      assert old(MarkOk(n));
      if n == pivot || n == y {
        LeftTurnKeeps(lim, old(pivot.data), old(y.data), y.lo, pivot.key, y.key, y.hi, 0, Interval(0, 0, 0));
        LeftTurnOnly(live, ever, lim, old(pivot.data), old(y.data), pivot.key, y.key);
      }
    }

    twostate lemma LeftStepStarts(new pivot: MNode, new y: MNode, new m: Interval)
      requires LeftStep(pivot, y) && old(Starts(m))
      ensures Starts(m)
    {
      if m.low > lim.min {
        LeftStepFacts(pivot, y);
        var n :| n in nodes && n.key == m.low && m in old(n.data.equal);
        LeftTurnStarts(lim, old(pivot.data), old(y.data), old(pivot.lo), pivot.key, old(pivot.hi), m);
        assert n != pivot && n != y ==> n.data == old(n.data);
      }
    }

    /** A left rotation keeps the marks sound for the new regions and uncovers nothing. */
    twostate lemma LeftStepKeeps(new pivot: MNode, new y: MNode)
      requires LeftStep(pivot, y)
      ensures Kept() && AllSound() && (y.key < lim.max ==> AllMarkOk())
      ensures FormKept() && forall q :: pivot.key < q < y.hi ==> HalfKept(q)
    {
      forall m
        ensures old(Formed(m)) ==> Formed(m)
        ensures old(Half(m)) && pivot.key < m.low < y.hi ==> Half(m)
      {
        LeftStepForm(pivot, y, m);
      }
      forall x, m | old(Covered(x, m))
        ensures Covered(x, m)
      {
        LeftStepCovers(pivot, y, x, m);
      }
      forall n | n in nodes
        ensures n.data.Sound(lim, n.lo, n.key, n.hi) && (y.key < lim.max ==> MarkOk(n))
      {
        LeftStepSound(pivot, y, n);
      }
      forall m | old(Starts(m))
        ensures Starts(m)
      {
        LeftStepStarts(pivot, y, m);
      }
    }

    twostate lemma LeftStepForm(new pivot: MNode, new y: MNode, new m: Interval)
      requires LeftStep(pivot, y)
      ensures old(Formed(m)) ==> Formed(m)
      ensures old(Half(m)) && pivot.key < m.low < y.hi ==> Half(m)
    {
      if old(Formed(m)) {
        forall n | n in nodes
          ensures n.data.TightAt(n.lo, n.hi, m) && n.data.LeftDoneAt(lim, n.lo, n.key, n.hi, m)
          ensures n.data.RightDoneAt(lim, n.lo, n.key, n.hi, m)
        {
          LeftStepFormAt(pivot, y, m, n);
        }
        SameKeys();
      } else if old(Half(m)) && pivot.key < m.low < y.hi {
        forall n | n in nodes
          ensures n.data.TightAt(n.lo, n.hi, m) && n.data.LeftDoneAt(lim, n.lo, n.key, n.hi, m)
        {
          LeftStepHalfAt(pivot, y, m, n);
        }
        SameKeys();
      }
    }

    twostate lemma LeftStepFormAt(new pivot: MNode, new y: MNode, new m: Interval, new n: MNode)
      requires LeftStep(pivot, y) && old(Formed(m)) && n in nodes
      ensures n.data.TightAt(n.lo, n.hi, m) && n.data.LeftDoneAt(lim, n.lo, n.key, n.hi, m)
      ensures n.data.RightDoneAt(lim, n.lo, n.key, n.hi, m)
    {
      LeftStepFacts(pivot, y);
      assert old(Sh().NodeOk(pivot));
      if n == pivot || n == y {
        LeftTurnForm(lim, old(pivot.data), old(y.data), y.lo, pivot.key, y.key, y.hi, m);
      }
    }

    twostate lemma LeftStepHalfAt(new pivot: MNode, new y: MNode, new m: Interval, new n: MNode)
      requires LeftStep(pivot, y) && old(Half(m)) && pivot.key < m.low < y.hi && n in nodes
      ensures n.data.TightAt(n.lo, n.hi, m) && n.data.LeftDoneAt(lim, n.lo, n.key, n.hi, m)
    {
      LeftStepFacts(pivot, y);
      assert old(Sh().NodeOk(pivot));
      if n == pivot || n == y {
        LeftTurnHalf(lim, old(pivot.data), old(y.data), y.lo, pivot.key, y.key, y.hi, m);
      }
    }

    twostate lemma LeftStepPath(new pivot: MNode, new y: MNode, new q: int)
      requires LeftStep(pivot, y) && (old(pivot.In(q)) ==> q > pivot.key)
      requires forall v :: pivot.key < v < y.hi ==> HalfKept(v)
      ensures PathShrinks(q) && (old(pivot.In(q)) ==> HalfKept(q))
    {
      LeftStepFacts(pivot, y);
    }

    method LeftRotate(pivot: Node?<Marks>, ghost q: int) returns (ghost y: MNode)
      requires Sh().Linked() && AllMarkOk()
      requires pivot != null && pivot != nil ==> pivot in nodes && (pivot.In(q) ==> q > pivot.key)
      modifies this`root, nodes`right, nodes`left, nodes`parent, nodes`hi, nodes`lo, nodes`data
      ensures pivot == null || pivot == nil || old(pivot.right) == nil ==> unchanged(this) && unchanged(nodes)
      ensures pivot != null && pivot != nil && old(pivot.right) != nil ==>
        && TurnedLeft(old(Sh()), pivot, y)
        && root == (if pivot == old(root) then y else old(root))
        && AllSound() && Kept() && PathShrinks(q) && FormKept()
        && (old(pivot.In(q)) ==> Steady(q))
        && (y.key < lim.max ==> AllMarkOk())
    {
      hide AllSound, AllMarkOk, Kept, FormKept, HalfKept;
      y := nil;
      if pivot == null || pivot == nil {
        return;
      }
      assert Sh().NodeOk(pivot);
      if pivot.right == nil {
        return;
      }
      assert pivot.right.lo == pivot.key;
      var r, z := RotateLeft(Sh(), root, nil, pivot);
      y := z;
      root := r;
      TurnMarksLeft(pivot, z);
      assert LeftStep(pivot, z);
      hide LeftStep;
      LeftStepKeeps(pivot, z);
      LeftStepPath(pivot, z, q);
    }

    // ----- rebalancing after an insertion

    ghost predicate FixState(x: MNode)
      reads this, nodes
    {
      Sh().Fixing(x) && AllMarkOk()
    }

    /** `x` and its parent are not both red. */
    ghost predicate Settled(x: MNode)
      reads this, nodes, x
    {
      x == root || (x.parent != null && x.parent in nodes && x.parent.color == Black)
    }

    /** Colours are no part of the marks. */
    twostate lemma SameMarks(new q: int)
      requires nodes == old(nodes) && live == old(live) && ever == old(ever)
      requires forall n :: n in nodes ==>
        n.key == old(n.key) && n.lo == old(n.lo) && n.hi == old(n.hi) && n.data == old(n.data)
      ensures Steady(q) && (old(AllMarkOk()) ==> AllMarkOk())
    {
      forall x, m | old(Covered(x, m))
        ensures Covered(x, m)
      {
        var n :| n in nodes && old(n.In(x)) && m in old(n.data.Gives(n.key, x));
        assert n.In(x) && m in n.data.Gives(n.key, x);
      }
      forall m
        ensures (old(Half(m)) ==> Half(m)) && (old(Formed(m)) ==> Formed(m))
      {
        SameForm(m);
      }
      if old(AllMarkOk()) {
        forall n | n in nodes
          ensures MarkOk(n)
        {
          assert old(MarkOk(n));
        }
      }
    }

    twostate lemma SameForm(new m: Interval)
      requires nodes == old(nodes)
      requires forall n :: n in nodes ==>
        n.key == old(n.key) && n.lo == old(n.lo) && n.hi == old(n.hi) && n.data == old(n.data)
      ensures (old(Half(m)) ==> Half(m)) && (old(Formed(m)) ==> Formed(m))
    {
      SameKeys();
    }

    method Paint(p: MNode, g: MNode, ghost q: int)
      requires Sh().Linked() && AllMarkOk() && p in nodes && g in nodes && p != g && g.bh > 0
      modifies p`color, g`color, p`bh, g`bh
      ensures Sh().Linked() && AllMarkOk() && Steady(q)
      ensures p.color == Black && g.color == Red && p.bh == old(p.bh) + 1 && g.bh + 1 == old(g.bh)
    {
      p.color := Black;
      g.color := Red;
      p.bh, g.bh := p.bh + 1, g.bh - 1;
      SameMarks(q);
      SameLinks(Sh());
    }

    /** Outer grandchild: recolour parent and grandparent, then rotate the grandparent. */
    method TurnOuterRight(x: MNode, p: MNode, g: MNode, ghost q: int)
      requires FixState(x) && x.parent == p && p in nodes && p.left == x && p.color == Red
      requires g in nodes && p.parent == g && g.left == p
      requires g.right != null && (g.right != nil ==> g.right in nodes && g.right.color == Black)
      requires g.In(q) ==> q < g.key
      modifies this`root, nodes
      ensures FixState(x) && Steady(q)
      ensures x.parent == p && p.color == Black
    {
      hide Covered, Starts, Half, Formed, AllSound, AllMarkOk;
      assert Sh().NodeOk(p) && Sh().NodeOk(g) && Sh().NoRedRed(p) && Sh().Balanced(p) && Sh().Balanced(g);
      Paint(p, g, q);
      ghost var y := RightRotate(g, q);
      FixOuterRight(old(Sh()), root, g, p, x);
    }

    /** Inner grandchild: rotate the parent to make it the outer grandchild. */
    method TurnInnerRight(x: MNode, p: MNode, ghost q: int)
      requires FixState(x) && x.parent == p && p in nodes && p.left == x && p.color == Red && p != root
      requires p.In(q) ==> q < p.key
      modifies this`root, nodes
      ensures FixState(p) && Steady(q)
      ensures p.parent == x && x.color == Red && x in nodes
      ensures old(p.parent) != null && x.parent == old(p.parent) && x.parent in nodes
      ensures old(p.parent.right) == p ==> x.parent.right == x && x.parent.left == old(p.parent.left)
      ensures x.parent.lo == old(p.parent.lo) && x.parent.hi == old(p.parent.hi)
      ensures x.right == p && forall n :: n in nodes ==> n.color == old(n.color)
    {
      assert Sh().NodeOk(p) && Sh().NodeOk(x) && Sh().NodeOk(p.parent);
      ghost var y := RightRotate(p, q);
      FixInnerRight(old(Sh()), p, x);
    }

    /** Outer grandchild: recolour parent and grandparent, then rotate the grandparent. */
    method TurnOuterLeft(x: MNode, p: MNode, g: MNode, ghost q: int)
      requires FixState(x) && x.parent == p && p in nodes && p.right == x && p.color == Red
      requires g in nodes && p.parent == g && g.right == p
      requires g.left != null && (g.left != nil ==> g.left in nodes && g.left.color == Black)
      requires g.In(q) && q > g.key
      modifies this`root, nodes
      ensures FixState(x) && Steady(q)
      ensures x.parent == p && p.color == Black
    {
      hide Covered, Starts, Half, Formed, AllSound, AllMarkOk;
      assert Sh().NodeOk(x) && Sh().NodeOk(p) && Sh().NodeOk(g) && Sh().NoRedRed(p) && Sh().Balanced(p) && Sh().Balanced(g);
      Paint(p, g, q);
      ghost var y := LeftRotate(g, q);
      FixOuterLeft(old(Sh()), root, g, p, x);
    }

    /** Inner grandchild: rotate the parent to make it the outer grandchild. */
    method TurnInnerLeft(x: MNode, p: MNode, ghost q: int)
      requires FixState(x) && x.parent == p && p in nodes && p.right == x && p.color == Red && p != root
      requires x.key < lim.max && p.In(q) && q > p.key
      modifies this`root, nodes
      ensures FixState(p) && Steady(q)
      ensures p.parent == x && x.color == Red && x in nodes
      ensures old(p.parent) != null && x.parent == old(p.parent) && x.parent in nodes
      ensures old(p.parent.left) == p ==> x.parent.left == x && x.parent.right == old(p.parent.right)
      ensures x.parent.lo == old(p.parent.lo) && x.parent.hi == old(p.parent.hi)
      ensures x.left == p && forall n :: n in nodes ==> n.color == old(n.color)
    {
      assert Sh().NodeOk(p) && Sh().NodeOk(x) && Sh().NodeOk(p.parent);
      ghost var y := LeftRotate(p, q);
      FixInnerLeft(old(Sh()), p, x);
    }

    /** One round of the loop when the parent of `x` is a left child. */
    method FixLeftSide(x: MNode, p: MNode, g: MNode, ghost q: int) returns (x': MNode)
      requires nil.color == Black && FixState(x) && x.In(q)
      requires p in nodes && g in nodes && x.parent == p && p.parent == g && g.left == p && p.color == Red
      modifies this`root, nodes
      ensures FixState(x') && Steady(q)
      ensures Settled(x') || (x' == g && g.In(q) && g.lo == old(g.lo) && g.hi == old(g.hi))
    {
      hide Covered, Starts, Half, Formed;
      assert Sh().NodeOk(g) && Sh().NodeOk(p) && Sh().NodeOk(x);
      var y := g.right;
      if y.color == Red {
        p.color := Black;
        y.color := Black;
        g.color := Red;
        p.bh, y.bh := p.bh + 1, y.bh + 1;
        FixRecolour(Sh(), g, p, y, x);
        SameMarks(q);
        x' := g;
      } else if x == p.right {
        TurnInnerLeft(x, p, q);
        x' := p;
        TurnOuterRight(x', x, g, q);
      } else {
        x' := x;
        TurnOuterRight(x', p, g, q);
      }
    }

    /** One round of the loop when the parent of `x` is a right child. */
    method FixRightSide(x: MNode, p: MNode, g: MNode, ghost q: int) returns (x': MNode)
      requires nil.color == Black && FixState(x) && x.In(q)
      requires p in nodes && g in nodes && x.parent == p && p.parent == g && g.right == p && p.color == Red
      modifies this`root, nodes
      ensures FixState(x') && Steady(q)
      ensures Settled(x') || (x' == g && g.In(q) && g.hi == old(g.hi) && g.lo == old(g.lo))
    {
      hide Covered, Starts, Half, Formed;
      assert Sh().NodeOk(g) && Sh().NodeOk(p) && Sh().NodeOk(x);
      var y := g.left;
      if y.color == Red {
        p.color := Black;
        y.color := Black;
        g.color := Red;
        p.bh, y.bh := p.bh + 1, y.bh + 1;
        FixRecolour(Sh(), g, p, y, x);
        SameMarks(q);
        x' := g;
      } else if x == p.left {
        TurnInnerRight(x, p, q);
        x' := p;
        TurnOuterLeft(x', x, g, q);
      } else {
        x' := x;
        TurnOuterLeft(x', p, g, q);
      }
    }

    /** One round of the loop: it ends the loop or moves `x` to a node with a greater region. */
    method FixRound(x: MNode, ghost q: int) returns (x': MNode)
      requires nil.color == Black && FixState(x) && x.In(q) && !Settled(x)
      modifies this`root, nodes
      ensures FixState(x') && Steady(q)
      ensures Settled(x') || (x'.In(q) && x'.hi - x'.lo > old(x.hi - x.lo))
    {
      var p := x.parent;
      assert Sh().NodeOk(x) && Sh().NodeOk(p);
      var g := p.parent;
      assert Sh().NodeOk(g);
      if p == g.left {
        x' := FixLeftSide(x, p, g, q);
      } else {
        x' := FixRightSide(x, p, g, q);
      }
    }

    /** Restores the red-black invariants after the leaf `x0` was added, uncovering nothing. No node
        joins the search path of the new key. */
    method InsertFixup(x0: MNode)
      requires nil.color == Black && FixState(x0)
      modifies this`root, nodes
      ensures Sh().RedBlackTree() && AllMarkOk()
      ensures Steady(x0.key)
    {
      hide Covered, Starts, Half, Formed, AllMarkOk;
      var x := x0;
      ghost var q := x0.key;
      assert Sh().NodeOk(x);
      while x != root && x.parent.color == Red
        invariant FixState(x) && Steady(q)
        invariant x.In(q) || Settled(x)
        invariant x != root ==> x.parent != null
        invariant Sh().NodeOk(x)
        decreases if Settled(x) then 0 else 1 + (lim.max + 2 - lim.min) - (x.hi - x.lo)
      {
        assert Sh().NodeOk(x);
        x := FixRound(x, q);
        assert Sh().NodeOk(x);
      }
      BlackenRoot(x, q);
      assert x0.key == q;
    }

    /** The last step of `insertFixup` */
    method BlackenRoot(x: MNode, ghost q: int)
      requires FixState(x) && Settled(x) && x in nodes && root in nodes
      modifies root`color, root`bh
      ensures Sh().RedBlackTree() && AllMarkOk() && Steady(q)
    {
      root.bh := if root.color == Red then root.bh + 1 else root.bh;
      root.color := Black;
      FixRoot(Sh(), x);
      SameMarks(q);
    }

    // ----- insertion

    /** The key of the nearest ancestor that has `R` in its left subtree. */
    method RightUp(R: MNode) returns (v: int)
      requires Sh().Linked() && R in nodes
      ensures v == lim.RightUp(R.hi)
    {
      var r := R;
      assert Sh().NodeOk(r);
      while r.parent != null
        invariant r in nodes && r.hi == R.hi && Sh().NodeOk(r)
        decreases (lim.max + 2 - lim.min) - (r.hi - r.lo)
      {
        var p := r.parent;
        assert Sh().NodeOk(p);
        if p.left == r {
          return p.key;
        }
        r := p;
      }
      return lim.max;
    }

    /** The key of the nearest ancestor that has `R` in its right subtree. */
    method LeftUp(R: MNode) returns (v: int)
      requires Sh().Linked() && R in nodes
      ensures v == lim.LeftUp(R.lo)
    {
      var r := R;
      assert Sh().NodeOk(r);
      while r.parent != null
        invariant r in nodes && r.lo == R.lo && Sh().NodeOk(r)
        decreases (lim.max + 2 - lim.min) - (r.hi - r.lo)
      {
        var p := r.parent;
        assert Sh().NodeOk(p);
        if p.right == r {
          return p.key;
        }
        r := p;
      }
      return lim.min;
    }

    /** The marks `addLeft` leaves at a node. */
    function LeftMarked(I: Interval, d: Marks, lo: int, key: int, hi: int): Marks {
      if lo < I.low < hi && I.low <= key then
        Marks(d.less,
              if key < I.high || key == I.low then d.equal + {I} else d.equal,
              if lim.RightUp(hi) <= I.high then d.greater + {I} else d.greater)
      else d
    }

    method MarkLeft(R: MNode, I: Interval)
      requires Sh().Linked() && R in nodes && R.In(I.low) && I.low <= R.key
      modifies R`data
      ensures R.data == LeftMarked(I, old(R.data), R.lo, R.key, R.hi)
    {
      var up := RightUp(R);
      if R.key < I.high || R.key == I.low {
        R.data := R.data.(equal := R.data.equal + {I});
      }
      if up <= I.high {
        R.data := R.data.(greater := R.data.greater + {I});
      }
    }

    ghost function Data(): map<MNode, Marks>
      reads this, nodes
    {
      map n | n in nodes :: n.data
    }

    /** Starting from the marks `d0`, the nodes outside the region `(a, b)` have their new marks. */
    ghost predicate LeftMarkedOutside(I: Interval, d0: map<MNode, Marks>, a: int, b: int)
      reads this, nodes
    {
      d0.Keys == nodes && forall n :: n in nodes ==>
        n.data == if a < n.key < b then d0[n] else LeftMarked(I, d0[n], n.lo, n.key, n.hi)
    }

    /** One step of the descent to the lower endpoint. */
    method StepLeft(I: Interval, R: MNode, parent: Node?<Marks>, ghost d0: map<MNode, Marks>, ghost a: int, ghost b: int)
      returns (R': MNode, ghost a': int, ghost b': int)
      requires Sh().Linked() && Sh().At(I.low, R, parent, a, b) && R != nil && R.key != I.low
      requires LeftMarkedOutside(I, d0, a, b)
      modifies nodes`data
      ensures Sh().Linked() && Sh().At(I.low, R', R, a', b')
      ensures LeftMarkedOutside(I, d0, a', b')
      ensures b' - a' < b - a
    {
      assert Sh().NodeOk(R);
      forall n | n in nodes && R.In(n.key) && n.In(I.low)
        ensures n == R || (n.key < R.key <==> I.low < R.key)
      {
        Sh().DescendPath(I.low, R, n);
      }
      forall n | n in nodes && n != R
        ensures n.key != R.key
      {
        Sh().LaminarPair(n, R);
      }
      a', b' := a, b;
      if R.key < I.low {
        a' := R.key;
        R' := R.right;
      } else {
        MarkLeft(R, I);
        SameLinks(Sh());
        b' := R.key;
        R' := R.left;
      }
    }

    /** Walks down to the node of the lower endpoint, marking on the way. */
    method DescendLeft(I: Interval) returns (R: MNode, parent: Node?<Marks>, ghost a: int, ghost b: int)
      requires Sh().Linked() && lim.Fits(I)
      modifies nodes`data
      ensures Sh().Linked() && Sh().At(I.low, R, parent, a, b) && (R != nil ==> R.key == I.low)
      ensures LeftMarkedOutside(I, old(Data()), a, b)
    {
      R, parent := root, null;
      a, b := lim.min - 1, lim.max + 1;
      assert root != nil ==> Sh().NodeOk(root);
      ghost var d0 := Data();
      forall n | n in nodes
        ensures a < n.key < b
      {
        assert Sh().NodeOk(n);
      }
      while R != nil && R.key != I.low
        invariant Sh().Linked() && Sh().At(I.low, R, parent, a, b)
        invariant LeftMarkedOutside(I, d0, a, b)
        decreases b - a
      {
        assert Sh().NodeOk(R);
        ghost var a', b';
        var R';
        R', a', b' := StepLeft(I, R, parent, d0, a, b);
        R, parent, a, b := R', R, a', b';
      }
    }

    lemma PositionBelow(v: int, parent: Node?<Marks>, a: int, b: int)
      requires Sh().Linked() && lim.min <= v <= lim.max && Sh().At(v, nil, parent, a, b)
      ensures parent == null ==> root == nil && a == lim.min - 1 && b == lim.max + 1
      ensures parent != null ==> parent in nodes && parent.In(v) && v != parent.key
      ensures parent != null ==> if v < parent.key then parent.left == nil && a == parent.lo && b == parent.key
        else parent.right == nil && a == parent.key && b == parent.hi
    {
    }

    /** A new red leaf with key `v` and no marks at the empty position below `parent`. */
    method NewLeaf(v: int, parent: Node?<Marks>, ghost a: int, ghost b: int) returns (x: MNode)
      requires Sh().RedBlackTree() && lim.min <= v <= lim.max && Sh().At(v, nil, parent, a, b) && treeSize == |nodes|
      modifies this`root, this`treeSize, this`nodes, nodes`left, nodes`right
      ensures fresh(x) && nodes == old(nodes) + {x} && treeSize == |nodes|
      ensures Sh().Linked() && Sh().Fixing(x)
      ensures forall k :: k in old(nodes) ==> !(a < k.key < b)
      ensures x.key == v && x.lo == a && x.hi == b && x.data == Marks({}, {}, {}) && x.left == nil && x.right == nil
    {
      forall k | k in nodes
        ensures !(a < k.key < b)
      {
        Sh().EmptyPosition(v, parent, a, b, k);
      }
      PositionBelow(v, parent, a, b);
      hide Shape.RedBlackTree, Shape.Linked, Shape.NodeOk, Shape.At, Shape.Fixing;
      var r;
      r, x := HangLeaf(Sh(), root, nil, parent, v, Marks({}, {}, {}));
      treeSize := treeSize + 1;
      root := r;
      nodes := nodes + {x};
      FixingIsLinked(Sh(), x);
    }

    /** More marks on the same nodes, and perhaps more nodes, uncover nothing. */
    twostate lemma GrownKeeps()
      requires old(nodes) <= nodes && live == old(live) && ever == old(ever)
      requires forall n :: n in old(nodes) ==>
        && n.key == old(n.key) && n.lo == old(n.lo) && n.hi == old(n.hi)
        && old(n.data.less) <= n.data.less && old(n.data.equal) <= n.data.equal && old(n.data.greater) <= n.data.greater
      ensures Kept()
    {
      forall x, m | old(Covered(x, m))
        ensures Covered(x, m)
      {
        var n :| n in old(nodes) && old(n.In(x)) && m in old(n.data.Gives(n.key, x));
        assert n.In(x) && m in n.data.Gives(n.key, x);
      }
    }

    /** Every point of `I` is covered, or lies above every node that is on the search path of the
        lower endpoint and not above the upper endpoint. */
    ghost predicate HalfDone(I: Interval)
      reads this, nodes
    {
      forall x :: I.Hits(x) ==>
        Covered(x, I) || forall n :: n in nodes && n.In(I.low) && n.key <= I.high ==> n.key < x
    }

    /** The marks `d0` are sound for the regions of the nodes. */
    ghost predicate BaseOk(d0: map<MNode, Marks>)
      reads this, nodes
    {
      d0.Keys == nodes && forall n {:trigger d0[n]} :: n in nodes ==>
        d0[n].Sound(lim, n.lo, n.key, n.hi) && d0[n].Only(live, ever, lim, n.key)
    }

    /** The marks of `addLeft` are sound, and complete for what it promises. */
    lemma LeftMarkedOk(I: Interval, d0: map<MNode, Marks>)
      requires Sh().Linked() && lim.Fits(I) && I in live && live <= ever
      requires BaseOk(d0) && LeftMarkedOutside(I, d0, 0, 0)
      ensures AllMarkOk() && LeftDone(I)
    {
      forall n | n in nodes
        ensures MarkOk(n)
      {
        assert Sh().NodeOk(n);
        assert d0[n].Sound(lim, n.lo, n.key, n.hi);
      }
    }

    /** The last step of the descent: the node of the lower endpoint gets its marks. */
    method FinishLeft(I: Interval, R: MNode, ghost d0: map<MNode, Marks>)
      requires Sh().Linked() && R in nodes && R.key == I.low && LeftMarkedOutside(I, d0, R.lo, R.hi)
      modifies R`data
      ensures LeftMarkedOutside(I, d0, 0, 0)
      ensures old(Sh().Fixing(R)) ==> Sh().Fixing(R)
      ensures old(Sh().RedBlackTree()) ==> Sh().RedBlackTree()
    {
      assert Sh().NodeOk(R);
      forall n | n in nodes && n != R && R.In(n.key)
        ensures !n.In(I.low)
      {
        Sh().DescendedPast(I.low, R, n);
      }
      MarkLeft(R, I);
      if old(Sh().Fixing(R)) {
        SameFixing(Sh(), R);
      }
      if old(Sh().RedBlackTree()) {
        SameTree(Sh());
      }
    }

    /** The lower endpoint has no node yet: hang a leaf and mark it. */
    method GrowLeft(I: Interval, parent: Node?<Marks>, ghost d0: map<MNode, Marks>, ghost a: int, ghost b: int)
      returns (x: MNode)
      requires Sh().RedBlackTree() && lim.Fits(I) && Sh().At(I.low, nil, parent, a, b) && treeSize == |nodes|
      requires LeftMarkedOutside(I, d0, a, b)
      modifies this`root, this`treeSize, this`nodes, nodes`left, nodes`right
      ensures fresh(x) && Sh().Fixing(x) && nodes == old(nodes) + {x} && treeSize == |nodes| && x.key == I.low
      ensures x.left == nil && x.right == nil
      ensures LeftMarkedOutside(I, d0[x := Marks({}, {}, {})], 0, 0)
    {
      hide Shape.Fixing, Shape.RedBlackTree, Shape.Linked, Shape.At;
      x := NewLeaf(I.low, parent, a, b);
      FinishLeft(I, x, d0[x := Marks({}, {}, {})]);
    }

    /** Marks the search path of the lower endpoint and makes sure it has a node. */
    method PlaceLeft(I: Interval) returns (x: Node?<Marks>, ghost d0: map<MNode, Marks>)
      requires Sh().RedBlackTree() && lim.Fits(I) && treeSize == |nodes|
      modifies this`root, this`treeSize, this`nodes, nodes`left, nodes`right, nodes`data
      ensures treeSize == |nodes|
      ensures x == null ==> Sh().RedBlackTree() && nodes == old(nodes) && d0 == old(Data())
      ensures x != null ==> fresh(x) && Sh().Fixing(x) && nodes == old(nodes) + {x}
      ensures x != null ==> x.left == nil && x.right == nil
      ensures x != null ==> x.key == I.low && d0 == old(Data())[x := Marks({}, {}, {})]
      ensures LeftMarkedOutside(I, d0, 0, 0)
      ensures HasNode(I.low)
    {
      d0 := Data();
      var R, parent;
      ghost var a, b;
      R, parent, a, b := DescendLeft(I);
      SameTree(Sh());
      if R == nil {
        x := GrowLeft(I, parent, d0, a, b);
        d0 := d0[x := Marks({}, {}, {})];
      } else {
        x := null;
        FinishLeft(I, R, d0);
      }
    }

    /** Marks that were sound and have only been added to, on nodes that have not moved. */
    twostate lemma BaseOkFromOld(new d0: map<MNode, Marks>)
      requires old(nodes) <= nodes && live == old(live) && ever == old(ever) && old(AllMarkOk()) && d0.Keys == nodes
      requires forall n :: n in old(nodes) ==>
        n.key == old(n.key) && n.lo == old(n.lo) && n.hi == old(n.hi) && d0[n] == old(n.data)
      requires forall n :: n in nodes && n !in old(nodes) ==> d0[n] == Marks({}, {}, {})
      ensures BaseOk(d0)
    {
      forall n | n in nodes
        ensures d0[n].Sound(lim, n.lo, n.key, n.hi) && d0[n].Only(live, ever, lim, n.key)
      {
        if n in old(nodes) {
          assert old(MarkOk(n));
        }
      }
    }

    twostate lemma PlacedLeft(new I: Interval, new x: Node?<Marks>, new d0: map<MNode, Marks>)
      requires old(nodes) <= nodes && live == old(live) && ever == old(ever) && old(AllMarkOk()) && d0.Keys == nodes
      requires forall n :: n in old(nodes) ==>
        n.key == old(n.key) && n.lo == old(n.lo) && n.hi == old(n.hi) && d0[n] == old(n.data) && n != x
      requires forall n :: n in nodes && n !in old(nodes) ==>
        d0[n] == Marks({}, {}, {}) && n == x && x.left == nil && x.right == nil
      requires Sh().Linked() && lim.Fits(I) && I in live && live <= ever && LeftMarkedOutside(I, d0, 0, 0)
      requires HasNode(I.low)
      ensures Placed(I, x) && (lim.Inside(I) && old(Tight(I)) ==> Half(I))
      ensures Kept() && AllMarkOk() && LeftDone(I)
    {
      BaseOkFromOld(d0);
      LeftMarkedOk(I, d0);
      GrownKeeps();
      LeftForm(I, x, d0);
    }

    /** Growing the tree by a leaf and marking `I` changes neither the marks nor the paths of others. */
    twostate lemma PlacedForm(new I: Interval, new x: Node?<Marks>, new m: Interval)
      requires m != I && old(Formed(m)) && Placed(I, x)
      ensures Formed(m)
    {
      var l :| l in nodes && l in old(nodes) && l.key == m.low;
      var h :| h in nodes && h in old(nodes) && h.key == m.high;
      forall n | n in nodes
        ensures n.data.TightAt(n.lo, n.hi, m) && n.data.LeftDoneAt(lim, n.lo, n.key, n.hi, m)
        ensures n.data.RightDoneAt(lim, n.lo, n.key, n.hi, m)
      {
        if n == x {
          LeafRegion(n, l);
          LeafRegion(n, h);
        } else {
          assert n in old(nodes);
          assert old(n.data.TightAt(n.lo, n.hi, m));
        }
      }
    }

    twostate lemma OthersFormed(new I: Interval, new x: Node?<Marks>)
      requires Placed(I, x)
      ensures forall m {:trigger Formed(m)} :: m != I && old(Formed(m)) ==> Formed(m)
    {
      forall m | m != I && old(Formed(m))
        ensures Formed(m)
      {
        PlacedForm(I, x, m);
      }
    }

    /** The nodes are those of before and perhaps the leaf `x`; only marks of `I` were added. */
    twostate predicate Placed(new I: Interval, new x: Node?<Marks>)
      reads this, nodes
    {
      && old(nodes) <= nodes && Sh().Linked()
      && (forall n :: n in nodes && n !in old(nodes) ==> n == x && x.left == nil && x.right == nil)
      && (forall n :: n in old(nodes) ==>
            n.key == old(n.key) && n.lo == old(n.lo) && n.hi == old(n.hi) && n != x)
      && (forall n, m :: n in old(nodes) && m != I ==>
            && (m in n.data.less <==> m in old(n.data.less))
            && (m in n.data.equal <==> m in old(n.data.equal))
            && (m in n.data.greater <==> m in old(n.data.greater)))
      && (forall n, m :: n in nodes && n !in old(nodes) && m != I ==>
            m !in n.data.less && m !in n.data.equal && m !in n.data.greater)
    }

    twostate lemma LeftForm(new I: Interval, new x: Node?<Marks>, new d0: map<MNode, Marks>)
      requires old(nodes) <= nodes && Sh().Linked() && d0.Keys == nodes && LeftMarkedOutside(I, d0, 0, 0)
      requires forall n :: n in old(nodes) ==>
        n.key == old(n.key) && n.lo == old(n.lo) && n.hi == old(n.hi) && d0[n] == old(n.data) && n != x
      requires forall n :: n in nodes && n !in old(nodes) ==>
        d0[n] == Marks({}, {}, {}) && n == x && x.left == nil && x.right == nil
      requires lim.Fits(I) && LeftDone(I) && HasNode(I.low)
      ensures Placed(I, x) && (lim.Inside(I) && old(Tight(I)) ==> Half(I))
    {
      forall n | n in nodes
        ensures n.data == LeftMarked(I, d0[n], n.lo, n.key, n.hi)
        ensures old(Tight(I)) ==> n.data.TightAt(n.lo, n.hi, I)
      {
        assert Sh().NodeOk(n);
        assert n in old(nodes) && old(Tight(I)) ==> old(n.data.TightAt(n.lo, n.hi, I));
      }
    }

    /** `addLeft`: covers nothing less than before, and keeps every mark sound. */
    method AddLeft(I: Interval) returns (x: Node?<Marks>)
      requires Sh().RedBlackTree() && treeSize == |nodes|
      requires lim.Fits(I) && I in live && live <= ever && AllMarkOk()
      modifies this`root, this`treeSize, this`nodes, nodes`left, nodes`right, nodes`data
      ensures fresh(nodes - old(nodes)) && treeSize == |nodes|
      ensures Kept() && AllMarkOk() && LeftDone(I) && Sh().Linked()
      ensures Placed(I, x) && (lim.Inside(I) && old(Tight(I)) ==> Half(I))
      ensures HasNode(I.low)
      ensures x == null ==> Sh().RedBlackTree() && nodes == old(nodes)
      ensures x != null ==> fresh(x) && Sh().Fixing(x) && x.key == I.low && nodes == old(nodes) + {x}
      ensures x != null ==> x.left == nil && x.right == nil
    {
      hide Shape.Fixing, Shape.RedBlackTree, Covered, Starts, Half, Formed, Tight, Placed;
      ghost var d0;
      x, d0 := PlaceLeft(I);
      PlacedLeft(I, x, d0);
    }

    /** The marks `addRight` leaves at a node. */
    function RightMarked(I: Interval, d: Marks, lo: int, key: int, hi: int): Marks {
      if lo < I.high < hi && key <= I.high then
        Marks(if lim.LeftUp(lo) >= I.low then d.less + {I} else d.less,
              if I.low < key < I.high then d.equal + {I} else d.equal,
              d.greater)
      else d
    }

    method MarkRight(R: MNode, I: Interval)
      requires Sh().Linked() && R in nodes && R.In(I.high) && R.key <= I.high
      modifies R`data
      ensures R.data == RightMarked(I, old(R.data), R.lo, R.key, R.hi)
    {
      var up := LeftUp(R);
      if I.low < R.key < I.high {
        R.data := R.data.(equal := R.data.equal + {I});
      }
      if up >= I.low {
        R.data := R.data.(less := R.data.less + {I});
      }
    }

    /** Starting from the marks `d0`, the nodes outside the region `(a, b)` have their new marks. */
    ghost predicate RightMarkedOutside(I: Interval, d0: map<MNode, Marks>, a: int, b: int)
      reads this, nodes
    {
      d0.Keys == nodes && forall n :: n in nodes ==>
        n.data == if a < n.key < b then d0[n] else RightMarked(I, d0[n], n.lo, n.key, n.hi)
    }

    /** One step of the descent to the upper endpoint. */
    method StepRight(I: Interval, R: MNode, parent: Node?<Marks>, ghost d0: map<MNode, Marks>, ghost a: int, ghost b: int)
      returns (R': MNode, ghost a': int, ghost b': int)
      requires Sh().Linked() && Sh().At(I.high, R, parent, a, b) && R != nil && R.key != I.high
      requires RightMarkedOutside(I, d0, a, b)
      modifies nodes`data
      ensures Sh().Linked() && Sh().At(I.high, R', R, a', b')
      ensures RightMarkedOutside(I, d0, a', b')
      ensures b' - a' < b - a
    {
      assert Sh().NodeOk(R);
      forall n | n in nodes && R.In(n.key) && n.In(I.high)
        ensures n == R || (n.key < R.key <==> I.high < R.key)
      {
        Sh().DescendPath(I.high, R, n);
      }
      forall n | n in nodes && n != R
        ensures n.key != R.key
      {
        Sh().LaminarPair(n, R);
      }
      a', b' := a, b;
      if R.key < I.high {
        MarkRight(R, I);
        SameLinks(Sh());
        a' := R.key;
        R' := R.right;
      } else {
        b' := R.key;
        R' := R.left;
      }
    }

    /** Walks down to the node of the upper endpoint, marking on the way. */
    method DescendRight(I: Interval) returns (R: MNode, parent: Node?<Marks>, ghost a: int, ghost b: int)
      requires Sh().Linked() && lim.Fits(I)
      modifies nodes`data
      ensures Sh().Linked() && Sh().At(I.high, R, parent, a, b) && (R != nil ==> R.key == I.high)
      ensures RightMarkedOutside(I, old(Data()), a, b)
    {
      R, parent := root, null;
      a, b := lim.min - 1, lim.max + 1;
      assert root != nil ==> Sh().NodeOk(root);
      ghost var d0 := Data();
      forall n | n in nodes
        ensures a < n.key < b
      {
        assert Sh().NodeOk(n);
      }
      while R != nil && R.key != I.high
        invariant Sh().Linked() && Sh().At(I.high, R, parent, a, b)
        invariant RightMarkedOutside(I, d0, a, b)
        decreases b - a
      {
        assert Sh().NodeOk(R);
        ghost var a', b';
        var R';
        R', a', b' := StepRight(I, R, parent, d0, a, b);
        R, parent, a, b := R', R, a', b';
      }
    }

    /** The marks of `addRight` are sound, and complete for what it promises. */
    lemma RightMarkedOk(I: Interval, d0: map<MNode, Marks>)
      requires Sh().Linked() && lim.Fits(I) && I in live && live <= ever
      requires BaseOk(d0) && RightMarkedOutside(I, d0, 0, 0)
      ensures AllMarkOk() && RightDone(I)
    {
      forall n | n in nodes
        ensures MarkOk(n)
      {
        assert Sh().NodeOk(n);
        assert d0[n].Sound(lim, n.lo, n.key, n.hi);
      }
    }

    /** The last step of the descent: the node of the upper endpoint gets its marks. */
    method FinishRight(I: Interval, R: MNode, ghost d0: map<MNode, Marks>)
      requires Sh().Linked() && R in nodes && R.key == I.high && RightMarkedOutside(I, d0, R.lo, R.hi)
      modifies R`data
      ensures RightMarkedOutside(I, d0, 0, 0)
      ensures old(Sh().Fixing(R)) ==> Sh().Fixing(R)
      ensures old(Sh().RedBlackTree()) ==> Sh().RedBlackTree()
    {
      assert Sh().NodeOk(R);
      forall n | n in nodes && n != R && R.In(n.key)
        ensures !n.In(I.high)
      {
        Sh().DescendedPast(I.high, R, n);
      }
      MarkRight(R, I);
      if old(Sh().Fixing(R)) {
        SameFixing(Sh(), R);
      }
      if old(Sh().RedBlackTree()) {
        SameTree(Sh());
      }
    }

    /** The upper endpoint has no node yet: hang a leaf and mark it. */
    method GrowRight(I: Interval, parent: Node?<Marks>, ghost d0: map<MNode, Marks>, ghost a: int, ghost b: int)
      returns (x: MNode)
      requires Sh().RedBlackTree() && lim.Fits(I) && Sh().At(I.high, nil, parent, a, b) && treeSize == |nodes|
      requires RightMarkedOutside(I, d0, a, b)
      modifies this`root, this`treeSize, this`nodes, nodes`left, nodes`right
      ensures fresh(x) && Sh().Fixing(x) && nodes == old(nodes) + {x} && treeSize == |nodes| && x.key == I.high
      ensures x.left == nil && x.right == nil
      ensures RightMarkedOutside(I, d0[x := Marks({}, {}, {})], 0, 0)
    {
      hide Shape.Fixing, Shape.RedBlackTree, Shape.Linked, Shape.At;
      x := NewLeaf(I.high, parent, a, b);
      FinishRight(I, x, d0[x := Marks({}, {}, {})]);
    }

    /** Marks the search path of the upper endpoint and makes sure it has a node. */
    method PlaceRight(I: Interval) returns (x: Node?<Marks>, ghost d0: map<MNode, Marks>)
      requires Sh().RedBlackTree() && lim.Fits(I) && treeSize == |nodes|
      modifies this`root, this`treeSize, this`nodes, nodes`left, nodes`right, nodes`data
      ensures treeSize == |nodes|
      ensures x == null ==> Sh().RedBlackTree() && nodes == old(nodes) && d0 == old(Data())
      ensures x != null ==> fresh(x) && Sh().Fixing(x) && nodes == old(nodes) + {x}
      ensures x != null ==> x.left == nil && x.right == nil
      ensures x != null ==> x.key == I.high && d0 == old(Data())[x := Marks({}, {}, {})]
      ensures RightMarkedOutside(I, d0, 0, 0)
      ensures HasNode(I.high)
    {
      d0 := Data();
      var R, parent;
      ghost var a, b;
      R, parent, a, b := DescendRight(I);
      SameTree(Sh());
      if R == nil {
        x := GrowRight(I, parent, d0, a, b);
        d0 := d0[x := Marks({}, {}, {})];
      } else {
        x := null;
        FinishRight(I, R, d0);
      }
    }

    twostate lemma PlacedRight(new I: Interval, new x: Node?<Marks>, new d0: map<MNode, Marks>)
      requires old(nodes) <= nodes && live == old(live) && ever == old(ever) && old(AllMarkOk()) && d0.Keys == nodes
      requires forall n :: n in old(nodes) ==>
        n.key == old(n.key) && n.lo == old(n.lo) && n.hi == old(n.hi) && d0[n] == old(n.data) && n != x
      requires forall n :: n in nodes && n !in old(nodes) ==>
        d0[n] == Marks({}, {}, {}) && n == x && x.left == nil && x.right == nil
      requires Sh().Linked() && lim.Fits(I) && I in live && live <= ever && RightMarkedOutside(I, d0, 0, 0)
      requires HasNode(I.high)
      ensures Placed(I, x) && (old(Half(I)) ==> Formed(I))
      ensures Kept() && AllMarkOk() && RightDone(I)
    {
      BaseOkFromOld(d0);
      RightMarkedOk(I, d0);
      GrownKeeps();
      RightForm(I, x, d0);
    }

    twostate lemma RightForm(new I: Interval, new x: Node?<Marks>, new d0: map<MNode, Marks>)
      requires old(nodes) <= nodes && Sh().Linked() && d0.Keys == nodes && RightMarkedOutside(I, d0, 0, 0)
      requires forall n :: n in old(nodes) ==>
        n.key == old(n.key) && n.lo == old(n.lo) && n.hi == old(n.hi) && d0[n] == old(n.data) && n != x
      requires forall n :: n in nodes && n !in old(nodes) ==>
        d0[n] == Marks({}, {}, {}) && n == x && x.left == nil && x.right == nil
      requires lim.Fits(I) && RightDone(I) && HasNode(I.high)
      ensures Placed(I, x) && (old(Half(I)) ==> Formed(I))
    {
      forall n | n in nodes
        ensures n.data == RightMarked(I, d0[n], n.lo, n.key, n.hi)
        ensures old(Half(I)) ==> n.data.TightAt(n.lo, n.hi, I) && n.data.LeftDoneAt(lim, n.lo, n.key, n.hi, I)
      {
        assert Sh().NodeOk(n);
        if old(Half(I)) {
          var l :| l in nodes && l in old(nodes) && l.key == I.low;
          if n == x {
            LeafRegion(n, l);
          } else {
            assert old(n.data.TightAt(n.lo, n.hi, I)) && old(n.data.LeftDoneAt(lim, n.lo, n.key, n.hi, I));
          }
        }
      }
    }

    /** `addRight`: covers nothing less than before, and keeps every mark sound. */
    method AddRight(I: Interval) returns (x: Node?<Marks>)
      requires Sh().RedBlackTree() && treeSize == |nodes|
      requires lim.Fits(I) && I in live && live <= ever && AllMarkOk()
      modifies this`root, this`treeSize, this`nodes, nodes`left, nodes`right, nodes`data
      ensures fresh(nodes - old(nodes)) && treeSize == |nodes|
      ensures Kept() && AllMarkOk() && RightDone(I) && Sh().Linked()
      ensures Placed(I, x) && (old(Half(I)) ==> Formed(I))
      ensures HasNode(I.high)
      ensures x == null ==> Sh().RedBlackTree() && nodes == old(nodes)
      ensures x != null ==> fresh(x) && Sh().Fixing(x) && x.key == I.high && nodes == old(nodes) + {x}
      ensures x != null ==> x.left == nil && x.right == nil
    {
      hide Shape.Fixing, Shape.RedBlackTree, Covered, Starts, Half, Formed, Tight, Placed;
      ghost var d0;
      x, d0 := PlaceRight(I);
      PlacedRight(I, x, d0);
    }

    // ----- the two halves meet

    /** Climbs from a node below `x` on the path of the lower endpoint to one that covers `x`. */
    lemma {:induction false} ClimbToCover(I: Interval, x: int, c: MNode, n: MNode)
      requires Sh().Linked() && LeftDone(I) && I.low < x < I.high <= lim.max
      requires c in nodes && c.In(I.low) && c.hi <= x
      requires n in nodes && n.In(I.low) && x <= n.key <= I.high
      ensures Covered(x, I)
      decreases (lim.max + 2 - lim.min) - (c.hi - c.lo), 0
    {
      assert Sh().NodeOk(c);
      var p := c.parent;
      assert Sh().NodeOk(p);
      if c == p.left {
        CoverAt(I, x, p, n);
      } else {
        ClimbToCover(I, x, p, n);
      }
    }

    lemma {:induction false} CoverAt(I: Interval, x: int, q: MNode, n: MNode)
      requires Sh().Linked() && LeftDone(I) && I.low < x < I.high <= lim.max
      requires q in nodes && q.In(I.low) && I.low <= q.key <= x
      requires n in nodes && n.In(I.low) && x <= n.key <= I.high
      ensures Covered(x, I)
      decreases (lim.max + 2 - lim.min) - (q.hi - q.lo), 1
    {
      assert Sh().NodeOk(q) && Sh().NodeOk(n);
      if q.key == x {
        assert I in q.data.Gives(q.key, x);
      } else if x < q.hi {
        Sh().LaminarPair(n, q);
        assert q.hi <= n.key;
        assert q.In(x) && I in q.data.Gives(q.key, x);
      } else {
        ClimbToCover(I, x, q, n);
      }
    }

    /** What `addLeft` leaves behind is the half-inserted state. */
    lemma LeftDoneIsHalfDone(I: Interval)
      requires Sh().Linked() && LeftDone(I) && lim.Fits(I) && HasNode(I.low)
      ensures HalfDone(I)
    {
      var l :| l in nodes && l.key == I.low;
      assert Sh().NodeOk(l);
      forall x | I.Hits(x)
        ensures Covered(x, I) || forall n :: n in nodes && n.In(I.low) && n.key <= I.high ==> n.key < x
      {
        if x == I.low {
          assert l.In(x) && I in l.data.Gives(l.key, x);
        } else if n :| n in nodes && n.In(I.low) && n.key <= I.high && n.key >= x {
          CoverAt(I, x, l, n);
        }
      }
    }

    /** The half-inserted state survives rebalancing, because coverage does and no node joins the
        search path of the lower endpoint. */
    twostate lemma HalfDoneKept(new I: Interval)
      requires old(HalfDone(I)) && Kept() && PathShrinks(I.low)
      ensures HalfDone(I)
    {
      forall x | I.Hits(x)
        ensures Covered(x, I) || forall n :: n in nodes && n.In(I.low) && n.key <= I.high ==> n.key < x
      {
        assert old(Covered(x, I)) ==> Covered(x, I);
      }
    }

    /** ... and the second half, whose new leaf is not on that path. */
    twostate lemma HalfDoneGrown(new I: Interval)
      requires old(HalfDone(I)) && Kept() && old(nodes) <= nodes
      requires forall n :: n in old(nodes) ==> n.key == old(n.key) && n.lo == old(n.lo) && n.hi == old(n.hi)
      requires forall n :: n in nodes && n !in old(nodes) ==> !n.In(I.low)
      ensures HalfDone(I)
    {
      forall x | I.Hits(x)
        ensures Covered(x, I) || forall n :: n in nodes && n.In(I.low) && n.key <= I.high ==> n.key < x
      {
        assert old(Covered(x, I)) ==> Covered(x, I);
      }
    }

    /** The search paths of `x` and of the upper endpoint part at a node between the two. */
    lemma {:induction false} PathsPart(x: int, v: int, c: MNode) returns (z: MNode)
      requires Sh().Linked() && lim.min <= x < v <= lim.max
      requires c in nodes && c.In(v) && (x <= c.key <= v || x <= c.lo)
      ensures z in nodes && z.In(x) && z.In(v) && x <= z.key <= v
      decreases (lim.max + 2 - lim.min) - (c.hi - c.lo)
    {
      assert Sh().NodeOk(c);
      if c.In(x) {
        return c;
      }
      var p := c.parent;
      assert Sh().NodeOk(p);
      z := PathsPart(x, v, p);
    }

    /** Together the two halves cover the interval. */
    lemma HalvesMeet(I: Interval)
      requires Sh().Linked() && HalfDone(I) && RightDone(I) && lim.Fits(I)
      requires HasNode(I.low) && HasNode(I.high)
      ensures Complete(I)
    {
      var l :| l in nodes && l.key == I.low;
      var h :| h in nodes && h.key == I.high;
      assert Sh().NodeOk(l) && Sh().NodeOk(h);
      forall x | I.Hits(x)
        ensures Covered(x, I)
      {
        if l.key < x < I.high {
          var z := PathsPart(x, I.high, h);
          if I !in z.data.Gives(z.key, x) {
            assert z.In(I.low) && x <= z.key <= I.high;
          }
        }
      }
    }

    /** Other intervals stay complete as long as nothing is uncovered. */
    twostate lemma KeptInv(new pending: set<Interval>)
      requires old(MarksInv(pending)) && Kept() && AllMarkOk()
      requires forall m {:trigger Formed(m)} :: m !in pending && old(Formed(m)) ==> Formed(m)
      ensures MarksInv(pending)
    {
      forall m | m in live && m !in pending
        ensures Complete(m) && Starts(m)
      {
        assert old(Complete(m)) && old(Starts(m));
        forall x | m.Hits(x)
          ensures Covered(x, m)
        {
          assert old(Covered(x, m));
        }
      }
    }

    /** The first half of `insert` before its rebalancing. */
    method PlaceLow(I: Interval) returns (x: Node?<Marks>)
      requires Sh().RedBlackTree() && MarksInv({I}) && I in live && treeSize == |nodes|
      requires lim.Inside(I) ==> Tight(I)
      modifies this`root, this`treeSize, this`nodes, nodes`left, nodes`right, nodes`data
      ensures MarksInv({I}) && treeSize == |nodes| && HasNode(I.low) && HalfDone(I) && Starts(I)
      ensures lim.Inside(I) ==> Half(I)
      ensures fresh(nodes - old(nodes)) && Ends() == old(Ends()) + {I.low} && Kept()
      ensures x == null ==> Sh().RedBlackTree()
      ensures x != null ==> x in nodes && Sh().Fixing(x) && x.key == I.low
      ensures old(nodes) == {} && I.low < I.high == lim.max ==> Covered(lim.max, I)
    {
      hide Shape.Fixing, Shape.RedBlackTree, Covered, Complete, Shape.Linked, HalfDone, Starts, Half, Formed, Tight, LeftDone, Placed;
      x := AddLeft(I);
      LeftDoneStarts(I);
      OthersFormed(I, x);
      if old(nodes) == {} && I.low < I.high == lim.max {
        LoneLeafReachesTop(I);
      }
      KeptInv({I});
      assert Ends() == old(Ends()) + {I.low};
    }

    /** The first half of `insert`, with its rebalancing. */
    method InsertLow(I: Interval)
      requires nil.color == Black && Sh().RedBlackTree() && MarksInv({I}) && I in live && treeSize == |nodes|
      requires lim.Inside(I) ==> Tight(I)
      modifies this`root, this`treeSize, this`nodes, nodes
      ensures nil.color == Black && Sh().RedBlackTree() && MarksInv({I}) && live == old(live) && ever == old(ever) && treeSize == |nodes|
      ensures fresh(nodes - old(nodes)) && HasNode(I.low) && Ends() == old(Ends()) + {I.low}
      ensures HalfDone(I) && Starts(I) && Kept()
      ensures lim.Inside(I) ==> Half(I)
      ensures old(nodes) == {} && I.low < I.high == lim.max ==> Covered(lim.max, I)
    {
      assert nil !in nodes;
      hide Shape.Fixing, Shape.RedBlackTree, Covered, Complete, Shape.Linked, HalfDone, Starts, Half, Formed;
      var x := PlaceLow(I);
      if x != null {
        label L:
        InsertFixup(x);
        KeptInv@L({I});
        HalfDoneKept@L(I);
        assert Ends() == old@L(Ends());
      }
    }

    /** In a tree of one node the region of the node is unbounded above. */
    lemma LoneLeafReachesTop(I: Interval)
      requires Sh().Linked() && LeftDone(I) && lim.Fits(I) && HasNode(I.low) && |nodes| <= 1
      requires I.low < I.high == lim.max
      ensures Covered(lim.max, I)
    {
      var l :| l in nodes && l.key == I.low;
      assert nodes == {l} by {
        if k :| k in nodes && k != l {
          assert {l, k} <= nodes && |{l, k}| == 2;
          SubsetCount({l, k}, nodes);
        }
      }
      assert Sh().NodeOk(l);
      assert l.In(lim.max) && I in l.data.Gives(l.key, lim.max);
    }

    lemma LeftDoneStarts(I: Interval)
      requires Sh().Linked() && LeftDone(I) && lim.Fits(I) && HasNode(I.low)
      ensures HalfDone(I) && Starts(I)
    {
      LeftDoneIsHalfDone(I);
      var l :| l in nodes && l.key == I.low;
      assert Sh().NodeOk(l);
    }

    /** The region of a leaf holds no key but its own. */
    lemma LeafRegion(x: MNode, k: MNode)
      requires Sh().Linked() && x in nodes && x.left == nil && x.right == nil && k in nodes && k != x
      ensures !x.In(k.key)
    {
      Sh().LaminarPair(x, k);
      if x.In(k.key) {
        Sh().GapIsEmpty(x, k);
      }
    }

    /** The second half of `insert` before its rebalancing: every live interval is complete. */
    method PlaceHigh(I: Interval) returns (x: Node?<Marks>)
      requires Sh().RedBlackTree() && MarksInv({I}) && I in live && treeSize == |nodes|
      requires HasNode(I.low) && HalfDone(I) && Starts(I) && (lim.Inside(I) ==> Half(I))
      modifies this`root, this`treeSize, this`nodes, nodes`left, nodes`right, nodes`data
      ensures MarksInv({}) && treeSize == |nodes|
      ensures fresh(nodes - old(nodes)) && Ends() == old(Ends()) + {I.high} && Kept()
      ensures x == null ==> Sh().RedBlackTree()
      ensures x != null ==> x in nodes && Sh().Fixing(x)
    {
      hide Shape.Fixing, Shape.RedBlackTree, Covered, Complete, Shape.Linked, HalfDone, Starts, Half, Formed, Placed;
      ghost var l :| l in nodes && l.key == I.low;
      x := AddRight(I);
      OthersFormed(I, x);
      if x != null {
        LeafRegion(x, l);
      }
      HalfDoneGrown(I);
      HalvesMeet(I);
      KeptInv({I});
      assert Ends() == old(Ends()) + {I.high};
    }

    /** The second half of `insert`, with its rebalancing. */
    method InsertHigh(I: Interval)
      requires nil.color == Black && Sh().RedBlackTree() && MarksInv({I}) && I in live && treeSize == |nodes|
      requires HasNode(I.low) && HalfDone(I) && Starts(I) && (lim.Inside(I) ==> Half(I))
      modifies this`root, this`treeSize, this`nodes, nodes
      ensures nil.color == Black && Sh().RedBlackTree() && MarksInv({}) && live == old(live) && ever == old(ever) && treeSize == |nodes|
      ensures fresh(nodes - old(nodes)) && Ends() == old(Ends()) + {I.high} && Kept()
    {
      assert nil !in nodes;
      hide Shape.Fixing, Shape.RedBlackTree, Covered, Complete, Shape.Linked, HalfDone, Starts, Half, Formed;
      var x := PlaceHigh(I);
      if x != null {
        label L:
        InsertFixup(x);
        KeptInv@L({});
        assert Ends() == old@L(Ends());
      }
    }

    /** Both halves, for an interval that is live already. */
    method InsertHalves(I: Interval)
      requires nil.color == Black && Sh().RedBlackTree() && MarksInv({I}) && I in live && treeSize == |nodes|
      requires lim.Inside(I) ==> Tight(I)
      modifies this`root, this`treeSize, this`nodes, nodes
      ensures nil.color == Black && Sh().RedBlackTree() && MarksInv({}) && live == old(live) && ever == old(ever) && treeSize == |nodes|
      ensures fresh(nodes - old(nodes)) && Ends() == old(Ends()) + {I.low, I.high}
      ensures old(nodes) == {} && I.low < I.high == lim.max ==> Covered(lim.max, I)
    {
      hide Shape.RedBlackTree, MarksInv, Tight, Half, HalfDone, Starts, Covered, HasNode, Ends;
      InsertLow(I);
      InsertHigh(I);
    }

    /** `insert`: afterwards `I` is live and everything else is as it was. */
    method Insert(I: Interval)
      requires Valid() && lim.Fits(I)
      modifies this, nodes
      ensures Valid() && fresh(nodes - old(nodes))
      ensures live == old(live) + {I} && ever == old(ever) + {I}
      ensures Ends() == old(Ends()) + {I.low, I.high}
      ensures old(nodes) == {} && I.low < I.high == lim.max ==> I in Stab(lim.max)
    {
      if lim.Inside(I) {
        StartsTight(I);
      }
      hide Shape.RedBlackTree, MarksInv, Tight, Covered;
      live, ever := live + {I}, ever + {I};
      Announced(I);
      assert Ends() == old(Ends());
      InsertHalves(I);
    }

    /** Only live intervals are marked, up to those that reach a limit of the type. */
    lemma StartsTight(m: Interval)
      requires Valid() && lim.Inside(m)
      ensures Tight(m)
    {
      if m !in live {
        forall n | n in nodes
          ensures m !in n.data.less && m !in n.data.equal && m !in n.data.greater
        {
          assert Sh().NodeOk(n) && MarkOk(n);
        }
      } else {
        assert Formed(m);
      }
    }

    /** The new interval is live before it is marked. */
    twostate lemma Announced(new I: Interval)
      requires nodes == old(nodes) && unchanged(nodes) && old(MarksInv({})) && lim.Fits(I)
      requires live == old(live) + {I} && ever == old(ever) + {I}
      ensures MarksInv({I}) && (old(Tight(I)) ==> Tight(I))
    {
      MoreLive();
      forall m | m in live && m != I
        ensures Complete(m) && Starts(m) && (lim.Inside(m) ==> Formed(m))
      {
        assert old(Complete(m)) && old(Starts(m)) && (lim.Inside(m) ==> old(Formed(m)));
      }
    }

    /** Marks that are sound stay sound when more intervals are live. */
    twostate lemma MoreLive()
      requires nodes == old(nodes) && unchanged(nodes) && old(live) <= live && old(ever) <= ever
      requires old(AllMarkOk())
      ensures AllMarkOk() && forall m :: (old(Complete(m)) ==> Complete(m)) && (old(Starts(m)) ==> Starts(m))
      ensures FormKept() && forall m :: old(Tight(m)) ==> Tight(m)
    {
      forall m | old(Formed(m))
        ensures Formed(m)
      {
        SameForm(m);
      }
      forall n | n in nodes
        ensures MarkOk(n)
      {
        assert old(MarkOk(n));
      }
      forall m, x | old(Covered(x, m))
        ensures Covered(x, m)
      {
        var n :| n in nodes && old(n.In(x)) && m in old(n.data.Gives(n.key, x));
        assert n.In(x);
      }
    }

    // ----- queries

    /** What the marks on the search path of `x` name. */
    ghost function Stab(x: int): set<Interval>
      reads this, nodes
    {
      set m | m in ever && Covered(x, m)
    }

    /** No live interval reaches up to the greatest value of the type. */
    ghost predicate TopIsFree()
      reads this
    {
      forall m <- live :: m.high < lim.max || m.low == m.high
    }

    /** The stabbing answer is exact below the greatest value of the type, and there as well unless
        an interval ends at that value. It never misses an interval. */
    lemma StabIsContaining(x: int)
      requires Valid() && lim.min <= x <= lim.max
      ensures Containing(live, x) <= Stab(x)
      ensures forall m <- Stab(x) :: m in live && lim.Claims(m, x)
      ensures x < lim.max || TopIsFree() ==> Stab(x) == Containing(live, x)
    {
      forall m | m in Stab(x)
        ensures m in live && lim.Claims(m, x)
        ensures x < lim.max || TopIsFree() ==> m in Containing(live, x)
      {
        var n :| n in nodes && n.In(x) && m in n.data.Gives(n.key, x);
        assert Sh().NodeOk(n) && MarkOk(n);
        GivesIsSound(lim, n.data, n.lo, n.key, n.hi, x, m);
      }
      forall m | m in Containing(live, x)
        ensures m in Stab(x)
      {
        assert Complete(m);
      }
    }

    /** The point query: every mark met on the search path of `x`. */
    method FindIntervals(x: int, S0: set<Interval>) returns (S: set<Interval>)
      requires Sh().Linked() && AllMarkOk() && lim.min <= x <= lim.max
      ensures S == S0 + Stab(x)
    {
      S := S0;
      var R := root;
      ghost var parent: Node?<Marks> := null;
      ghost var a, b := lim.min - 1, lim.max + 1;
      forall n | n in nodes
        ensures a < n.key < b
      {
        assert Sh().NodeOk(n);
      }
      assert root != nil ==> Sh().NodeOk(root);
      while R != nil
        invariant Sh().At(x, R, parent, a, b)
        invariant S0 <= S <= S0 + Stab(x)
        invariant forall n :: n in nodes && n.In(x) && !(a < n.key < b) ==> n.data.Gives(n.key, x) <= S
        decreases b - a
      {
        assert Sh().NodeOk(R) && MarkOk(R);
        assert R.data.Gives(R.key, x) <= Stab(x) by {
          assert forall m <- R.data.Gives(R.key, x) :: m in ever && Covered(x, m);
        }
        forall n | n in nodes && R.In(n.key) && n.In(x)
          ensures n == R || (R.key != x && n.key != R.key && (n.key < R.key <==> x < R.key))
        {
          StepPath(x, R, n);
        }
        parent := R;
        if x == R.key {
          S := S + R.data.equal;
          assert forall n :: n in nodes && n.In(x) ==> n.data.Gives(n.key, x) <= S;
          return;
        } else if x < R.key {
          S := S + R.data.less;
          b := R.key;
          R := R.left;
        } else {
          S := S + R.data.greater;
          a := R.key;
          R := R.right;
        }
      }
      forall n | n in nodes
        ensures !(a < n.key < b)
      {
        Sh().EmptyPosition(x, parent, a, b, n);
      }
    }

    lemma StepPath(x: int, R: MNode, n: MNode)
      requires Sh().Linked() && R in nodes && n in nodes && R.In(x) && n.In(x) && R.In(n.key)
      ensures n == R || (R.key != x && n.key != R.key && (n.key < R.key <==> x < R.key))
    {
      Sh().LaminarPair(R, n);
      if R.key == x {
        if n != R {
          Sh().DescendedPast(x, R, n);
        }
      } else {
        Sh().DescendPath(x, R, n);
      }
    }

    /** `find` for a point. */
    method FindPoint(x: int, S0: set<Interval>) returns (found: int, S: set<Interval>)
      requires Valid() && lim.min <= x <= lim.max
      ensures S0 + Containing(live, x) <= S && found == |S| - |S0|
      ensures forall m <- S :: m in S0 || (m in live && lim.Claims(m, x))
      ensures x < lim.max || TopIsFree() ==> S == S0 + Containing(live, x)
      ensures S == S0 + Stab(x)
    {
      StabIsContaining(x);
      S := FindIntervals(x, S0);
      found := |S| - |S0|;
    }

    /** The one query whose answer the marks may overstate. */
    ghost predicate AtTop(I: Interval) {
      I.low == I.high == lim.max
    }

    /** What an interval query reports: the overlapping intervals, or for a query of length zero what the
        point query reports. */
    ghost function Reported(I: Interval): set<Interval>
      reads this, nodes
    {
      if I.low == I.high then Stab(I.low) else Overlapping(live, I)
    }

    /** Apart from the one query, the two are the same. */
    lemma ReportedIsOverlapping(I: Interval)
      requires Valid() && lim.Fits(I)
      ensures Overlapping(live, I) <= Reported(I)
      ensures !AtTop(I) || TopIsFree() ==> Reported(I) == Overlapping(live, I)
      ensures forall m <- Reported(I) :: m in live && (m.Overlaps(I) || lim.Claims(m, I.low))
    {
      if I.low == I.high {
        StabIsContaining(I.low);
        assert forall m: Interval :: m.Hits(I.low) <==> m.Overlaps(I);
      }
    }

    /** The marks an interval query takes at a node it visits. */
    lemma TakenOverlap(I: Interval, R: MNode, m: Interval)
      requires Sh().Linked() && AllMarkOk() && lim.Fits(I) && R in nodes && R.lo < I.high && I.low < R.hi
      requires || (I.low < R.key && m in R.data.less)
               || (R.key < I.high && m in R.data.greater)
               || (I.Hits(R.key) && m in R.data.equal)
      ensures m in Reported(I)
    {
      assert Sh().NodeOk(R) && MarkOk(R);
      if I.low == I.high {
        assert m in R.data.Gives(R.key, I.low);
      } else {
        var x := if I.Hits(R.key) && m in R.data.equal then R.key
                 else if m.low < I.low then I.low else m.low;
        assert I.Hits(x) && m.Hits(x);
      }
    }

    /** `S` holds every mark met at a point of `I` by a node whose key lies in `(a, b)`. */
    ghost predicate Collected(I: Interval, S: set<Interval>, a: int, b: int)
      reads this, nodes
    {
      forall n, x :: n in nodes && a < n.key < b && n.In(x) && I.Hits(x) ==> n.data.Gives(n.key, x) <= S
    }

    /** The part of the interval query that deals with the keys below `R`. */
    method FindBelow(I: Interval, R: MNode, S0: set<Interval>) returns (S: set<Interval>)
      requires Sh().Linked() && AllMarkOk() && lim.Fits(I) && R in nodes && R.lo < I.high && I.low < R.hi
      ensures S0 <= S <= S0 + Reported(I) && Collected(I, S, R.lo, R.key)
      ensures I.low < R.key ==> R.data.less <= S
      decreases R.hi - R.lo, 0
    {
      assert Sh().NodeOk(R) && (R.left != nil ==> Sh().NodeOk(R.left));
      forall n, x | n in nodes && R.lo < n.key < R.key && n.In(x)
        ensures R.left != nil && x < R.key
      {
        VisitedPart(R, n, x);
      }
      S := S0;
      if I.low < R.key {
        forall m | m in R.data.less
          ensures m in Reported(I)
        {
          TakenOverlap(I, R, m);
        }
        hide Shape.Linked, Shape.NodeOk, AllMarkOk, Reported;
        S := S + R.data.less;
        S := FindIntervalsIn(I, R.left, S);
      }
    }

    /** The part of the interval query that deals with the keys above `R`. */
    method FindAbove(I: Interval, R: MNode, S0: set<Interval>) returns (S: set<Interval>)
      requires Sh().Linked() && AllMarkOk() && lim.Fits(I) && R in nodes && R.lo < I.high && I.low < R.hi
      ensures S0 <= S <= S0 + Reported(I) && Collected(I, S, R.key, R.hi)
      ensures I.high > R.key ==> R.data.greater <= S
      decreases R.hi - R.lo, 0
    {
      assert Sh().NodeOk(R) && (R.right != nil ==> Sh().NodeOk(R.right));
      forall n, x | n in nodes && R.key < n.key < R.hi && n.In(x)
        ensures R.right != nil && x > R.key
      {
        VisitedPart(R, n, x);
      }
      S := S0;
      if I.low > R.key || I.high > R.key {
        forall m | m in R.data.greater
          ensures m in Reported(I)
        {
          TakenOverlap(I, R, m);
        }
        hide Shape.Linked, Shape.NodeOk, AllMarkOk, Reported;
        S := S + R.data.greater;
        S := FindIntervalsIn(I, R.right, S);
      }
    }

    /** The interval query: takes whole mark sets, and visits only subtrees the query reaches. */
    method FindIntervalsIn(I: Interval, R: MNode, S0: set<Interval>) returns (S: set<Interval>)
      requires Sh().Linked() && AllMarkOk() && lim.Fits(I)
      requires R != nil ==> R in nodes && R.lo < I.high && I.low < R.hi
      ensures S0 <= S <= S0 + Reported(I)
      ensures R != nil ==> Collected(I, S, R.lo, R.hi)
      decreases if R == nil then 0 else R.hi - R.lo, 1
    {
      S := S0;
      if R == nil {
        return;
      }
      S := FindBelow(I, R, S);
      S := FindAbove(I, R, S);
      forall m | I.Hits(R.key) && m in R.data.equal
        ensures m in Reported(I)
      {
        TakenOverlap(I, R, m);
      }
      forall n | n in nodes && n.key == R.key
        ensures n == R
      {
        Sh().LaminarPair(R, n);
      }
      hide Shape.Linked, Shape.NodeOk, AllMarkOk, Reported;
      if I.low <= R.key && I.high > R.key {
        S := S + R.data.equal;
      } else if I.low == R.key && I.high == R.key {
        S := S + R.data.equal;
      }
    }

    lemma VisitedPart(R: MNode, n: MNode, x: int)
      requires Sh().Linked() && R in nodes && n in nodes && R.In(n.key) && n.In(x)
      ensures Sh().NodeOk(R)
      ensures n == R || (n.key < R.key && R.left != nil && x < R.key) || (n.key > R.key && R.right != nil && x > R.key)
    {
      Sh().LaminarPair(R, n);
      Sh().GapIsEmpty(R, n);
      assert Sh().NodeOk(R) && Sh().NodeOk(n);
    }

    /** `find` for an interval; a query of length zero is a point query. */
    method FindOverlapping(I: Interval, S0: set<Interval>) returns (found: int, S: set<Interval>)
      requires Valid() && lim.Fits(I)
      ensures S0 + Overlapping(live, I) <= S && found == |S| - |S0|
      ensures forall m <- S :: m in S0 || (m in live && (m.Overlaps(I) || lim.Claims(m, I.low)))
      ensures !AtTop(I) || TopIsFree() ==> S == S0 + Overlapping(live, I)
      ensures I.low == I.high ==> S == S0 + Stab(I.low)
    {
      ReportedIsOverlapping(I);
      assert I.low == I.high ==> Reported(I) == Stab(I.low);
      assert root != nil ==> Sh().NodeOk(root);
      hide Valid, Reported, Overlapping, Stab;
      S := FindIntervalsIn(I, root, S0);
      found := |S| - |S0|;
      forall m | m in Reported(I)
        ensures m in S
      {
        var n, x := HitBy(I, m);
        assert m in n.data.Gives(n.key, x);
      }
    }

    /** A point of the query at which a reported interval is met, and where. */
    lemma HitBy(I: Interval, m: Interval) returns (n: MNode, x: int)
      requires Valid() && lim.Fits(I) && m in Reported(I)
      ensures I.Hits(x) && root != nil && n in nodes && root.In(n.key) && n.In(x) && m in n.data.Gives(n.key, x)
    {
      if I.low == I.high {
        x := I.low;
      } else {
        assert Complete(m);
        x :| m.Hits(x) && I.Hits(x);
      }
      n :| n in nodes && n.In(x) && m in n.data.Gives(n.key, x);
      assert Sh().NodeOk(n) && Sh().NodeOk(root);
    }

    // ----- removal

    /** What `removeInterval` erases at a node it visits. */
    static function Erased(r: Interval, d: Marks, key: int): Marks {
      Marks(if r.low < key then d.less - {r} else d.less,
            if r.Hits(key) then d.equal - {r} else d.equal,
            if r.low > key || r.high > key then d.greater - {r} else d.greater)
    }

    /** A subtree the removal skips holds no mark to erase. */
    lemma SkippedHasNone(r: Interval, R: MNode, n: MNode)
      requires Sh().Linked() && AllSound() && lim.Fits(r) && R in nodes && n in nodes
      requires (n.key < R.key && !(r.low < R.key)) || (n.key > R.key && !(r.low > R.key || r.high > R.key))
      ensures Erased(r, n.data, n.key) == n.data
    {
      assert Sh().NodeOk(n) && n.data.Sound(lim, n.lo, n.key, n.hi);
    }

    method SetMarks(R: MNode, d: Marks)
      requires Sh().Linked() && AllSound() && R in nodes
      requires d.less <= R.data.less && d.equal <= R.data.equal && d.greater <= R.data.greater
      modifies R`data
      ensures Sh().Linked() && AllSound() && R.data == d
    {
      assert R.data.Sound(lim, R.lo, R.key, R.hi);
      R.data := d;
      SameLinks(Sh());
    }

    lemma SkipsBelow(r: Interval, R: MNode)
      requires Sh().Linked() && AllSound() && lim.Fits(r) && R in nodes
      ensures forall n :: n in nodes && R.lo < n.key < R.key ==>
        R.left != nil && (!(r.low < R.key) ==> Erased(r, n.data, n.key) == n.data)
    {
      assert Sh().NodeOk(R);
      forall n | n in nodes && R.lo < n.key < R.key
        ensures R.left != nil && (!(r.low < R.key) ==> Erased(r, n.data, n.key) == n.data)
      {
        Sh().GapIsEmpty(R, n);
        if !(r.low < R.key) {
          SkippedHasNone(r, R, n);
        }
      }
    }

    /** The part of `removeInterval` that deals with the keys below `R`. */
    method RemoveBelow(R: MNode, r: Interval)
      requires Sh().Linked() && AllSound() && lim.Fits(r) && R in nodes
      modifies nodes`data
      ensures Sh().Linked() && AllSound()
      ensures R.data == old(R.data).(less := Erased(r, old(R.data), R.key).less)
      ensures forall n :: n in nodes && n != R ==>
        n.data == if R.lo < n.key < R.key then Erased(r, old(n.data), n.key) else old(n.data)
      decreases R.hi - R.lo, 0
    {
      SkipsBelow(r, R);
      assert Sh().NodeOk(R) && (R.left != nil ==> Sh().NodeOk(R.left));
      hide Shape.Linked, Shape.NodeOk, AllSound, Erased;
      if r.low < R.key {
        SetMarks(R, R.data.(less := R.data.less - {r}));
        RemoveInterval(R.left, r);
      }
    }

    lemma SkipsAbove(r: Interval, R: MNode)
      requires Sh().Linked() && AllSound() && lim.Fits(r) && R in nodes
      ensures forall n :: n in nodes && R.key < n.key < R.hi ==>
        R.right != nil && (!(r.low > R.key || r.high > R.key) ==> Erased(r, n.data, n.key) == n.data)
    {
      assert Sh().NodeOk(R);
      forall n | n in nodes && R.key < n.key < R.hi
        ensures R.right != nil && (!(r.low > R.key || r.high > R.key) ==> Erased(r, n.data, n.key) == n.data)
      {
        Sh().GapIsEmpty(R, n);
        if !(r.low > R.key || r.high > R.key) {
          SkippedHasNone(r, R, n);
        }
      }
    }

    /** The part of `removeInterval` that deals with the keys above `R`. */
    method RemoveAbove(R: MNode, r: Interval)
      requires Sh().Linked() && AllSound() && lim.Fits(r) && R in nodes
      modifies nodes`data
      ensures Sh().Linked() && AllSound()
      ensures R.data == old(R.data).(greater := Erased(r, old(R.data), R.key).greater)
      ensures forall n :: n in nodes && n != R ==>
        n.data == if R.key < n.key < R.hi then Erased(r, old(n.data), n.key) else old(n.data)
      decreases R.hi - R.lo, 0
    {
      SkipsAbove(r, R);
      assert Sh().NodeOk(R) && (R.right != nil ==> Sh().NodeOk(R.right));
      hide Shape.Linked, Shape.NodeOk, AllSound, Erased;
      if r.low > R.key || r.high > R.key {
        SetMarks(R, R.data.(greater := R.data.greater - {r}));
        RemoveInterval(R.right, r);
      }
    }

    method EraseEqual(R: MNode, r: Interval)
      requires Sh().Linked() && AllSound() && R in nodes && lim.Fits(r)
      modifies R`data
      ensures Sh().Linked() && AllSound()
      ensures R.data == old(R.data).(equal := Erased(r, old(R.data), R.key).equal)
    {
      if r.low <= R.key && r.high > R.key {
        SetMarks(R, R.data.(equal := R.data.equal - {r}));
      } else if r.low == R.key && r.high == R.key {
        SetMarks(R, R.data.(equal := R.data.equal - {r}));
      }
    }

    static lemma ErasedByParts(r: Interval, d: Marks, key: int)
      ensures var d1 := d.(less := Erased(r, d, key).less);
        var d2 := d1.(greater := Erased(r, d1, key).greater);
        d2.(equal := Erased(r, d2, key).equal) == Erased(r, d, key)
    {
    }

    lemma OtherKeys(R: MNode)
      requires Sh().Linked() && R in nodes
      ensures R.lo < R.key < R.hi && forall n :: n in nodes && n != R ==> n.key != R.key
    {
      assert Sh().NodeOk(R);
      forall n | n in nodes && n != R
        ensures n.key != R.key
      {
        Sh().LaminarPair(R, n);
      }
    }

    method RemoveInterval(R: MNode, r: Interval)
      requires Sh().Linked() && AllSound() && lim.Fits(r) && (R != nil ==> R in nodes)
      modifies nodes`data
      ensures Sh().Linked() && AllSound()
      ensures forall n :: n in nodes ==>
        n.data == if R != nil && R.In(n.key) then Erased(r, old(n.data), n.key) else old(n.data)
      decreases if R == nil then 0 else R.hi - R.lo, 1
    {
      if R == nil {
        return;
      }
      hide Shape.Linked, Shape.NodeOk, AllSound, Erased;
      OtherKeys(R);
      ErasedByParts(r, R.data, R.key);
      RemoveBelow(R, r);
      label A:
      RemoveAbove(R, r);
      label B:
      EraseEqual(R, r);
      forall n | n in nodes
        ensures n.data == if R.In(n.key) then Erased(r, old(n.data), n.key) else old(n.data)
      {
        if n != R {
          assert n.data == old@B(n.data);
          assert n.key < R.key ==> n.data == old@A(n.data);
          assert n.key > R.key ==> old@A(n.data) == old(n.data);
        }
      }
    }

    /** Nothing but the marks of `r` is gone. */
    twostate lemma ErasedKeeps(new r: Interval, new m: Interval)
      requires m != r && nodes == old(nodes)
      requires forall n :: n in nodes ==>
        && n.key == old(n.key) && n.lo == old(n.lo) && n.hi == old(n.hi) && n.data == Erased(r, old(n.data), n.key)
      ensures (old(Complete(m)) ==> Complete(m)) && (old(Starts(m)) ==> Starts(m))
    {
      if old(Complete(m)) {
        forall x | m.Hits(x)
          ensures Covered(x, m)
        {
          assert old(Covered(x, m));
          var n :| n in nodes && old(n.In(x)) && m in old(n.data.Gives(n.key, x));
          assert n.In(x) && m in n.data.Gives(n.key, x);
        }
      }
      if old(Starts(m)) && m.low > lim.min {
        var n :| n in nodes && n.key == m.low && m in old(n.data.equal);
        assert m in n.data.equal;
      }
    }

    twostate lemma ErasedForm(new r: Interval, new m: Interval)
      requires m != r && nodes == old(nodes) && old(Formed(m))
      requires forall n :: n in nodes ==>
        && n.key == old(n.key) && n.lo == old(n.lo) && n.hi == old(n.hi) && n.data == Erased(r, old(n.data), n.key)
      ensures Formed(m)
    {
      SameKeys();
      forall n | n in nodes
        ensures n.data.TightAt(n.lo, n.hi, m) && n.data.LeftDoneAt(lim, n.lo, n.key, n.hi, m)
        ensures n.data.RightDoneAt(lim, n.lo, n.key, n.hi, m)
      {
        assert old(n.data.TightAt(n.lo, n.hi, m)) && old(n.data.LeftDoneAt(lim, n.lo, n.key, n.hi, m));
      }
    }

    twostate lemma ErasedKept(new r: Interval, new n: MNode)
      requires n in nodes && nodes == old(nodes) && old(MarkOk(n)) && lim.Fits(r) && ever == old(ever)
      requires n.lo == old(n.lo) < n.key == old(n.key) < n.hi == old(n.hi) && lim.min <= n.key <= lim.max
      requires live == old(live) - {r} && n.data == Erased(r, old(n.data), n.key)
      ensures MarkOk(n)
      ensures lim.min < r.low && r.high < lim.max ==>
        r !in n.data.less && r !in n.data.equal && r !in n.data.greater
    {
    }

    twostate lemma ErasedInv(new r: Interval)
      requires old(MarksInv({})) && Sh().Linked() && lim.Fits(r)
      requires nodes == old(nodes) && live == old(live) - {r} && ever == old(ever)
      requires forall n :: n in nodes ==>
        && n.key == old(n.key) && n.lo == old(n.lo) && n.hi == old(n.hi) && n.data == Erased(r, old(n.data), n.key)
      ensures MarksInv({})
      ensures lim.min < r.low && r.high < lim.max ==>
        forall n :: n in nodes ==> r !in n.data.less && r !in n.data.equal && r !in n.data.greater
    {
      hide Covered, Starts, Complete, Formed, Erased;
      forall n | n in nodes
        ensures MarkOk(n)
        ensures lim.min < r.low && r.high < lim.max ==>
          r !in n.data.less && r !in n.data.equal && r !in n.data.greater
      {
        assert old(MarkOk(n)) && Sh().NodeOk(n);
        ErasedKept(r, n);
      }
      forall m | m in live
        ensures Complete(m) && Starts(m) && (lim.Inside(m) ==> Formed(m))
      {
        assert old(Complete(m)) && old(Starts(m));
        ErasedKeeps(r, m);
        if lim.Inside(m) {
          assert old(Formed(m));
          ErasedForm(r, m);
        }
      }
    }

    method EraseAll(r: Interval)
      requires Sh().RedBlackTree() && AllMarkOk() && lim.Fits(r)
      modifies nodes`data
      ensures Sh().RedBlackTree() && Sh().Linked()
      ensures forall n :: n in nodes ==> n.data == Erased(r, old(n.data), n.key)
    {
      forall n | n in nodes
        ensures Sh().lo < n.key < Sh().hi && n.data.Sound(lim, n.lo, n.key, n.hi)
      {
        assert Sh().NodeOk(n) && MarkOk(n);
      }
      assert root != nil ==> Sh().NodeOk(root);
      RemoveInterval(root, r);
      SameTree(Sh());
    }

    /** `remove`: afterwards `r` is not live and everything else is as it was. No mark of `r` is left
        anywhere, except possibly inert ones at the two extreme values of the type. */
    method Remove(r: Interval)
      requires Valid() && lim.Fits(r)
      modifies this`live, nodes`data
      ensures Valid() && live == old(live) - {r}
      ensures lim.min < r.low && r.high < lim.max ==>
        forall n :: n in nodes ==> r !in n.data.less && r !in n.data.equal && r !in n.data.greater
    {
      hide Shape.RedBlackTree;
      EraseAll(r);
      live := live - {r};
      assert Sh().Linked();
      ErasedInv(r);
    }

    /** `clear` */
    method Clear()
      requires Valid()
      modifies this
      ensures Valid() && nodes == {} && live == {} && ever == {} && treeSize == 0
    {
      forall m | m in live
        ensures nodes != {}
      {
        assert Complete(m) && m.Hits(m.low);
        assert Covered(m.low, m);
      }
      nodes, live, ever := {}, {}, {};
      if root == nil {
        return;
      }
      root := nil;
      treeSize := 0;
    }

    // ----- size and height

    /** `treeSize` is the number of distinct endpoints, and the height is logarithmic in it. */
    lemma SizeAndHeight()
      requires Valid()
      ensures treeSize == |Ends()|
      ensures Pow2(Sh().Height(root)) <= (treeSize + 1) * (treeSize + 1)
    {
      Sh().HeightIsLogarithmic();
      forall n, k | n in nodes && k in nodes && n.key == k.key
        ensures n == k
      {
        Sh().LaminarPair(n, k);
      }
      KeysCount(nodes);
    }

    lemma {:induction false} KeysCount(s: set<MNode>)
      requires forall n, k :: n in s && k in s && n.key == k.key ==> n == k
      ensures |Keys(s)| == |s|
    {
      if s != {} {
        var n :| n in s;
        KeysCount(s - {n});
        assert Keys(s) == Keys(s - {n}) + {n.key};
        assert n.key !in Keys(s - {n});
      }
    }

    // ----- the form and the number of the marks

    /** The shape of the tree alone determines where a live interval is marked, whatever the history of
        insertions, removals and rotations. */
    lemma MarksDetermined(m: Interval, n: MNode)
      requires Valid() && m in live && lim.Inside(m) && n in nodes
      ensures m in n.data.less <==> n.In(m.high) && m.low <= lim.LeftUp(n.lo) && n.key <= m.high
      ensures m in n.data.equal <==> (n.In(m.low) || n.In(m.high)) && m.Hits(n.key)
      ensures m in n.data.greater <==> n.In(m.low) && m.low <= n.key && lim.RightUp(n.hi) <= m.high
    {
      assert Formed(m);
      assert Sh().NodeOk(n) && MarkOk(n);
      assert n.data.TightAt(n.lo, n.hi, m) && n.data.LeftDoneAt(lim, n.lo, n.key, n.hi, m);
      assert n.data.RightDoneAt(lim, n.lo, n.key, n.hi, m);
    }

    /** The three kinds of marks of all nodes */
    ghost function Lesses(): map<MNode, set<Interval>>
      reads this, nodes
    {
      map n | n in nodes :: n.data.less
    }

    ghost function Equals(): map<MNode, set<Interval>>
      reads this, nodes
    {
      map n | n in nodes :: n.data.equal
    }

    ghost function Greaters(): map<MNode, set<Interval>>
      reads this, nodes
    {
      map n | n in nodes :: n.data.greater
    }

    /** The number of marks at the nodes of `ns` */
    ghost function MarkCount(ns: set<MNode>): nat
      requires ns <= nodes
      reads this, nodes
    {
      |Pairs(Lesses(), ns)| + |Pairs(Equals(), ns)| + |Pairs(Greaters(), ns)|
    }

    /** The number of marks that name `m` */
    ghost function MarksNaming(m: Interval): nat
      reads this, nodes
    {
      |Column(Lesses(), m)| + |Column(Equals(), m)| + |Column(Greaters(), m)|
    }

    lemma MarkCountUnion(a: set<MNode>, b: set<MNode>)
      requires a <= nodes && b <= nodes && a !! b
      ensures MarkCount(a + b) == MarkCount(a) + MarkCount(b)
    {
      PairsUnion(Lesses(), a, b);
      PairsUnion(Equals(), a, b);
      PairsUnion(Greaters(), a, b);
    }

    lemma EmptyCount()
      ensures MarkCount({}) == 0
    {
      assert Pairs(Lesses(), {}) == {} && Pairs(Equals(), {}) == {} && Pairs(Greaters(), {}) == {};
    }

    lemma MarkCountAt(n: MNode)
      requires n in nodes
      ensures MarkCount({n}) == |n.data.less| + |n.data.equal| + |n.data.greater|
    {
      PairsRow(Lesses(), n);
      PairsRow(Equals(), n);
      PairsRow(Greaters(), n);
    }

    lemma MarkCountBelow(R: MNode)
      requires Sh().Linked() && R in nodes
      ensures Sh().NodeOk(R) && Sh().Below(R) <= nodes && Sh().Below(R.left) <= nodes && Sh().Below(R.right) <= nodes
      ensures MarkCount(Sh().Below(R)) == |R.data.less| + |R.data.equal| + |R.data.greater|
        + MarkCount(Sh().Below(R.left)) + MarkCount(Sh().Below(R.right))
    {
      assert Sh().NodeOk(R);
      var a, b := Sh().Below(R.left), Sh().Below(R.right);
      forall k | k in a
        ensures k in nodes && k.key < R.key
      {
        Sh().BelowInRegion(R.left, k);
      }
      forall k | k in b
        ensures k in nodes && k.key > R.key
      {
        Sh().BelowInRegion(R.right, k);
      }
      hide MarkCount;
      MarkCountAt(R);
      MarkCountUnion({R}, a);
      MarkCountUnion({R} + a, b);
    }

    /** `CountMarks` of a subtree */
    method CountMarksBelow(R: MNode) returns (count: nat)
      requires Sh().Linked() && (R == nil || R in nodes)
      ensures Sh().Below(R) <= nodes && count == MarkCount(Sh().Below(R))
      decreases if R == nil then 0 else R.hi - R.lo
    {
      hide MarkCount;
      if R == nil {
        EmptyCount();
        return 0;
      }
      MarkCountBelow(R);
      assert (R.left != nil ==> Sh().NodeOk(R.left)) && (R.right != nil ==> Sh().NodeOk(R.right));
      hide Shape.Linked, Shape.NodeOk, Shape.Below;
      var l := CountMarksBelow(R.left);
      var r := CountMarksBelow(R.right);
      return |R.data.less| + |R.data.greater| + |R.data.equal| + l + r;
    }

    /** Each kind of mark of a live interval is on one of its two search paths. */
    lemma MarkedOnPaths(m: Interval)
      requires Valid() && m in live && lim.Inside(m)
      ensures Column(Lesses(), m) <= Sh().OnPath(m.high, nodes)
      ensures Column(Equals(), m) <= Sh().OnPath(m.low, nodes) + Sh().OnPath(m.high, nodes)
      ensures Column(Greaters(), m) <= Sh().OnPath(m.low, nodes)
    {
      assert Formed(m);
      assert forall n :: n in nodes ==> n.data.TightAt(n.lo, n.hi, m);
    }

    /** So it is marked at most four times the height of the tree. */
    lemma FewMarks(m: Interval)
      requires Valid() && m in live && lim.Inside(m)
      ensures |Column(Lesses(), m)| <= Sh().Height(root) && |Column(Greaters(), m)| <= Sh().Height(root)
      ensures |Column(Equals(), m)| <= 2 * Sh().Height(root)
      ensures MarksNaming(m) <= 4 * Sh().Height(root)
    {
      var low, high := Sh().OnPath(m.low, nodes), Sh().OnPath(m.high, nodes);
      MarkedOnPaths(m);
      Sh().PathIsShort(m.low);
      Sh().PathIsShort(m.high);
      SubsetCount(Column(Lesses(), m), high);
      SubsetCount(Column(Greaters(), m), low);
      SubsetCount(Column(Equals(), m), low + high);
    }

    /** No mark is left of an interval that was removed. */
    lemma MarkedAreLive(n: MNode)
      requires Valid() && n in nodes && forall m <- ever :: lim.Inside(m)
      ensures n.data.less <= live && n.data.equal <= live && n.data.greater <= live
    {
      assert Sh().NodeOk(n) && MarkOk(n);
    }

    static lemma ColumnsBound(a: map<MNode, set<Interval>>, b: map<MNode, set<Interval>>, c: map<MNode, set<Interval>>,
                              ms: set<Interval>, h: nat)
      requires forall n <- a :: a[n] <= ms
      requires forall n <- b :: b[n] <= ms
      requires forall n <- c :: c[n] <= ms
      requires forall m <- ms :: |Column(a, m)| <= h && |Column(b, m)| <= 2 * h && |Column(c, m)| <= h
      ensures |Pairs(a, a.Keys)| + |Pairs(b, b.Keys)| + |Pairs(c, c.Keys)| <= |ms| * (4 * h)
    {
      PairsColumns(a, ms, h);
      PairsColumns(b, ms, 2 * h);
      PairsColumns(c, ms, h);
      assert |ms| * (4 * h) == |ms| * h + |ms| * (2 * h) + |ms| * h;
    }

    /** The storage bound: at most `4 * N * h` marks for `N` live intervals in a tree of height `h`,
        which is logarithmic. */
    lemma StorageBound()
      requires Valid() && forall m <- ever :: lim.Inside(m)
      ensures MarkCount(nodes) <= |live| * (4 * Sh().Height(root))
      ensures Pow2(Sh().Height(root)) <= (|Ends()| + 1) * (|Ends()| + 1)
    {
      SizeAndHeight();
      forall n | n in nodes
        ensures n.data.less <= live && n.data.equal <= live && n.data.greater <= live
      {
        MarkedAreLive(n);
      }
      var h := Sh().Height(root);
      forall m | m in live
        ensures |Column(Lesses(), m)| <= h && |Column(Equals(), m)| <= 2 * h && |Column(Greaters(), m)| <= h
      {
        FewMarks(m);
      }
      assert Lesses().Keys == nodes && Equals().Keys == nodes && Greaters().Keys == nodes;
      hide Valid, Column, Pairs, Shape.Linked, Shape.Height;
      ColumnsBound(Lesses(), Equals(), Greaters(), live, h);
    }

    /** `CountMarks` */
    method CountMarks() returns (count: nat)
      requires Sh().Linked()
      ensures count == MarkCount(nodes)
    {
      Sh().BelowRootIsAll();
      hide MarkCount, Shape.NodeOk;
      count := CountMarksBelow(root);
    }

    // ----- successor

    /** `v` is the least endpoint above `x` that has a node. */
    ghost predicate NextEnd(x: int, v: int)
      reads this, nodes
    {
      v in Ends() && x < v && forall e <- Ends() :: x < e ==> v <= e
    }

    /** The intervals that start there */
    ghost function AtNextEnd(x: int): set<Interval>
      reads this, nodes
    {
      set m | m in live && NextEnd(x, m.low)
    }

    /** The pending nodes of the traversal, the least on top: each one lies in the left subtree of the
        one below it. */
    ghost predicate Pending(pend: seq<MNode>)
      reads this, nodes
    {
      && (forall i :: 0 <= i < |pend| ==> pend[i] in nodes)
      && (forall i :: 0 < i < |pend| ==> pend[i].hi == pend[i - 1].key)
      && (pend != [] ==> pend[0].hi == lim.max + 1)
    }

    /** The subtree `n` with region `(a, b)` holds exactly the keys between `a` and the top of `pend`. */
    ghost predicate Traversing(n: MNode, a: int, b: int, pend: seq<MNode>)
      reads this, nodes, n
    {
      && (n != nil ==> n in nodes && n.lo == a && n.hi == b)
      && (n == nil ==> forall k :: k in nodes ==> !(a < k.key < b))
      && Pending(pend)
      && b == (if pend == [] then lim.max + 1 else pend[|pend| - 1].key)
    }

    /** The intervals starting at a node above the least value are in its `equal` set. */
    lemma StartingAt(n: MNode)
      requires Valid() && n in nodes && n.key > lim.min
      ensures forall m :: m in live && m.low == n.key <==> m in n.data.equal && m.low == n.key
    {
      assert MarkOk(n);
      forall m | m in live && m.low == n.key
        ensures m in n.data.equal
      {
        assert Starts(m);
        var k :| k in nodes && k.key == m.low && m in k.data.equal;
        Sh().LaminarPair(n, k);
      }
    }

    /** One step down. */
    lemma DownOk(n: MNode, a: int, b: int, pend: seq<MNode>)
      requires Sh().Linked() && Traversing(n, a, b, pend) && n != nil
      ensures Sh().NodeOk(n) && a < n.key < b && n in nodes && n.left != null && n.right != null
      ensures Traversing(n.right, n.key, b, pend)
      ensures Traversing(n.left, a, n.key, pend + [n])
    {
      assert Sh().NodeOk(n);
      forall k | k in nodes && n.In(k.key)
        ensures k.key < n.key ==> n.left != nil
        ensures k.key > n.key ==> n.right != nil
      {
        Sh().GapIsEmpty(n, k);
      }
    }

    /** One step back up. */
    lemma DropLast(last: MNode, a: int, b: int, pend: seq<MNode>)
      requires Sh().Linked() && Traversing(nil, a, b, pend) && pend != [] && last == pend[|pend| - 1]
      ensures Sh().NodeOk(last) && last.key == b < last.hi <= lim.max + 1 && last.right != null
      ensures Traversing(last.right, last.key, last.hi, pend[..|pend| - 1])
    {
      assert Sh().NodeOk(last);
      forall k | k in nodes && last.In(k.key)
        ensures k.key > last.key ==> last.right != nil
      {
        Sh().GapIsEmpty(last, k);
      }
    }

    lemma StartHasNode(m: Interval)
      requires Valid() && m in live && m.low > lim.min
      ensures HasNode(m.low)
    {
      assert Starts(m);
    }

    /** No live interval starts above `x` and up to `low`. */
    ghost predicate NoneBetween(x: int, low: int)
      reads this
    {
      forall m <- live :: m.low > x ==> m.low > low
    }

    /** What the traversal finds at the next pending node. */
    lemma Examined(x: int, low: int, a: int, b: int, last: MNode, pend: seq<MNode>, T: set<Interval>)
      requires Valid() && Traversing(nil, a, b, pend) && pend != [] && last == pend[|pend| - 1]
      requires a <= low < b && lim.min <= x <= low
      requires NoneBetween(x, low)
      requires T == set m | m in last.data.equal && m.low == last.key
      ensures T != {} ==> T == NextStarting(live, x)
      ensures T == {} ==> NoneBetween(x, last.key)
      ensures low == x ==> T == AtNextEnd(x)
    {
      StartingAt(last);
      forall m | m in live && m.low > x
        ensures m.low >= last.key
      {
        StartHasNode(m);
      }
      if low == x {
        assert NextEnd(x, last.key);
        assert forall v :: NextEnd(x, v) ==> v == last.key;
      }
    }

    /** The pending nodes are the stack with the last node on top. */
    ghost predicate Stacked(last: MNode, stack: seq<MNode>, pend: seq<MNode>) {
      && pend == (if last == nil then [] else stack + [last])
      && (last == nil ==> stack == [])
      && nil !in stack
    }

    lemma StackTop(last: MNode, stack: seq<MNode>, pend: seq<MNode>)
      requires Stacked(last, stack, pend)
      ensures if last == nil then pend == [] else pend != [] && last == pend[|pend| - 1]
    {
    }

    method Pop(last: MNode, stack: seq<MNode>, ghost pend: seq<MNode>) returns (last': MNode, stack': seq<MNode>, ghost pend': seq<MNode>)
      requires last != nil && Stacked(last, stack, pend)
      ensures pend != [] && pend' == pend[..|pend| - 1] && Stacked(last', stack', pend')
    {
      pend' := stack;
      if stack != [] {
        last', stack' := stack[|stack| - 1], stack[..|stack| - 1];
      } else {
        last', stack' := nil, [];
      }
    }

    method Push(last: MNode, stack: seq<MNode>, ghost pend: seq<MNode>, n: MNode) returns (stack': seq<MNode>, ghost pend': seq<MNode>)
      requires n != nil && Stacked(last, stack, pend)
      ensures pend' == pend + [n] && Stacked(n, stack', pend')
    {
      stack' := stack;
      if last != nil {
        stack' := stack + [last];
      }
      pend' := stack' + [n];
    }

    /** From an empty set, the next starting intervals; otherwise only those at the next endpoint */
    ghost function Successive(x: int, S0: set<Interval>): set<Interval>
      reads this, nodes
    {
      if S0 == {} then NextStarting(live, x) else S0 + AtNextEnd(x)
    }

    lemma Finished(x: int, low: int, S0: set<Interval>, T: set<Interval>)
      requires T != {} ==> T == NextStarting(live, x)
      requires low == x ==> T == AtNextEnd(x)
      requires S0 != {} ==> low == x
      requires T == {} ==> S0 != {} || NextStarting(live, x) == {}
      ensures S0 + T == Successive(x, S0)
    {
    }

    /** The traversal stands at `n`; everything up to `w.low` was seen. */
    ghost predicate Walking(x: int, n: MNode, last: MNode, stack: seq<MNode>, w: Walk)
      reads this, nodes, n
    {
      && Stacked(last, stack, w.pend)
      && Traversing(n, w.a, w.b, w.pend)
      && w.a <= w.low < w.b <= lim.max + 1
      && x <= w.low
      && (w.low == x || w.a == w.low)
      && NoneBetween(x, w.low)
    }

    method Examine(x: int, last: MNode, ghost stack: seq<MNode>, ghost w: Walk) returns (T: set<Interval>)
      requires Valid() && lim.min <= x && last != nil && Walking(x, nil, last, stack, w)
      ensures T != {} ==> T == NextStarting(live, x)
      ensures T == {} ==> NoneBetween(x, last.key)
      ensures w.low == x ==> T == AtNextEnd(x)
    {
      StackTop(last, stack, w.pend);
      T := set m | m in last.data.equal && m.low == last.key;
      Examined(x, w.low, w.a, w.b, last, w.pend, T);
    }

    /** The traversal is over when nothing is pending. */
    lemma Exhausted(x: int, stack: seq<MNode>, w: Walk)
      requires Valid() && lim.min <= x && Walking(x, nil, nil, stack, w)
      ensures NextStarting(live, x) == {} && (w.low == x ==> AtNextEnd(x) == {})
    {
      StackTop(nil, stack, w.pend);
      forall k | k in nodes
        ensures k.key <= w.low
      {
        assert Sh().NodeOk(k);
      }
      forall m | m in live
        ensures m.low <= x
      {
        if m.low > x {
          StartHasNode(m);
        }
      }
    }

    /** Past a node whose key is at most `x`, or to the left with the node pending */
    method WalkDown(x: int, n0: MNode, last0: MNode, stack0: seq<MNode>, ghost w0: Walk)
      returns (n: MNode, last: MNode, stack: seq<MNode>, ghost w: Walk)
      requires Sh().Linked() && n0 != nil && Walking(x, n0, last0, stack0, w0)
      ensures Walking(x, n, last, stack, w) && w.low == w0.low && w.b - w.a < w0.b - w0.a
    {
      last, stack := last0, stack0;
      DownOk(n0, w0.a, w0.b, w0.pend);
      if x >= n0.key {
        w := w0.(a := n0.key);
        n := n0.right;
      } else {
        ghost var pend;
        stack, pend := Push(last0, stack0, w0.pend, n0);
        w := w0.(b := n0.key, pend := pend);
        last := n0;
        n := n0.left;
      }
    }

    /** On to the right of the pending node on top */
    method WalkUp(x: int, last0: MNode, stack0: seq<MNode>, ghost w0: Walk)
      returns (n: MNode, last: MNode, stack: seq<MNode>, ghost w: Walk)
      requires Sh().Linked() && last0 != nil && Walking(x, nil, last0, stack0, w0) && NoneBetween(x, last0.key)
      ensures Walking(x, n, last, stack, w) && w.low > w0.low
    {
      StackTop(last0, stack0, w0.pend);
      DropLast(last0, w0.a, w0.b, w0.pend);
      n := last0.right;
      ghost var pend;
      last, stack, pend := Pop(last0, stack0, w0.pend);
      w := Walk(last0.key, last0.hi, last0.key, pend);
    }

    /** `successor` into a set. From an empty set it finds the next starting intervals; otherwise it
        stops at the next endpoint. */
    method Successors(x: int, S0: set<Interval>) returns (S: set<Interval>)
      requires Valid() && lim.min <= x <= lim.max
      ensures S == Successive(x, S0)
    {
      S := S0;
      var n: MNode := root;
      var last: MNode := nil;
      var stack: seq<MNode> := [];
      ghost var w := Walk(lim.min - 1, lim.max + 1, x, []);
      assert root != nil ==> Sh().NodeOk(root);
      assert Walking(x, n, last, stack, w) && Sh().Linked();
      hide Valid, Walking, NoneBetween, Shape.Linked, NextStarting, AtNextEnd, Successive;
      while n != nil || last != nil
        invariant Walking(x, n, last, stack, w) && w.low <= lim.max + 1
        invariant S == S0 && (S0 != {} ==> w.low == x)
        decreases lim.max + 1 - w.low, w.b - w.a
      {
        if n == nil {
          var T := Examine(x, last, stack, w);
          S := S + T;
          if S != {} {
            Finished(x, w.low, S0, T);
            return;
          }
          n, last, stack, w := WalkUp(x, last, stack, w);
          continue;
        }
        n, last, stack, w := WalkDown(x, n, last, stack, w);
      }
      Exhausted(x, stack, w);
      Finished(x, w.low, S, {});
    }

    /** `successor` for a tree without shared lower endpoints: its assertion never fails. */
    method Successor(x: int) returns (some: bool, m: Interval)
      requires Valid() && lim.min <= x <= lim.max
      requires forall i, j :: i in live && j in live && i.low == j.low ==> i == j
      ensures some <==> exists k :: k in live && k.low > x
      ensures some ==> m in live && m.low > x && forall k <- live :: k != m && k.low > x ==> m.low < k.low
    {
      m := Interval(0, 0, 0);
      var out := Successors(x, {});
      forall i, j | i in out && j in out
        ensures i == j
      {
      }
      OneAtMost(out);
      assert |out| <= 1;
      some := out != {};
      if some {
        m :| m in out;
      } else {
        NextExists(live, x);
      }
    }

    static lemma OneAtMost(s: set<Interval>)
      requires forall i, j :: i in s && j in s ==> i == j
      ensures |s| <= 1
    {
      if s != {} {
        var i :| i in s;
        assert s == {i};
      }
    }

    /** There is a next starting interval whenever some live interval starts above `x`. */
    static lemma NextExists(live: set<Interval>, x: int)
      ensures NextStarting(live, x) == {} ==> forall k <- live :: k.low <= x
    {
      var above := set k | k in live && k.low > x;
      forall k | k in live && k.low > x
        ensures k in above
      {
      }
      if above != {} {
        var m := LeastLow(above);
        assert m in NextStarting(live, x);
      }
    }

    static lemma {:induction false} LeastLow(s: set<Interval>) returns (m: Interval)
      requires s != {}
      ensures m in s && forall k <- s :: m.low <= k.low
    {
      m :| m in s;
      if s != {m} {
        var k := LeastLow(s - {m});
        if k.low < m.low {
          m := k;
        }
      }
    }
  }
}
