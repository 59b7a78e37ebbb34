/** A finite relation, given by its rows, and the number of its pairs counted by rows and by columns. */
module Counting {

  ghost function Pairs<N, M>(f: map<N, set<M>>, ns: set<N>): set<(N, M)>
    requires ns <= f.Keys
  {
    set n, m | n in ns && m in f[n] :: (n, m)
  }

  lemma PairsUnion<N, M>(f: map<N, set<M>>, a: set<N>, b: set<N>)
    requires a <= f.Keys && b <= f.Keys && a !! b
    ensures |Pairs(f, a + b)| == |Pairs(f, a)| + |Pairs(f, b)|
  {
    assert Pairs(f, a + b) == Pairs(f, a) + Pairs(f, b);
    assert Pairs(f, a) !! Pairs(f, b);
  }

  ghost function Row<N, M>(n: N, s: set<M>): set<(N, M)> {
    set m | m in s :: (n, m)
  }

  lemma {:induction false} RowCount<N, M>(n: N, s: set<M>)
    ensures |Row(n, s)| == |s|
  {
    if s != {} {
      var m :| m in s;
      RowCount(n, s - {m});
      assert Row(n, s) == Row(n, s - {m}) + {(n, m)};
    }
  }

  lemma PairsRow<N, M>(f: map<N, set<M>>, n: N)
    requires n in f
    ensures |Pairs(f, {n})| == |f[n]|
  {
    RowCount(n, f[n]);
    assert Pairs(f, {n}) == Row(n, f[n]);
  }

  /** The rows that hold `m` */
  ghost function Column<N, M>(f: map<N, set<M>>, m: M): set<N> {
    set n | n in f && m in f[n]
  }

  ghost function InColumn<N, M>(s: set<N>, m: M): set<(N, M)> {
    set n | n in s :: (n, m)
  }

  lemma {:induction false} InColumnCount<N, M>(s: set<N>, m: M)
    ensures |InColumn(s, m)| == |s|
  {
    if s != {} {
      var n :| n in s;
      InColumnCount(s - {n}, m);
      assert InColumn(s, m) == InColumn(s - {n}, m) + {(n, m)};
    }
  }

  ghost function Dropped<N, M>(f: map<N, set<M>>, m: M): map<N, set<M>> {
    map n | n in f :: f[n] - {m}
  }

  lemma PairsDropped<N, M>(f: map<N, set<M>>, m: M)
    ensures |Pairs(f, f.Keys)| == |Pairs(Dropped(f, m), f.Keys)| + |Column(f, m)|
  {
    var a, b := Pairs(Dropped(f, m), f.Keys), InColumn(Column(f, m), m);
    InColumnCount(Column(f, m), m);
    forall n, k | (n, k) in Pairs(f, f.Keys)
      ensures (n, k) in a + b
    {
    }
    forall x | x in a + b
      ensures x in Pairs(f, f.Keys)
    {
    }
    assert Pairs(f, f.Keys) == a + b;
    assert a !! b;
  }

  lemma {:induction false} PairsColumns<N, M>(f: map<N, set<M>>, ms: set<M>, h: nat)
    requires (forall n <- f :: f[n] <= ms) && forall m <- ms :: |Column(f, m)| <= h
    ensures |Pairs(f, f.Keys)| <= |ms| * h
  {
    if ms == {} {
      assert Pairs(f, f.Keys) == {};
    } else {
      var m :| m in ms;
      var g := Dropped(f, m);
      forall k | k in ms - {m}
        ensures |Column(g, k)| <= h
      {
        assert Column(g, k) == Column(f, k);
      }
      PairsColumns(g, ms - {m}, h);
      assert g.Keys == f.Keys;
      PairsDropped(f, m);
      assert |ms| * h == |ms - {m}| * h + h;
    }
  }
}
