/** Intrusive circular doubly linked lists. A list is a ring of heads; which member of the ring is the
    list head is a matter of the caller's view. */
module CircularList {

  class ListHead {
    var next: ListHead?
    var prev: ListHead?

    constructor ()
      ensures next == null && prev == null
    {
      next, prev := null, null;
    }
  }

  function Next(n: nat, i: nat): nat {
    if i + 1 == n then 0 else i + 1
  }

  ghost predicate Distinct<T>(s: seq<T>) {
    forall i, j :: 0 <= i < j < |s| ==> s[i] != s[j]
  }

  /** The member at `i` and the next one point at each other. */
  ghost predicate LinkAt(r: seq<ListHead>, i: nat)
    requires i < |r|
    reads r
  {
    var j := Next(|r|, i);
    r[i].next == r[j] && r[j].prev == r[i]
  }

  /** `next` and `prev` link the members of `r`, in this order, into a ring and are each other's
      inverse on it. */
  ghost predicate Ring(r: seq<ListHead>)
    reads r
  {
    && |r| > 0
    && Distinct(r)
    && forall i {:trigger LinkAt(r, i)} :: 0 <= i < |r| ==> LinkAt(r, i)
  }

  /** The two have no member in common. */
  ghost predicate Apart(a: seq<ListHead>, b: seq<ListHead>) {
    forall i, j :: 0 <= i < |a| && 0 <= j < |b| ==> a[i] != b[j]
  }

  /** `es` are the entries of the list with the given head. */
  ghost predicate IsList(head: ListHead, es: seq<ListHead>)
    reads [head] + es
  {
    Ring([head] + es)
  }

  method InitListHead(list: ListHead)
    modifies list
    ensures IsList(list, [])
  {
    list.next := list;
    list.prev := list;
  }

  // ----- insertion and removal

  /** `__list_add` between neighbours */
  method AddBetween(x: ListHead, prev: ListHead, next: ListHead, ghost r: seq<ListHead>, ghost i: nat)
    requires Ring(r) && i < |r| && prev == r[i] && next == r[Next(|r|, i)] && x !in r
    modifies x, r
    ensures Ring(r[..i + 1] + [x] + r[i + 1..])
  {
    next.prev := x;
    x.next := next;
    x.prev := prev;
    prev.next := x;
    ghost var r' := r[..i + 1] + [x] + r[i + 1..];
    forall k | 0 <= k < |r'|
      ensures LinkAt(r', k)
    {
      var o := if k <= i then k else k - 1;
      assert old(LinkAt(r, o));
      assert k != i && k != i + 1 ==> r'[k] == r[o] && r'[Next(|r'|, k)] == r[Next(|r|, o)] && o != i;
    }
  }

  /** `list_add` */
  method ListAdd(x: ListHead, head: ListHead, ghost es: seq<ListHead>)
    requires IsList(head, es) && x != head && x !in es
    modifies x, head, es
    ensures IsList(head, [x] + es)
  {
    ghost var r := [head] + es;
    assert LinkAt(r, 0);
    AddBetween(x, head, head.next, r, 0);
    assert r[..1] + [x] + r[1..] == [head] + ([x] + es);
  }

  /** `list_add_tail` */
  method ListAddTail(x: ListHead, head: ListHead, ghost es: seq<ListHead>)
    requires IsList(head, es) && x != head && x !in es
    modifies x, head, es
    ensures IsList(head, es + [x])
  {
    ghost var r := [head] + es;
    assert LinkAt(r, |r| - 1);
    AddBetween(x, head.prev, head, r, |r| - 1);
    assert r[..|r|] + [x] + r[|r|..] == [head] + (es + [x]);
  }

  /** `__list_del` on the neighbours of the entry at `i` */
  method Unlink(entry: ListHead, ghost r: seq<ListHead>, ghost i: nat)
    requires Ring(r) && 0 < i < |r| && entry == r[i]
    modifies r
    ensures Ring(r[..i] + r[i + 1..])
  {
    assert LinkAt(r, i - 1) && LinkAt(r, i);
    var n: ListHead, p: ListHead := entry.next, entry.prev;
    n.prev := p;
    p.next := n;
    ghost var r' := r[..i] + r[i + 1..];
    forall k | 0 <= k < |r'|
      ensures LinkAt(r', k)
    {
      var o := if k < i then k else k + 1;
      assert old(LinkAt(r, o));
      assert k != i - 1 ==> r'[k] == r[o] && r'[Next(|r'|, k)] == r[Next(|r|, o)];
    }
  }

  /** Entries of a list without the one at `k` */
  ghost function Drop<T>(es: seq<T>, k: nat): seq<T>
    requires k < |es|
  {
    es[..k] + es[k + 1..]
  }

  method UnlinkEntry(entry: ListHead, ghost head: ListHead, ghost es: seq<ListHead>, ghost k: nat)
    requires IsList(head, es) && k < |es| && entry == es[k]
    modifies head, es
    ensures IsList(head, Drop(es, k))
  {
    ghost var r := [head] + es;
    Unlink(entry, r, k + 1);
    assert r[..k + 1] + r[k + 2..] == [head] + Drop(es, k);
  }

  /** `list_del` */
  method ListDel(entry: ListHead, ghost head: ListHead, ghost es: seq<ListHead>, ghost k: nat)
    requires IsList(head, es) && k < |es| && entry == es[k]
    modifies head, es
    ensures IsList(head, Drop(es, k)) && entry.next == null && entry.prev == null
  {
    UnlinkEntry(entry, head, es, k);
    NotInRest(head, es, k);
    label L:
    entry.next := null;
    entry.prev := null;
    SameRing@L([head] + Drop(es, k));
  }

  /** `list_del_init` */
  method ListDelInit(entry: ListHead, ghost head: ListHead, ghost es: seq<ListHead>, ghost k: nat)
    requires IsList(head, es) && k < |es| && entry == es[k]
    modifies head, es
    ensures IsList(head, Drop(es, k)) && IsList(entry, [])
  {
    UnlinkEntry(entry, head, es, k);
    NotInRest(head, es, k);
    label L:
    InitListHead(entry);
    SameRing@L([head] + Drop(es, k));
  }

  lemma NotInRest(head: ListHead, es: seq<ListHead>, k: nat)
    requires k < |es| && Distinct([head] + es)
    ensures es[k] !in [head] + Drop(es, k)
  {
    var r := [head] + es;
    forall j | 0 <= j < |es| && j != k
      ensures es[j] != es[k]
    {
      assert r[j + 1] == es[j] && r[k + 1] == es[k];
    }
    assert r[0] == head && r[k + 1] == es[k];
  }

  /** A ring is its members' links. */
  twostate lemma SameRing(r: seq<ListHead>)
    requires old(Ring(r))
    requires forall n :: n in r ==> n.next == old(n.next) && n.prev == old(n.prev)
    ensures Ring(r)
  {
    forall i | 0 <= i < |r|
      ensures LinkAt(r, i)
    {
      assert old(LinkAt(r, i));
    }
  }

  /** `list_replace`: the new head takes the place of the old one, which may be a ring of its own. */
  method ListReplace(o: ListHead, x: ListHead, ghost r: seq<ListHead>, ghost i: nat)
    requires Ring(r) && i < |r| && o == r[i] && x !in r
    modifies x, r
    ensures Ring(r[i := x])
  {
    ghost var p := if i == 0 then |r| - 1 else i - 1;
    assert LinkAt(r, i) && LinkAt(r, p);
    x.next := o.next;
    x.next.prev := x;
    x.prev := o.prev;
    x.prev.next := x;
    ghost var r' := r[i := x];
    forall k | 0 <= k < |r'|
      ensures LinkAt(r', k)
    {
      assert old(LinkAt(r, k));
    }
  }

  /** `list_replace_init` */
  method ListReplaceInit(o: ListHead, x: ListHead, ghost r: seq<ListHead>, ghost i: nat)
    requires Ring(r) && i < |r| && o == r[i] && x !in r
    modifies x, r
    ensures Ring(r[i := x]) && IsList(o, [])
  {
    ListReplace(o, x, r, i);
    label L:
    InitListHead(o);
    SameRing@L(r[i := x]);
  }

  // ----- tests

  method ListIsLast(list: ListHead, head: ListHead, ghost es: seq<ListHead>, ghost k: nat) returns (b: bool)
    requires IsList(head, es) && k < |es| && list == es[k]
    ensures b <==> k == |es| - 1
  {
    ghost var r := [head] + es;
    assert LinkAt(r, k + 1) && r[0] == head;
    b := list.next == head;
  }

  method ListEmpty(head: ListHead, ghost es: seq<ListHead>) returns (b: bool)
    requires IsList(head, es)
    ensures b <==> es == []
  {
    ghost var r := [head] + es;
    assert LinkAt(r, 0);
    b := head.next == head;
  }

  method ListEmptyCareful(head: ListHead, ghost es: seq<ListHead>) returns (b: bool)
    requires IsList(head, es)
    ensures b <==> es == []
  {
    ghost var r := [head] + es;
    assert LinkAt(r, 0) && LinkAt(r, |r| - 1);
    var next := head.next;
    b := next == head && next == head.prev;
  }

  method ListIsSingular(head: ListHead, ghost es: seq<ListHead>) returns (b: bool)
    requires IsList(head, es)
    ensures b <==> |es| == 1
  {
    ghost var r := [head] + es;
    assert LinkAt(r, 0) && LinkAt(r, |r| - 1);
    var empty := ListEmpty(head, es);
    b := !empty && head.next == head.prev;
  }

  // ----- moving

  /** `x` is an entry of the list `from`, and `head` is that list or one that has nothing in common
      with it. */
  ghost predicate Movable(x: ListHead, head: ListHead, from: ListHead, es: seq<ListHead>, k: nat, ds: seq<ListHead>)
    reads [from] + es, [head] + ds
  {
    && IsList(from, es) && k < |es| && x == es[k]
    && IsList(head, ds)
    && ((from == head && ds == es) || Apart([head] + ds, [from] + es))
  }

  /** Takes `x` out of its list; `rest` is what the list `head` then holds. */
  method TakeOut(x: ListHead, head: ListHead, ghost from: ListHead, ghost es: seq<ListHead>, ghost k: nat, ghost ds: seq<ListHead>)
    returns (ghost rest: seq<ListHead>)
    requires Movable(x, head, from, es, k, ds)
    modifies from, es
    ensures rest == (if from == head then Drop(es, k) else ds)
    ensures IsList(head, rest) && IsList(from, Drop(es, k)) && x !in [head] + rest && x !in [from] + Drop(es, k)
    ensures from != head ==> Apart([head] + ds, [from] + es)
  {
    NotInRest(from, es, k);
    rest := if from == head then Drop(es, k) else ds;
    UnlinkEntry(x, from, es, k);
    assert ([head] + ds)[0] == head && ([from] + es)[0] == from;
    if from != head {
      assert x == ([from] + es)[k + 1];
      assert forall j :: 0 <= j < |ds| ==> ([head] + ds)[j + 1] == ds[j];
      assert forall j :: 0 <= j < |es| ==> ([from] + es)[j + 1] == es[j];
      SameRing([head] + ds);
    }
  }

  lemma StaysApart(head: ListHead, ds: seq<ListHead>, from: ListHead, es: seq<ListHead>, k: nat, n: ListHead)
    requires k < |es| && Apart([head] + ds, [from] + es) && n in [from] + Drop(es, k)
    ensures n !in [head] + ds
  {
    assert n in [from] + es;
  }

  /** `list_move` */
  method ListMove(x: ListHead, head: ListHead, ghost from: ListHead, ghost es: seq<ListHead>, ghost k: nat, ghost ds: seq<ListHead>)
    requires Movable(x, head, from, es, k, ds)
    modifies from, es, head, ds
    ensures from == head ==> IsList(head, [x] + Drop(es, k))
    ensures from != head ==> IsList(from, Drop(es, k)) && IsList(head, [x] + ds)
  {
    ghost var rest := TakeOut(x, head, from, es, k, ds);
    label L:
    ListAdd(x, head, rest);
    if from != head {
      forall n | n in [from] + Drop(es, k)
        ensures n !in [head] + ds
      {
        StaysApart(head, ds, from, es, k, n);
      }
      SameRing@L([from] + Drop(es, k));
    }
  }

  /** `list_move_tail` */
  method ListMoveTail(x: ListHead, head: ListHead, ghost from: ListHead, ghost es: seq<ListHead>, ghost k: nat, ghost ds: seq<ListHead>)
    requires Movable(x, head, from, es, k, ds)
    modifies from, es, head, ds
    ensures from == head ==> IsList(head, Drop(es, k) + [x])
    ensures from != head ==> IsList(from, Drop(es, k)) && IsList(head, ds + [x])
  {
    ghost var rest := TakeOut(x, head, from, es, k, ds);
    label L:
    ListAddTail(x, head, rest);
    if from != head {
      forall n | n in [from] + Drop(es, k)
        ensures n !in [head] + ds
      {
        StaysApart(head, ds, from, es, k, n);
      }
      SameRing@L([from] + Drop(es, k));
    }
  }

  /** One step to the left */
  ghost function Rotated<T>(es: seq<T>): seq<T> {
    if es == [] then [] else es[1..] + [es[0]]
  }

  /** `list_rotate_left` */
  method ListRotateLeft(head: ListHead, ghost es: seq<ListHead>)
    requires IsList(head, es)
    modifies head, es
    ensures IsList(head, Rotated(es))
    ensures es == [] ==> IsList(head, [])
    ensures es != [] ==> IsList(head, es[1..] + [es[0]])
  {
    var empty := ListEmpty(head, es);
    if !empty {
      assert LinkAt([head] + es, 0);
      var first: ListHead := head.next;
      ListMoveTail(first, head, head, es, 0, es);
      assert Drop(es, 0) + [first] == Rotated(es);
    }
  }

  /** Rotating as often as there are entries is the identity. */
  method RotateFully(head: ListHead, n: nat, ghost es: seq<ListHead>)
    requires IsList(head, es) && n == |es|
    modifies head, es
    ensures IsList(head, es)
  {
    ghost var cur := es;
    for i := 0 to n
      invariant IsList(head, cur) && cur == es[i..] + es[..i]
    {
      assert cur[0] == es[i];
      assert Rotated(cur) == es[i + 1..] + es[..i + 1];
      ListRotateLeft(head, cur);
      cur := Rotated(cur);
    }
    assert cur == es;
  }

  // ----- cutting and splicing

  /** `__list_cut_position` */
  method CutAfter(list: ListHead, head: ListHead, entry: ListHead, ghost es: seq<ListHead>, ghost k: nat)
    requires IsList(head, es) && k < |es| && entry == es[k] && list !in [head] + es
    modifies list, head, es
    ensures IsList(list, es[..k + 1]) && IsList(head, es[k + 1..])
  {
    ghost var r := [head] + es;
    ghost var n := |r|;
    assert LinkAt(r, 0) && LinkAt(r, k + 1);
    var newFirst: ListHead := entry.next;
    list.next := head.next;
    list.next.prev := list;
    list.prev := entry;
    entry.next := list;
    head.next := newFirst;
    newFirst.prev := head;
    ghost var a, b := [list] + es[..k + 1], [head] + es[k + 1..];
    forall i | 0 <= i < |a|
      ensures LinkAt(a, i)
    {
      assert old(LinkAt(r, i));
      assert 0 < i ==> a[i] == r[i];
      assert 0 < i < |a| - 1 ==> a[i + 1] == r[i + 1];
    }
    forall i | 0 <= i < |b|
      ensures LinkAt(b, i)
    {
      assert old(LinkAt(r, k + 1 + i));
      assert 0 < i ==> b[i] == r[k + 1 + i];
      assert 0 < i < |b| - 1 ==> b[i + 1] == r[k + 2 + i];
    }
    assert Distinct(a) by {
      assert forall i :: 0 < i < |a| ==> a[i] == r[i];
    }
    assert Distinct(b) by {
      assert forall i :: 0 < i < |b| ==> b[i] == r[k + 1 + i];
    }
  }

  /** `list_cut_position`: moves the entries up to and including `entry` to `list`. Nothing happens
      to an empty list; a cut at the head itself only empties `list`. */
  method ListCutPosition(list: ListHead, head: ListHead, entry: ListHead, ghost es: seq<ListHead>, ghost k: int)
    requires IsList(head, es) && -1 <= k < |es| && entry == ([head] + es)[k + 1] && list !in [head] + es
    modifies list, head, es
    ensures IsList(head, es[k + 1..])
    ensures es != [] ==> IsList(list, es[..k + 1])
    ensures es == [] ==> list.next == old(list.next) && list.prev == old(list.prev)
  {
    ghost var r := [head] + es;
    var empty := ListEmpty(head, es);
    if empty {
      return;
    }
    var singular := ListIsSingular(head, es);
    assert LinkAt(r, 0);
    if singular && head.next != entry && head != entry {
      return;
    }
    if entry == head {
      assert k == -1 by {
        assert r[0] == r[k + 1];
      }
      InitListHead(list);
      SameRing(r);
      assert es[k + 1..] == es;
    } else {
      CutAfter(list, head, entry, es, k);
    }
  }

  /** `__list_splice` of the entries `xs` between the member at `i` and the next */
  method SpliceAt(list: ListHead, prev: ListHead, next: ListHead, ghost xs: seq<ListHead>, ghost r: seq<ListHead>, ghost i: nat)
    requires IsList(list, xs) && xs != [] && Ring(r) && i < |r| && prev == r[i] && next == r[Next(|r|, i)]
    requires Apart([list] + xs, r)
    modifies xs, r
    ensures Ring(r[..i + 1] + xs + r[i + 1..])
  {
    ghost var l := [list] + xs;
    assert LinkAt(l, 0) && LinkAt(l, |xs|);
    assert forall j :: 0 <= j < |xs| ==> l[j + 1] == xs[j];
    var first: ListHead, last: ListHead := list.next, list.prev;
    assert first == l[1] && last == l[|xs|];
    hide LinkAt;
    first.prev := prev;
    prev.next := first;
    last.next := next;
    next.prev := last;
    assert l[1..] == xs;
    SplicedRing((l, r), i);
  }

  /** The links of a spliced ring come from the two old rings and the two seams. */
  twostate lemma SplicedRing(lr: (seq<ListHead>, seq<ListHead>), new i: nat)
    requires var (l, r) := lr; |l| > 1 && i < |r| && old(Ring(l)) && old(Ring(r)) && Apart(l, r)
    requires var (l, r) := lr; l[1].prev == r[i] && r[i].next == l[1]
    requires var (l, r) := lr; l[|l| - 1].next == r[Next(|r|, i)] && r[Next(|r|, i)].prev == l[|l| - 1]
    requires var (l, r) := lr; forall j :: 1 <= j < |l| ==>
      (j > 1 ==> l[j].prev == old(l[j].prev)) && (j < |l| - 1 ==> l[j].next == old(l[j].next))
    requires var (l, r) := lr; forall j :: 0 <= j < |r| ==>
      (j != Next(|r|, i) ==> r[j].prev == old(r[j].prev)) && (j != i ==> r[j].next == old(r[j].next))
    ensures Ring(lr.1[..i + 1] + lr.0[1..] + lr.1[i + 1..])
  {
    var (l, r) := lr;
    var m := |l| - 1;
    var s := r[..i + 1] + l[1..] + r[i + 1..];
    forall k | 0 <= k < |s|
      ensures LinkAt(s, k)
    {
      if k < i {
        assert old(LinkAt(r, k));
      } else if i < k < i + m {
        assert old(LinkAt(l, k - i));
      } else if k > i + m {
        assert old(LinkAt(r, k - m));
      }
    }
  }

  /** `list_splice` */
  method ListSplice(list: ListHead, head: ListHead, ghost xs: seq<ListHead>, ghost ys: seq<ListHead>)
    requires IsList(list, xs) && IsList(head, ys) && Apart([list] + xs, [head] + ys)
    modifies xs, head, ys
    ensures IsList(head, xs + ys)
  {
    ghost var r := [head] + ys;
    var empty := ListEmpty(list, xs);
    if !empty {
      assert LinkAt(r, 0);
      SpliceAt(list, head, head.next, xs, r, 0);
      assert r[..1] + xs + r[1..] == [head] + (xs + ys);
    } else {
      assert xs + ys == ys;
    }
  }

  /** `list_splice_tail` */
  method ListSpliceTail(list: ListHead, head: ListHead, ghost xs: seq<ListHead>, ghost ys: seq<ListHead>)
    requires IsList(list, xs) && IsList(head, ys) && Apart([list] + xs, [head] + ys)
    modifies xs, head, ys
    ensures IsList(head, ys + xs)
  {
    ghost var r := [head] + ys;
    var empty := ListEmpty(list, xs);
    if !empty {
      assert LinkAt(r, |ys|);
      SpliceAt(list, head.prev, head, xs, r, |ys|);
      assert r[..|r|] + xs + r[|r|..] == [head] + (ys + xs);
    } else {
      assert ys + xs == ys;
    }
  }

  /** `list_splice_init` */
  method ListSpliceInit(list: ListHead, head: ListHead, ghost xs: seq<ListHead>, ghost ys: seq<ListHead>)
    requires IsList(list, xs) && IsList(head, ys) && Apart([list] + xs, [head] + ys)
    modifies list, xs, head, ys
    ensures IsList(head, xs + ys) && IsList(list, [])
  {
    var empty := ListEmpty(list, xs);
    ListSplice(list, head, xs, ys);
    label L:
    if !empty {
      InitListHead(list);
    }
    AwayFrom(list, xs, head, ys);
    SameRing@L([head] + (xs + ys));
  }

  /** `list_splice_tail_init` */
  method ListSpliceTailInit(list: ListHead, head: ListHead, ghost xs: seq<ListHead>, ghost ys: seq<ListHead>)
    requires IsList(list, xs) && IsList(head, ys) && Apart([list] + xs, [head] + ys)
    modifies list, xs, head, ys
    ensures IsList(head, ys + xs) && IsList(list, [])
  {
    var empty := ListEmpty(list, xs);
    ListSpliceTail(list, head, xs, ys);
    label L:
    if !empty {
      InitListHead(list);
    }
    AwayFrom(list, xs, head, ys);
    SameRing@L([head] + (ys + xs));
  }

  lemma AwayFrom(list: ListHead, xs: seq<ListHead>, head: ListHead, ys: seq<ListHead>)
    requires Distinct([list] + xs) && Apart([list] + xs, [head] + ys)
    ensures list !in [head] + (xs + ys) && list !in [head] + (ys + xs)
  {
    var l, r := [list] + xs, [head] + ys;
    assert l[0] == list && r[0] == head;
    assert forall j :: 0 <= j < |xs| ==> l[j + 1] == xs[j];
    assert forall j :: 0 <= j < |ys| ==> r[j + 1] == ys[j];
  }

  lemma CutApart(list: ListHead, head: ListHead, es: seq<ListHead>, j: nat)
    requires Distinct([head] + es) && list !in [head] + es && j <= |es|
    ensures Apart([list] + es[..j], [head] + es[j..])
  {
    var r := [head] + es;
    var a, b := [list] + es[..j], [head] + es[j..];
    assert forall i :: 0 < i < |a| ==> a[i] == r[i];
    assert forall i :: 0 < i < |b| ==> b[i] == r[j + i];
    assert r[0] == b[0] == head && a[0] == list;
    assert forall i :: 0 <= i < |r| ==> r[i] != list;
  }

  /** Cutting a list that has entries and splicing the cut part back is the identity, whatever `list`
      held before. */
  method CutThenSplice(list: ListHead, head: ListHead, entry: ListHead, ghost es: seq<ListHead>, ghost k: int)
    requires IsList(head, es) && es != [] && -1 <= k < |es| && entry == ([head] + es)[k + 1] && list !in [head] + es
    modifies list, head, es
    ensures IsList(head, es) && IsList(list, [])
  {
    ghost var j := k + 1;
    ghost var xs, ys := es[..j], es[j..];
    CutApart(list, head, es, j);
    ListCutPosition(list, head, entry, es, k);
    ListSpliceInit(list, head, xs, ys);
    assert xs + ys == es;
  }

  /** On an empty list it is not: the cut leaves `list` alone, and the splice moves what `list` held
      to the head, so that the list is still empty exactly when `list` was. */
  method CutThenSpliceEmpty(list: ListHead, head: ListHead, ghost ds: seq<ListHead>)
    requires IsList(head, []) && IsList(list, ds) && Apart([list] + ds, [head])
    modifies list, ds, head
    ensures IsList(head, ds) && IsList(list, [])
  {
    ghost var l: seq<ListHead>, h: seq<ListHead> := [list] + ds, [];
    assert l[0] == list && [head][0] == head;
    ListCutPosition(list, head, head, h, -1);
    SameRing(l);
    ListSpliceInit(list, head, ds, h);
    assert ds + h == ds;
  }

  // ----- iteration

  lemma FirstIsNotHead(head: ListHead, es: seq<ListHead>)
    requires Distinct([head] + es)
    ensures ([head] + es)[Next(|es| + 1, 0)] == head ==> es == []
  {
    var r := [head] + es;
    if es != [] {
      assert r[0] != r[1];
    }
  }

  method DeleteFirst(pos: ListHead, head: ListHead, ghost es: seq<ListHead>)
    requires IsList(head, es) && es != [] && pos == es[0]
    modifies head, es
    ensures IsList(head, es[1..]) && IsList(pos, []) && pos !in [head] + es[1..]
  {
    NotInRest(head, es, 0);
    ListDelInit(pos, head, es, 0);
    assert Drop(es, 0) == es[1..];
  }

  /** The loop of `list_for_each_entry_safe` with `list_del_init` as its body, as in
      `prof_evlist__delete`: it visits every entry once, in order, and empties the list. */
  method DeleteAll(head: ListHead, ghost es: seq<ListHead>) returns (visited: seq<ListHead>)
    requires IsList(head, es)
    modifies head, es
    ensures visited == es && IsList(head, []) && forall e <- es :: IsList(e, [])
  {
    visited := [];
    ghost var rest := es;
    assert LinkAt([head] + es, 0);
    var pos: ListHead := head.next;
    var n: ListHead? := pos.next;
    while pos != head
      invariant IsList(head, rest) && |visited| <= |es| && rest == es[|visited|..] && visited == es[..|visited|]
      invariant pos == ([head] + rest)[Next(|rest| + 1, 0)] && n == pos.next
      invariant forall e <- visited :: IsList(e, []) && e !in [head] + rest
      decreases |rest|
    {
      ghost var r := [head] + rest;
      assert LinkAt(r, 0) && LinkAt(r, 1) && pos == rest[0] == es[|visited|];
      visited := visited + [pos];
      DeleteFirst(pos, head, rest);
      rest := rest[1..];
      assert rest == es[|visited|..];
      pos := n;
      n := n.next;
    }
    FirstIsNotHead(head, rest);
  }
}
