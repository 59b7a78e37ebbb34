/** Whole runs of the interval tree against a plain set of intervals. */
module IbsRun {
  import opened IbsMarks
  import opened IbsTree

  datatype Op =
    | Insert(i: Interval)
    | Remove(i: Interval)
    | Clear
    | Stab(x: int)
    | Overlap(i: Interval)
    | Next(x: int)
    | Size

  datatype Answer = Intervals(s: set<Interval>) | Number(n: int) | Done

  /** Arguments of the endpoint type. */
  predicate OpOk(lim: Limits, op: Op) {
    match op
    case Insert(i) => lim.Fits(i)
    case Remove(i) => lim.Fits(i)
    case Clear => true
    case Stab(x) => lim.min <= x <= lim.max
    case Overlap(i) => lim.Fits(i)
    case Next(x) => lim.min <= x <= lim.max
    case Size => true
  }

  /** The plain model: a set of live intervals and the set of endpoints seen since the last clear. */
  function LiveAfter(op: Op, live: set<Interval>): set<Interval> {
    match op
    case Insert(i) => live + {i}
    case Remove(i) => live - {i}
    case Clear => {}
    case _ => live
  }

  function EndsAfter(op: Op, ends: set<int>): set<int> {
    match op
    case Insert(i) => ends + {i.low, i.high}
    case Clear => {}
    case _ => ends
  }

  function LiveAfterAll(ops: seq<Op>): set<Interval> {
    if ops == [] then {} else LiveAfter(ops[|ops| - 1], LiveAfterAll(ops[..|ops| - 1]))
  }

  function EndsAfterAll(ops: seq<Op>): set<int> {
    if ops == [] then {} else EndsAfter(ops[|ops| - 1], EndsAfterAll(ops[..|ops| - 1]))
  }

  /** A live interval reaches up to the greatest value of the type. */
  predicate ReachesTop(lim: Limits, live: set<Interval>) {
    exists m <- live :: m.low < m.high == lim.max
  }

  /** The answer is that of the plain model. Only a point query at the greatest value of the type, while
      a live interval ends there, may name such intervals as well. */
  ghost predicate Right(lim: Limits, op: Op, a: Answer, live: set<Interval>, ends: set<int>) {
    match op
    case Stab(x) => a.Intervals? && PointAnswer(lim, x, a.s, live)
    case Overlap(i) =>
      a.Intervals? && if i.low == i.high then PointAnswer(lim, i.low, a.s, live) else a.s == Overlapping(live, i)
    case Next(x) => a == Intervals(NextStarting(live, x))
    case Size => a == Number(|ends|)
    case _ => a == Done
  }

  ghost predicate PointAnswer(lim: Limits, x: int, s: set<Interval>, live: set<Interval>) {
    && (x < lim.max || !ReachesTop(lim, live) ==> s == Containing(live, x))
    && Containing(live, x) <= s <= live
    && forall m <- s :: lim.Claims(m, x)
  }

  method StepStab(t: IBSTree, x: int) returns (a: Answer)
    requires t.Valid() && t.lim.min <= x <= t.lim.max
    ensures Right(t.lim, Stab(x), a, t.live, t.Ends())
  {
    var n, s := t.FindPoint(x, {});
    a := Intervals(s);
  }

  method StepOverlap(t: IBSTree, i: Interval) returns (a: Answer)
    requires t.Valid() && t.lim.Fits(i)
    ensures Right(t.lim, Overlap(i), a, t.live, t.Ends())
  {
    var n, s := t.FindOverlapping(i, {});
    t.StabIsContaining(i.low);
    a := Intervals(s);
  }

  method Step(t: IBSTree, op: Op) returns (a: Answer)
    requires t.Valid() && OpOk(t.lim, op)
    modifies t, t.nodes
    ensures t.Valid() && fresh(t.nodes - old(t.nodes))
    ensures t.live == LiveAfter(op, old(t.live)) && t.Ends() == EndsAfter(op, old(t.Ends()))
    ensures Right(t.lim, op, a, old(t.live), old(t.Ends()))
  {
    hide IBSTree.Valid, IBSTree.Stab, IBSTree.AtNextEnd, PointAnswer, NextStarting;
    a := Done;
    match op {
      case Insert(i) =>
        t.Insert(i);
      case Remove(i) =>
        t.Remove(i);
      case Clear =>
        t.Clear();
      case Stab(x) =>
        a := StepStab(t, x);
      case Overlap(i) =>
        a := StepOverlap(t, i);
      case Next(x) =>
        var s := t.Successors(x, {});
        a := Intervals(s);
      case Size =>
        t.SizeAndHeight();
        a := Number(t.treeSize);
    }
  }

  /** Every run on a new tree answers every query as the plain set does. */
  method Run(lim: Limits, ops: seq<Op>) returns (answers: seq<Answer>)
    requires lim.min <= lim.max && forall op <- ops :: OpOk(lim, op)
    ensures |answers| == |ops|
    ensures forall i :: 0 <= i < |ops| ==>
      Right(lim, ops[i], answers[i], LiveAfterAll(ops[..i]), EndsAfterAll(ops[..i]))
  {
    hide IBSTree.Valid, Right, LiveAfter, EndsAfter;
    var t := new IBSTree(lim);
    answers := [];
    assert t.Ends() == {};
    for k := 0 to |ops|
      invariant t.Valid() && t.lim == lim && fresh(t) && fresh(t.nodes) && |answers| == k
      invariant t.live == LiveAfterAll(ops[..k]) && t.Ends() == EndsAfterAll(ops[..k])
      invariant forall i :: 0 <= i < k ==>
        Right(lim, ops[i], answers[i], LiveAfterAll(ops[..i]), EndsAfterAll(ops[..i]))
    {
      assert ops[..k + 1][..k] == ops[..k];
      var a := Step(t, ops[k]);
      answers := answers + [a];
    }
  }

  /** At the greatest value of the type the stabbing answer can overstate: the only interval of this
      tree ends there and so does not contain that value, yet it is reported. */
  method TopIsOverstated(lim: Limits) returns (t: IBSTree, i: Interval, answer: set<Interval>)
    requires lim.min < lim.max
    ensures t.Valid() && t.lim == lim && t.live == {i} && i.low < i.high == lim.max && !i.Hits(lim.max)
    ensures answer == t.Stab(lim.max) && i in answer && answer != Containing(t.live, lim.max)
  {
    t := new IBSTree(lim);
    i := Interval(lim.min, lim.max, 0);
    t.Insert(i);
    var n;
    n, answer := t.FindPoint(lim.max, {});
  }
}
