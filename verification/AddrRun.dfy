/** Whole runs of the address-range tree against a plain finite map. */
module AddrRun {
  import opened AddrRanges
  import opened AddrRangeTree

  datatype Op =
    | Insert(v: Range)
    | Remove(key: int)
    | Clear
    | Size
    | Find(key: int)
    | FindIn(start: int, end: int)
    | Elements

  datatype Answer = Done | Number(n: int) | Absent | Value(v: Range) | Values(s: seq<Range>)

  predicate OpOk(op: Op) {
    match op
    case Insert(v) => v.Fits()
    case Remove(key) => 0 <= key < WORD
    case Find(key) => 0 <= key < WORD
    case FindIn(start, end) => 0 <= start < WORD && 0 <= end < WORD
    case _ => true
  }

  /** The plain map after one operation: the first insertion under a key wins. */
  function After(op: Op, m: RangeMap): RangeMap {
    match op
    case Insert(v) => if v.address in m then m else m[v.address := v]
    case Remove(key) => m - {key}
    case Clear => map[]
    case _ => m
  }

  function AfterAll(ops: seq<Op>, m: RangeMap): RangeMap {
    if ops == [] then m else After(ops[|ops| - 1], AfterAll(ops[..|ops| - 1], m))
  }

  /** `v` meets `[start, end)`, or is the predecessor of `start` and ends exactly there. */
  ghost predicate MeetsOrTouches(m: RangeMap, v: Range, start: int, end: int) {
    v.Meets(start, end) || (IsPred(m, start, v.address) && v.address < start == v.address + v.size)
  }

  /** What the plain map says about an answer. A range query on disjoint ranges lists those that meet
      the query, and the predecessor that ends where the query starts. */
  ghost predicate Right(op: Op, a: Answer, m: RangeMap) {
    match op
    case Size => a == Number(|m|)
    case Find(key) =>
      && (if a.Value? then IsPred(m, key, a.v.address) && Holds(m, a.v) else a == Absent)
      && (a.Value? <==> Found(m, key))
      && (Disjoint(m) && !WrapsBelow(m, key) ==>
            (a.Value? <==> Stored(m, key)) && (a.Value? ==> a.v.Contains(key)))
    case FindIn(start, end) =>
      && a.Values? && Ascending(a.s)
      && (forall v :: v in a.s <==> Holds(m, v) && Listed(m, start, end, v.address))
      && (Disjoint(m) && start < end && !FirstWraps(m, start, end) ==>
            forall v :: v in a.s <==> Holds(m, v) && MeetsOrTouches(m, v, start, end))
    case Elements =>
      a.Values? && Ascending(a.s) && |a.s| == |m| && forall v :: v in a.s <==> Holds(m, v)
    case _ => a == Done
  }

  method StepFind(t: Tree, key: int) returns (a: Answer)
    requires t.Valid() && 0 <= key < WORD
    ensures Right(Find(key), a, t.M)
  {
    var found, v := t.FindPoint(key);
    a := if found then Value(v) else Absent;
  }

  method StepFindIn(t: Tree, start: int, end: int) returns (a: Answer)
    requires t.Valid() && 0 <= start < WORD && 0 <= end < WORD
    ensures Right(FindIn(start, end), a, t.M)
  {
    assert Keyed(t.M);
    hide Tree.Valid, Listed, FirstWraps;
    var found, s := t.FindRange(start, end, []);
    assert s[0..] == s;
    a := Values(s);
    if Disjoint(t.M) && start < end && !FirstWraps(t.M, start, end) {
      forall v | Holds(t.M, v)
        ensures v in s <==> MeetsOrTouches(t.M, v, start, end)
      {
        ListedIsMeeting(t.M, start, end, v.address);
      }
    }
  }

  method StepElements(t: Tree) returns (a: Answer)
    requires t.Valid()
    ensures Right(Elements, a, t.M)
  {
    assert Keyed(t.M);
    hide Tree.Valid;
    var some, s := t.Elements([]);
    assert s[0..] == s;
    a := Values(s);
    assert forall v :: Holds(t.M, v) ==> 0 <= v.address < WORD;
  }

  method Step(t: Tree, op: Op) returns (a: Answer)
    requires t.Valid() && OpOk(op)
    modifies t, t.nodes, t.nil
    ensures t.Valid() && fresh(t.nodes - old(t.nodes))
    ensures t.M == After(op, old(t.M)) && Right(op, a, old(t.M))
  {
    assert t.setSize == |t.M|;
    hide Tree.Valid;
    a := Done;
    match op {
      case Insert(v) =>
        t.Insert(v);
      case Remove(key) =>
        t.Remove(key);
      case Clear =>
        t.Clear();
      case Size =>
        a := Number(t.setSize);
      case Find(key) =>
        a := StepFind(t, key);
      case FindIn(start, end) =>
        a := StepFindIn(t, start, end);
      case Elements =>
        a := StepElements(t);
    }
  }

  /** Every run on a new tree answers as the plain map does. */
  method Run(ops: seq<Op>) returns (answers: seq<Answer>)
    requires forall op <- ops :: OpOk(op)
    ensures |answers| == |ops|
    ensures forall i :: 0 <= i < |ops| ==> Right(ops[i], answers[i], AfterAll(ops[..i], map[]))
  {
    hide Tree.Valid, Right;
    var t := new Tree();
    answers := [];
    for k := 0 to |ops|
      invariant t.Valid() && fresh(t) && fresh(t.nil) && fresh(t.nodes)
      invariant t.M == AfterAll(ops[..k], map[]) && |answers| == k
      invariant forall i :: 0 <= i < k ==> Right(ops[i], answers[i], AfterAll(ops[..i], map[]))
    {
      assert ops[..k + 1][..k] == ops[..k];
      var a := Step(t, ops[k]);
      answers := answers + [a];
    }
  }
}
