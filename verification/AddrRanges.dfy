/** Address ranges and the finite map the address-range tree stands for. */
module AddrRanges {

  /** Addresses are 64-bit. */
  const WORD: int := 0x1_0000_0000_0000_0000

  /** A stored value; `id` stands for the address of the object. */
  datatype Range = Range(address: int, size: int, id: nat) {
    predicate Fits() {
      0 <= address < WORD && 0 <= size < WORD
    }

    /** The number of addresses the range occupies: a range of size zero occupies its own address. */
    function Extent(): int {
      if size == 0 then 1 else size
    }

    predicate Contains(a: int) {
      address <= a < address + Extent()
    }

    predicate Meets(start: int, end: int) {
      start < address + Extent() && address < end
    }

    /** The end of the range as the machine computes it. */
    function End(): int {
      (address + size) % WORD
    }

    /** The end does not fit in a machine word. */
    predicate Wraps() {
      address + size >= WORD
    }
  }

  type RangeMap = map<int, Range>

  /** The keys are the addresses of the values. */
  ghost predicate Keyed(m: RangeMap) {
    forall k <- m :: m[k].address == k && m[k].Fits()
  }

  /** `v` is one of the values. */
  ghost predicate Holds(m: RangeMap, v: Range) {
    v.address in m && m[v.address] == v
  }

  /** No two ranges share an address. */
  ghost predicate Disjoint(m: RangeMap) {
    forall j, k :: j in m && k in m && j < k ==> j + m[j].Extent() <= k
  }

  /** `k` is the greatest key that is at most `a`. */
  ghost predicate IsPred(m: RangeMap, a: int, k: int) {
    k in m && k <= a && forall j <- m :: j <= a ==> j <= k
  }

  /** `k` is the least key that is at least `a`. */
  ghost predicate IsSucc(m: RangeMap, a: int, k: int) {
    k in m && k >= a && forall j <- m :: j >= a ==> j >= k
  }

  /** Some stored range that starts at or below `a` ends beyond the machine word. */
  ghost predicate WrapsBelow(m: RangeMap, a: int) {
    exists k :: k in m && k <= a && m[k].Wraps()
  }

  // ----- the point query

  /** What the code tests of the predecessor `v`. */
  predicate Accepts(v: Range, a: int) {
    if v.size == 0 then a <= v.address else a < v.End()
  }

  ghost predicate Found(m: RangeMap, a: int) {
    exists k :: IsPred(m, a, k) && Accepts(m[k], a)
  }

  ghost predicate Stored(m: RangeMap, a: int) {
    exists k :: k in m && m[k].Contains(a)
  }

  /** On disjoint ranges the predecessor decides, unless its end does not fit in a word. */
  lemma PredDecides(m: RangeMap, a: int, p: int, k: int)
    requires Keyed(m) && Disjoint(m) && 0 <= a < WORD && IsPred(m, a, p) && k in m
    ensures m[k].Contains(a) ==> k == p
    ensures m[p].Contains(a) <==> Accepts(m[p], a) || m[p].Wraps()
    ensures m[p].Wraps() ==> !Accepts(m[p], a)
  {
    if k < p {
      assert k + m[k].Extent() <= p;
    }
    var v := m[p];
    if v.Wraps() {
      assert v.End() == v.address + v.size - WORD;
    } else {
      assert v.End() == v.address + v.size;
    }
  }

  lemma {:induction false} PredExists(m: RangeMap, a: int, j: int) returns (p: int)
    requires j in m && j <= a
    ensures IsPred(m, a, p)
    decreases a - j
  {
    p := j;
    if i :| i in m && j < i <= a {
      p := PredExists(m, a, i);
    }
  }

  /** The point query agrees with a linear scan exactly when no range that starts at or below the
      key ends beyond the machine word. */
  lemma FoundIsStored(m: RangeMap, a: int)
    requires Keyed(m) && Disjoint(m) && 0 <= a < WORD
    ensures (Found(m, a) <==> Stored(m, a)) <==> !WrapsBelow(m, a)
    ensures Found(m, a) ==> Stored(m, a)
    ensures forall p :: IsPred(m, a, p) && Accepts(m[p], a) ==> m[p].Contains(a)
    ensures forall j, k :: j in m && k in m && m[j].Contains(a) && m[k].Contains(a) ==> j == k
  {
    forall p, k | IsPred(m, a, p) && k in m
      ensures m[k].Contains(a) ==> k == p
      ensures m[p].Contains(a) <==> Accepts(m[p], a) || m[p].Wraps()
      ensures m[p].Wraps() ==> !Accepts(m[p], a)
    {
      PredDecides(m, a, p, k);
    }
    forall k | k in m && m[k].Contains(a)
      ensures IsPred(m, a, k)
    {
      var p := PredExists(m, a, k);
      PredDecides(m, a, p, k);
    }
    if k :| k in m && k <= a && m[k].Wraps() {
      assert m[k].Contains(a);
    }
  }

  /** The point query misses a range that ends at the end of the address space. */
  lemma TopRangeIsMissed() returns (m: RangeMap, a: int)
    ensures Keyed(m) && Disjoint(m) && 0 <= a < WORD && Stored(m, a) && !Found(m, a)
  {
    a := WORD - 16;
    m := map[a := Range(a, 16, 0)];
    assert m[a].Contains(a) && m[a].Wraps();
    FoundIsStored(m, a);
    assert WrapsBelow(m, a);
  }

  // ----- the range query

  /** Where the listing starts to look: at the predecessor of `start`, or else at the successor. */
  ghost predicate First(m: RangeMap, start: int, c: int) {
    IsPred(m, start, c) || ((forall k <- m :: k > start) && IsSucc(m, start, c))
  }

  /** What the code lists: the first range unless it ends before `start`, and all ranges after it. */
  ghost predicate Listed(m: RangeMap, start: int, end: int, k: int) {
    k in m && k < end && exists c :: First(m, start, c) && (k > c || (k == c && m[c].End() >= start))
  }

  /** The first range below `end` is skipped because its end does not fit in a word. */
  ghost predicate FirstWraps(m: RangeMap, start: int, end: int) {
    exists c :: First(m, start, c) && c < end && m[c].Wraps() && m[c].End() < start
  }

  lemma FirstExists(m: RangeMap, start: int, k: int) returns (c: int)
    requires k in m
    ensures First(m, start, c) && (k <= start ==> IsPred(m, start, c))
  {
    if j :| j in m && j <= start {
      c := PredExists(m, start, if k <= start then k else j);
    } else {
      c := SuccExists(m, start, k);
    }
  }

  lemma {:induction false} SuccExists(m: RangeMap, a: int, j: int) returns (s: int)
    requires j in m && j >= a
    ensures IsSucc(m, a, s)
    decreases j - a
  {
    s := j;
    if i :| i in m && a <= i < j {
      s := SuccExists(m, a, i);
    }
  }

  lemma EndOf(v: Range)
    requires v.Fits()
    ensures v.End() == if v.Wraps() then v.address + v.size - WORD else v.address + v.size
  {
  }

  /** On disjoint ranges the query lists the ranges that meet `[start, end)`, and besides them only
      the predecessor that ends exactly at `start`. */
  lemma ListedIsMeeting(m: RangeMap, start: int, end: int, k: int)
    requires Keyed(m) && Disjoint(m) && 0 <= start < end <= WORD && k in m && !FirstWraps(m, start, end)
    ensures Listed(m, start, end, k) <==>
      m[k].Meets(start, end) || (IsPred(m, start, k) && k < start == k + m[k].size)
  {
    var c := FirstExists(m, start, k);
    EndOf(m[k]);
    if k < c {
      assert k + m[k].Extent() <= c;
    }
    if First(m, start, k) {
      assert k < end ==> !(m[k].Wraps() && m[k].End() < start);
      assert k == c;
    }
  }

  /** It lists every range that meets `[start, end)` exactly when the first range does not wrap. */
  lemma ListsAllMeeting(m: RangeMap, start: int, end: int)
    requires Keyed(m) && Disjoint(m) && 0 <= start < end <= WORD
    ensures (forall k :: k in m && m[k].Meets(start, end) ==> Listed(m, start, end, k)) <==> !FirstWraps(m, start, end)
  {
    if !FirstWraps(m, start, end) {
      forall k | k in m && m[k].Meets(start, end)
        ensures Listed(m, start, end, k)
      {
        ListedIsMeeting(m, start, end, k);
      }
    } else {
      var c :| First(m, start, c) && c < end && m[c].Wraps() && m[c].End() < start;
      assert m[c].Meets(start, end);
      assert !Listed(m, start, end, c);
    }
  }

  /** The range query misses such a range, too. */
  lemma TopRangeIsUnlisted() returns (m: RangeMap, start: int, end: int, k: int)
    ensures Keyed(m) && Disjoint(m) && 0 <= start < end < WORD
    ensures k in m && m[k].Meets(start, end) && !Listed(m, start, end, k)
  {
    k, start, end := WORD - 16, WORD - 8, WORD - 4;
    m := map[k := Range(k, 16, 0)];
    assert First(m, start, k) && m[k].End() == 0;
  }

  // ----- listings

  ghost predicate Ascending(s: seq<Range>) {
    forall i, j :: 0 <= i < j < |s| ==> s[i].address < s[j].address
  }

  lemma {:induction false} AscendingCount(s: seq<Range>)
    requires Ascending(s)
    ensures |set v | v in s :: v.address| == |s|
  {
    if s != [] {
      var t, last := s[..|s| - 1], s[|s| - 1];
      AscendingCount(t);
      assert s == t + [last];
      assert (set v | v in s :: v.address) == (set v | v in t :: v.address) + {last.address};
    }
  }
}
