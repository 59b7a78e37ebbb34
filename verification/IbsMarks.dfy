/** Intervals, the marks they leave on tree nodes, and what a rotation does to the marks. */
module IbsMarks {

  /** A stored interval `[low, high)`; `id` stands for the address of the interval object. An
      interval of length zero stands for its one starting point. */
  datatype Interval = Interval(low: int, high: int, id: nat) {
    predicate Hits(x: int) {
      low <= x < high || x == low == high
    }

    ghost predicate Overlaps(other: Interval) {
      exists x :: Hits(x) && other.Hits(x)
    }
  }

  /** The intervals of `live` that contain `x`. */
  ghost function Containing(live: set<Interval>, x: int): set<Interval> {
    set m | m in live && m.Hits(x)
  }

  /** The intervals of `live` that share a point with `i`. */
  ghost function Overlapping(live: set<Interval>, i: Interval): set<Interval> {
    set m | m in live && m.Overlaps(i)
  }

  /** The intervals of `live` with the least lower endpoint above `x`. */
  ghost function NextStarting(live: set<Interval>, x: int): set<Interval> {
    set m | m in live && m.low > x && forall k <- live :: k.low > x ==> m.low <= k.low
  }

  /** The numeric limits of the endpoint type. */
  datatype Limits = Limits(min: int, max: int) {
    predicate Fits(m: Interval) {
      min <= m.low <= m.high <= max
    }

    /** Both endpoints of `m` differ from the limits, which double as infinity. */
    predicate Inside(m: Interval) {
      min < m.low <= m.high < max
    }

    /** `m` contains `x`, or both end at the greatest value of the type, where "up to `high`" and
        "unbounded above" are the same number. */
    predicate Claims(m: Interval, x: int) {
      m.Hits(x) || (m.low < x == m.high == max)
    }

    /** What `leftUp` reports for a node whose region starts above `lo`. */
    function LeftUp(lo: int): int {
      if lo < min then min else lo
    }

    /** What `rightUp` reports for a node whose region ends below `hi`. */
    function RightUp(hi: int): int {
      if hi > max then max else hi
    }
  }

  /** The three mark sets of a node. */
  datatype Marks = Marks(less: set<Interval>, equal: set<Interval>, greater: set<Interval>) {

    /** The marks a stabbing query for `x` picks up at a node with the given key. */
    function Gives(key: int, x: int): set<Interval> {
      if x < key then less else if x == key then equal else greater
    }

    /** Every mark is true of the whole part of the region `(lo, hi)` it stands for. */
    ghost predicate Sound(lim: Limits, lo: int, key: int, hi: int) {
      && (forall m <- less :: lim.Fits(m) && m.low <= lim.LeftUp(lo) && key <= m.high)
      && (forall m <- equal :: lim.Fits(m) && lim.Claims(m, key))
      && (forall m <- greater :: lim.Fits(m) && m.low <= key && lim.RightUp(hi) <= m.high)
    }

    /** `m` is marked only if the endpoint it is marked from lies in the region. */
    ghost predicate TightAt(lo: int, hi: int, m: Interval) {
      && (m in less ==> lo < m.high < hi)
      && (m in equal ==> lo < m.low < hi || lo < m.high < hi)
      && (m in greater ==> lo < m.low < hi)
    }

    /** On the search path of its lower endpoint, `m` is marked wherever that is sound. */
    ghost predicate LeftDoneAt(lim: Limits, lo: int, key: int, hi: int, m: Interval) {
      lo < m.low < hi && m.low <= key ==>
        (key < m.high || key == m.low ==> m in equal) && (lim.RightUp(hi) <= m.high ==> m in greater)
    }

    /** On the search path of its upper endpoint, `m` is marked wherever that is sound. */
    ghost predicate RightDoneAt(lim: Limits, lo: int, key: int, hi: int, m: Interval) {
      lo < m.high < hi && key <= m.high ==>
        (m.low < key < m.high ==> m in equal) && (lim.LeftUp(lo) >= m.low ==> m in less)
    }

    /** Every mark names an interval of `ever`, and a live one wherever a point of the type can pick it
        up. At the greatest value of the type only the intervals that start there are marked `equal`. */
    ghost predicate Only(live: set<Interval>, ever: set<Interval>, lim: Limits, key: int) {
      && less <= ever && equal <= ever && greater <= ever
      && (key > lim.min ==> less <= live)
      && (forall m <- equal :: m in live && (key == lim.max ==> m.low == key))
      && (key < lim.max ==> greater <= live)
    }
  }

  /** A sound mark that a query for `x` picks up names an interval that contains `x`, unless `x` is
      the greatest value of the type and the interval ends there. */
  lemma GivesIsSound(lim: Limits, d: Marks, lo: int, key: int, hi: int, x: int, m: Interval)
    requires d.Sound(lim, lo, key, hi) && lo < x < hi && lim.min <= x <= lim.max
    requires m in d.Gives(key, x)
    ensures lim.Claims(m, x)
  {
  }

  /** The marks of the pivot and of its left child `y` after a right rotation. */
  function RightTurn(p: Marks, y: Marks): (r: (Marks, Marks)) {
    (Marks(p.less + (y.greater - p.greater), p.equal - (y.greater * p.greater), p.greater - y.greater),
     Marks(y.less + p.less, y.equal + p.less, y.greater * p.greater))
  }

  /** The marks of the pivot and of its right child `y` after a left rotation. */
  function LeftTurn(p: Marks, y: Marks): (r: (Marks, Marks)) {
    (Marks(p.less - y.less, p.equal - (y.less * p.less), p.greater + (y.less - p.less)),
     Marks(y.less * p.less, y.equal + p.greater, y.greater + p.greater))
  }

  /** A right rotation turns sound marks into marks that are sound for the new regions, and picks up
      at least what it picked up before, for every point of the pivot's region. */
  lemma RightTurnKeeps(lim: Limits, p: Marks, y: Marks, lo: int, v: int, k: int, hi: int, x: int, m: Interval)
    requires lo < v < k < hi && lim.min <= v && k <= lim.max
    requires p.Sound(lim, lo, k, hi) && y.Sound(lim, lo, v, k)
    ensures RightTurn(p, y).1.Sound(lim, lo, v, hi) && RightTurn(p, y).0.Sound(lim, v, k, hi)
    ensures lo < x < hi && (m in p.Gives(k, x) || (x < k && m in y.Gives(v, x))) ==>
      m in RightTurn(p, y).1.Gives(v, x) || (v < x && m in RightTurn(p, y).0.Gives(k, x))
  {
  }

  lemma RightTurnOnly(live: set<Interval>, ever: set<Interval>, lim: Limits, p: Marks, y: Marks, v: int, k: int)
    requires lim.min <= v < k <= lim.max
    requires p.Only(live, ever, lim, k) && y.Only(live, ever, lim, v)
    ensures RightTurn(p, y).1.Only(live, ever, lim, v) && RightTurn(p, y).0.Only(live, ever, lim, k)
  {
  }

  lemma RightTurnStarts(lim: Limits, p: Marks, y: Marks, lo: int, v: int, k: int, m: Interval)
    requires v < k && y.Sound(lim, lo, v, k)
    ensures m in p.equal && m.low == k ==> m in RightTurn(p, y).0.equal
    ensures m in y.equal ==> m in RightTurn(p, y).1.equal
  {
  }

  lemma LeftTurnKeeps(lim: Limits, p: Marks, y: Marks, lo: int, k: int, v: int, hi: int, x: int, m: Interval)
    requires lo < k < v < hi && lim.min <= k && v <= lim.max
    requires p.Sound(lim, lo, k, hi) && y.Sound(lim, k, v, hi)
    ensures LeftTurn(p, y).1.Sound(lim, lo, v, hi) && LeftTurn(p, y).0.Sound(lim, lo, k, v)
    ensures lo < x < hi && (m in p.Gives(k, x) || (x > k && m in y.Gives(v, x))) ==>
      m in LeftTurn(p, y).1.Gives(v, x) || (x < v && m in LeftTurn(p, y).0.Gives(k, x))
  {
  }

  /** A left rotation could lift the greatest value of the type; rebalancing never does. */
  lemma LeftTurnOnly(live: set<Interval>, ever: set<Interval>, lim: Limits, p: Marks, y: Marks, k: int, v: int)
    requires lim.min <= k < v <= lim.max
    requires p.Only(live, ever, lim, k) && y.Only(live, ever, lim, v)
    ensures v < lim.max ==> LeftTurn(p, y).1.Only(live, ever, lim, v)
    ensures LeftTurn(p, y).0.Only(live, ever, lim, k)
  {
  }

  lemma LeftTurnStarts(lim: Limits, p: Marks, y: Marks, lo: int, k: int, hi: int, m: Interval)
    requires lo < k && p.Sound(lim, lo, k, hi)
    ensures m in p.equal && m.low == k > lim.min ==> m in LeftTurn(p, y).0.equal
    ensures m in y.equal ==> m in LeftTurn(p, y).1.equal
  {
  }

  // ----- the form of the marks

  /** A right rotation keeps the marks on the two search paths; of an interval only marked from its
      lower endpoint, too. */
  lemma RightTurnForm(lim: Limits, p: Marks, y: Marks, lo: int, v: int, k: int, hi: int, m: Interval)
    requires lim.min - 1 <= lo < v < k < hi <= lim.max + 1 && lim.Inside(m)
    requires p.Sound(lim, lo, k, hi) && y.Sound(lim, lo, v, k)
    requires p.TightAt(lo, hi, m) && y.TightAt(lo, k, m)
    requires p.LeftDoneAt(lim, lo, k, hi, m) && y.LeftDoneAt(lim, lo, v, k, m)
    ensures RightTurn(p, y).1.TightAt(lo, hi, m) && RightTurn(p, y).0.TightAt(v, hi, m)
    ensures RightTurn(p, y).1.LeftDoneAt(lim, lo, v, hi, m) && RightTurn(p, y).0.LeftDoneAt(lim, v, k, hi, m)
    ensures p.RightDoneAt(lim, lo, k, hi, m) && y.RightDoneAt(lim, lo, v, k, m) ==>
      RightTurn(p, y).1.RightDoneAt(lim, lo, v, hi, m) && RightTurn(p, y).0.RightDoneAt(lim, v, k, hi, m)
  {
  }

  lemma LeftTurnForm(lim: Limits, p: Marks, y: Marks, lo: int, k: int, v: int, hi: int, m: Interval)
    requires lim.min - 1 <= lo < k < v < hi <= lim.max + 1 && lim.Inside(m)
    requires p.Sound(lim, lo, k, hi) && y.Sound(lim, k, v, hi)
    requires p.TightAt(lo, hi, m) && y.TightAt(k, hi, m)
    requires p.RightDoneAt(lim, lo, k, hi, m) && y.RightDoneAt(lim, k, v, hi, m)
    ensures LeftTurn(p, y).1.TightAt(lo, hi, m) && LeftTurn(p, y).0.TightAt(lo, v, m)
    ensures LeftTurn(p, y).1.RightDoneAt(lim, lo, v, hi, m) && LeftTurn(p, y).0.RightDoneAt(lim, lo, k, v, m)
    ensures p.LeftDoneAt(lim, lo, k, hi, m) && y.LeftDoneAt(lim, k, v, hi, m) ==>
      LeftTurn(p, y).1.LeftDoneAt(lim, lo, v, hi, m) && LeftTurn(p, y).0.LeftDoneAt(lim, lo, k, v, m)
  {
  }

  /** A left rotation at a node below the lower endpoint of a half-inserted interval. */
  lemma LeftTurnHalf(lim: Limits, p: Marks, y: Marks, lo: int, k: int, v: int, hi: int, m: Interval)
    requires lim.min - 1 <= lo < k < v < hi <= lim.max + 1 && lim.Inside(m) && k < m.low < hi
    requires p.Sound(lim, lo, k, hi) && y.Sound(lim, k, v, hi)
    requires p.TightAt(lo, hi, m) && y.TightAt(k, hi, m)
    requires p.LeftDoneAt(lim, lo, k, hi, m) && y.LeftDoneAt(lim, k, v, hi, m)
    ensures LeftTurn(p, y).1.TightAt(lo, hi, m) && LeftTurn(p, y).0.TightAt(lo, v, m)
    ensures LeftTurn(p, y).1.LeftDoneAt(lim, lo, v, hi, m) && LeftTurn(p, y).0.LeftDoneAt(lim, lo, k, v, m)
  {
  }
}
