/** Reading a counter through the perf mmap page: the kernel updates the page and bumps its lock word;
    the reader retries until the lock word is the same before and after. */
module PerfPage {
  import opened Basics

  // ----- 64-bit arithmetic

  const TWO32: int := 0x1_0000_0000
  const TWO63: int := 0x8000_0000_0000_0000
  const TWO64: int := 0x1_0000_0000_0000_0000

  /** The 64-bit two's complement value congruent to `x`. */
  function Signed64(x: int): (r: int)
    ensures -TWO63 <= r < TWO63 && (r - x) % TWO64 == 0
  {
    var u := x % TWO64;
    if u < TWO63 then u else u - TWO64
  }

  lemma Signed64Keeps(x: int)
    ensures Signed64(x) % TWO64 == x % TWO64
  {
  }

  lemma NextLock(x: int)
    ensures (x % TWO32 + 1) % TWO32 == (x + 1) % TWO32
  {
  }

  /** `x <<= s` and `x >>= s` on `int64_t`. */
  function ShiftLeft(x: int, s: nat): int {
    Signed64(x * Pow2(s))
  }

  function ShiftRight(x: int, s: nat): int {
    x / Pow2(s)
  }

  lemma Congruent(x: int, m: int)
    requires m > 0
    ensures (x % m - x) % m == 0 && (x % m - m - x) % m == 0
  {
    var q := x / m;
    assert x == q * m + x % m;
    ModUnique(x % m - x, m, -q, 0);
    ModUnique(x % m - m - x, m, -q - 1, 0);
  }

  /** The value of the low `w` bits of `x` in two's complement. */
  function SignExtend(x: int, w: nat): (r: int)
    requires w > 0
    ensures 0 - Pow2(w - 1) <= r < Pow2(w - 1) && (r - x) % Pow2(w) == 0
  {
    var u := x % Pow2(w);
    Congruent(x, Pow2(w));
    if u < Pow2(w - 1) then u else u - Pow2(w)
  }

  lemma Pow2Of64()
    ensures Pow2(64) == TWO64 && Pow2(63) == TWO63
  {
    assert Pow2(8) == 256;
    Pow2Sum(8, 8);
    Pow2Sum(16, 16);
    Pow2Sum(32, 32);
    assert Pow2(64) == 2 * Pow2(63);
  }

  lemma ProductNonNegative(a: int, b: int)
    requires a >= 0 && b >= 0
    ensures a * b >= 0
  {
  }

  lemma MulLess(a: int, b: int, k: int)
    requires a < b && k > 0
    ensures a * k + k <= b * k
  {
    ProductNonNegative(b - a - 1, k);
    assert (b - a - 1) * k == b * k - a * k - k;
  }

  lemma ModUnique(a: int, m: int, q: int, r: int)
    requires m > 0 && a == q * m + r && 0 <= r < m
    ensures a % m == r && a / m == q
  {
    var q', r' := a / m, a % m;
    assert a == q' * m + r' && 0 <= r' < m;
    if q > q' {
      MulLess(q', q, m);
    } else if q < q' {
      MulLess(q, q', m);
    }
  }

  lemma ScaledMod(x: int, m: int, k: int)
    requires m > 0 && k > 0 && m * k > 0
    ensures (x * k) % (m * k) == (x % m) * k
  {
    var q, r := x / m, x % m;
    assert x == q * m + r;
    MulLess(r, m, k);
    ProductNonNegative(r, k);
    assert x * k == q * (m * k) + r * k by {
      assert (q * m + r) * k == q * m * k + r * k;
    }
    ModUnique(x * k, m * k, q, r * k);
  }

  /** `2^w` and `2^(64-w)` multiply to 2^64. */
  lemma Halves(w: nat)
    requires 0 < w <= 64
    ensures Pow2(w) == 2 * Pow2(w - 1)
    ensures Pow2(w) * Pow2(64 - w) == TWO64 && Pow2(w - 1) * Pow2(64 - w) == TWO63
  {
    Pow2Of64();
    Pow2Sum(w, 64 - w);
    Pow2Sum(w - 1, 64 - w);
    assert w - 1 + (64 - w) == 63;
  }

  /** Taking a scaled value below the sign bit, or wrapping it around, and scaling back */
  lemma ScaleBack(u: int, m: int, h: int, k: int)
    requires 0 <= u < m && m == 2 * h && k > 0 && h * k == TWO63 && m * k == TWO64
    ensures 0 <= u * k < TWO64
    ensures (if u * k < TWO63 then u * k else u * k - TWO64) / k == if u < h then u else u - m
  {
    ProductNonNegative(u, k);
    MulLess(u, m, k);
    if u < h {
      MulLess(u, h, k);
      ModUnique(u * k, k, u, 0);
    } else {
      MulLess(h - 1, u, k);
      assert (h - 1) * k + k == h * k;
      assert (u - m) * k == u * k - m * k;
      ModUnique((u - m) * k, k, u - m, 0);
    }
  }

  /** The two shifts sign-extend the low `w` bits. */
  lemma ShiftsSignExtend(x: int, w: nat)
    requires 0 < w <= 64
    ensures ShiftRight(ShiftLeft(x, 64 - w), 64 - w) == SignExtend(x, w)
  {
    var k, m := Pow2(64 - w), Pow2(w);
    Halves(w);
    ScaledMod(x, m, k);
    ScaleBack(x % m, m, Pow2(w - 1), k);
    hide Pow2;
    assert (x * k) % TWO64 == (x % m) * k;
  }

  // ----- the page

  /** The fields of one version of the page that the count depends on. */
  datatype Page = Page(lock: int, index: int, pmcWidth: nat, offset: int, capUserRdpmc: bool)

  /** `page(t)` is what the page holds at time `t`. An update is atomic and bumps the lock word. */
  ghost predicate History(page: nat -> Page) {
    && (forall t: nat :: 0 <= page(t).lock < TWO32 && 0 < page(t).pmcWidth <= 64)
    && (forall t: nat :: page(t + 1) == page(t) || page(t + 1).lock == (page(t).lock + 1) % TWO32)
  }

  /** The number of updates from time `t` to time `u`. */
  ghost function Updates(page: nat -> Page, t: nat, u: nat): nat
    requires t <= u
  {
    if t == u then 0 else Updates(page, t, u - 1) + if page(u) == page(u - 1) then 0 else 1
  }

  /** The lock word counts updates modulo its width. */
  lemma {:induction false} LockCounts(page: nat -> Page, t: nat, u: nat)
    requires History(page) && t <= u
    ensures page(u).lock == (page(t).lock + Updates(page, t, u)) % TWO32
  {
    if t < u {
      LockCounts(page, t, u - 1);
      assert page(u - 1 + 1) == page(u);
      NextLock(page(t).lock + Updates(page, t, u - 1));
    }
  }

  lemma {:induction false} NoUpdateNoChange(page: nat -> Page, t: nat, v: nat, u: nat)
    requires t <= v <= u && Updates(page, t, u) == 0
    ensures page(v) == page(t)
  {
    if t < u {
      if v == u {
        NoUpdateNoChange(page, t, u - 1, u - 1);
      } else {
        NoUpdateNoChange(page, t, v, u - 1);
      }
    }
  }

  /** Equal lock words and fewer updates than the lock word has values: one version all along. */
  lemma SameLockSameVersion(page: nat -> Page, t: nat, v: nat, u: nat)
    requires History(page) && t <= v <= u && page(t).lock == page(u).lock && Updates(page, t, u) < TWO32
    ensures page(v) == page(t)
  {
    LockCounts(page, t, u);
    NoUpdateNoChange(page, t, v, u);
  }

  /** Without the bound the test can pass on a page that has changed. */
  lemma LockWordWraps() returns (page: nat -> Page, u: nat)
    ensures History(page) && page(0).lock == page(u).lock && page(0) != page(u)
  {
    page := t => Page(t % TWO32, 1, 48, t, true);
    u := TWO32;
    forall t: nat
      ensures page(t + 1).lock == (page(t).lock + 1) % TWO32
    {
      NextLock(t);
    }
  }

  // ----- the reader

  /** A pass makes seven accesses: the lock, index, width, offset and capability fields, the counter
      register, and the lock again. */
  const ACCESSES: nat := 7

  datatype Outcome = Count(value: int) | Fallback | Retrying

  /** The time of each access: later accesses are not earlier. */
  ghost predicate Clock(at: nat -> nat) {
    forall i, j :: i <= j ==> at(i) <= at(j)
  }

  /** `value` is computed from the one version `p` that the page holds throughout `[t, u]`, and from
      the counter register that version names, read within that time. */
  ghost predicate Consistent(page: nat -> Page, rdpmc: (int, nat) -> int, t: nat, u: nat, r: nat, value: int)
    requires History(page)
  {
    var p := page(t);
    && t <= r <= u && (forall v: nat :: t <= v <= u ==> page(v) == p)
    && p.capUserRdpmc && p.index != 0
    && value == (SignExtend(p.offset, p.pmcWidth) + SignExtend(rdpmc(p.index - 1, r), p.pmcWidth)) % TWO64
  }

  /** One pass of the loop, starting with access number `a`: it gives up exactly if the page as read does
      not allow the counter to be read, and is repeated exactly if the lock word has changed. */
  method Pass(page: nat -> Page, rdpmc: (int, nat) -> int, at: nat -> nat, a: nat) returns (r: Outcome)
    requires History(page) && Clock(at) && Updates(page, at(a), at(a + 6)) < TWO32
    ensures r.Fallback? <==> !(page(at(a + 4)).capUserRdpmc && page(at(a + 1)).index != 0)
    ensures r.Retrying? <==> !r.Fallback? && page(at(a + 6)).lock != page(at(a)).lock
    ensures r.Count? ==> Consistent(page, rdpmc, at(a), at(a + 6), at(a + 5), r.value)
    ensures r.Retrying? ==> exists v :: at(a) <= v <= at(a + 6) && page(v) != page(at(a))
  {
    hide SignExtend, ShiftLeft, ShiftRight, Updates, Signed64;
    var seq0 := page(at(a)).lock;
    var index := page(at(a + 1)).index;
    var width := page(at(a + 2)).pmcWidth;
    var count := page(at(a + 3)).offset;
    count := ShiftLeft(count, 64 - width);
    count := ShiftRight(count, 64 - width);
    ShiftsSignExtend(page(at(a + 3)).offset, width);
    if page(at(a + 4)).capUserRdpmc && index != 0 {
      var pmc := rdpmc(index - 1, at(a + 5));
      ShiftsSignExtend(pmc, width);
      pmc := ShiftLeft(pmc, 64 - width);
      pmc := ShiftRight(pmc, 64 - width);
      Signed64Keeps(count + pmc);
      count := Signed64(count + pmc);
    } else {
      return Fallback;
    }
    if page(at(a + 6)).lock != seq0 {
      return Retrying;
    }
    forall v | at(a) <= v <= at(a + 6)
      ensures page(v) == page(at(a))
    {
      SameLockSameVersion(page, at(a), v, at(a + 6));
    }
    return Count(count % TWO64);
  }

  /** `mmap_read_self`, cut off after the given number of passes: in every interleaving with page
      updates, a count that is returned comes from one version, current during the whole last pass. The
      loop ends with the first pass that finds the lock word unchanged or may not read the counter. */
  method MmapReadSelf(page: nat -> Page, rdpmc: (int, nat) -> int, at: nat -> nat, passes: nat)
    returns (r: Outcome, last: nat)
    requires History(page) && Clock(at)
    requires forall k :: 0 <= k < passes ==> Updates(page, at(ACCESSES * k), at(ACCESSES * k + 6)) < TWO32
    ensures !r.Retrying? ==> last < passes
    ensures r.Count? ==>
      Consistent(page, rdpmc, at(ACCESSES * last), at(ACCESSES * last + 6), at(ACCESSES * last + 5), r.value)
    ensures r.Fallback? ==> !(page(at(ACCESSES * last + 4)).capUserRdpmc && page(at(ACCESSES * last + 1)).index != 0)
    ensures forall k :: 0 <= k < (if r.Retrying? then passes else last) ==>
      page(at(ACCESSES * k + 6)).lock != page(at(ACCESSES * k)).lock
  {
    hide History, Clock, Updates, Consistent;
    r, last := Retrying, 0;
    for k := 0 to passes
      invariant r.Retrying?
      invariant forall i :: 0 <= i < k ==> page(at(ACCESSES * i + 6)).lock != page(at(ACCESSES * i)).lock
    {
      r := Pass(page, rdpmc, at, ACCESSES * k);
      last := k;
      if !r.Retrying? {
        return;
      }
    }
  }

  /** If the page always allows the counter to be read and no update falls into one of the passes, the
      result is a count. */
  method ReadsQuietPage(page: nat -> Page, rdpmc: (int, nat) -> int, at: nat -> nat, passes: nat, ghost quiet: nat)
    returns (r: Outcome)
    requires History(page) && Clock(at)
    requires forall k :: 0 <= k < passes ==> Updates(page, at(ACCESSES * k), at(ACCESSES * k + 6)) < TWO32
    requires forall t: nat :: page(t).capUserRdpmc && page(t).index != 0
    requires quiet < passes && Updates(page, at(ACCESSES * quiet), at(ACCESSES * quiet + 6)) == 0
    ensures r.Count?
  {
    var last;
    r, last := MmapReadSelf(page, rdpmc, at, passes);
    NoUpdateNoChange(page, at(ACCESSES * quiet), at(ACCESSES * quiet + 6), at(ACCESSES * quiet + 6));
  }
}
