/** What a run leaves behind, told by counting the run's steps: which thread has which slot, and which
    records are in its file. */
module RunFacts {
  import opened Basics
  import opened EventList
  import opened ThreadSlots

  // ----- counting steps

  /** The number of registrations before step `i` */
  ghost function RegistersBefore(ops: seq<Op>, i: nat): nat
    requires i <= |ops|
  {
    |set j | 0 <= j < i && ops[j].Register?|
  }

  /** The number of probe hits of `t` before step `i` */
  ghost function CallsBefore(ops: seq<Op>, t: int, i: nat): nat
    requires i <= |ops|
  {
    |set j | 0 <= j < i && ops[j].Call? && ops[j].tid == t|
  }

  /** The number of entries before the one at `i` that are thread ids */
  ghost function PositiveBefore(items: Items, i: nat): nat
    requires i <= |items|
  {
    |set j | 0 <= j < i && items[j].0 > 0|
  }

  lemma RegistersStep(ops: seq<Op>, i: nat)
    requires i < |ops|
    ensures RegistersBefore(ops, i + 1) == RegistersBefore(ops, i) + if ops[i].Register? then 1 else 0
  {
    var a := set j | 0 <= j < i && ops[j].Register?;
    var b := set j | 0 <= j < i + 1 && ops[j].Register?;
    assert b == if ops[i].Register? then a + {i} else a;
  }

  lemma CallsStep(ops: seq<Op>, t: int, i: nat)
    requires i < |ops|
    ensures CallsBefore(ops, t, i + 1) == CallsBefore(ops, t, i) + if ops[i].Call? && ops[i].tid == t then 1 else 0
  {
    var a := set j | 0 <= j < i && ops[j].Call? && ops[j].tid == t;
    var b := set j | 0 <= j < i + 1 && ops[j].Call? && ops[j].tid == t;
    assert b == if ops[i].Call? && ops[i].tid == t then a + {i} else a;
  }

  lemma PositiveStep(items: Items, i: nat)
    requires i < |items|
    ensures PositiveBefore(items, i + 1) == PositiveBefore(items, i) + if items[i].0 > 0 then 1 else 0
  {
    var a := set j | 0 <= j < i && items[j].0 > 0;
    var b := set j | 0 <= j < i + 1 && items[j].0 > 0;
    assert b == if items[i].0 > 0 then a + {i} else a;
  }

  /** Counts look at the steps before only. */
  lemma OpsPrefix(ops: seq<Op>, n: nat, t: int, i: nat)
    requires i <= n <= |ops|
    ensures RegistersBefore(ops[..n], i) == RegistersBefore(ops, i)
    ensures CallsBefore(ops[..n], t, i) == CallsBefore(ops, t, i)
  {
    assert (set j | 0 <= j < i && ops[..n][j].Register?) == (set j | 0 <= j < i && ops[j].Register?);
    assert (set j | 0 <= j < i && ops[..n][j].Call? && ops[..n][j].tid == t) ==
      (set j | 0 <= j < i && ops[j].Call? && ops[j].tid == t);
  }

  lemma ItemsPrefix(items: Items, n: nat, i: nat)
    requires i <= n <= |items|
    ensures PositiveBefore(items[..n], i) == PositiveBefore(items, i)
  {
    assert (set j | 0 <= j < i && items[..n][j].0 > 0) == (set j | 0 <= j < i && items[j].0 > 0);
  }

  lemma {:induction false} CallsMonotone(ops: seq<Op>, t: int, i: nat, n: nat)
    requires i <= n <= |ops|
    ensures CallsBefore(ops, t, i) <= CallsBefore(ops, t, n)
  {
    if i < n {
      CallsMonotone(ops, t, i, n - 1);
      CallsStep(ops, t, n - 1);
    }
  }

  // ----- who has a slot

  /** Step `k` registers a thread that gets slot `f`. */
  ghost predicate TakesSlot(ops: seq<Op>, k: int, f: int) {
    0 <= k < |ops| && ops[k].Register? && RegistersBefore(ops, k) == f < 64
  }

  ghost predicate TakenByStep(rs: seq<Op>, ops: seq<Op>, f: int)
    requires 0 <= f < |rs|
  {
    exists k :: TakesSlot(ops, k, f) && 0 <= k < |ops| && rs[f] == ops[k]
  }

  /** `rs` are the first 64 registrations of `ops`, each at the number of registrations before it. */
  ghost predicate FirstRegistrations(rs: seq<Op>, ops: seq<Op>) {
    var all := RegistersBefore(ops, |ops|);
    && |rs| == (if all < 64 then all else 64)
    && (forall k, f :: TakesSlot(ops, k, f) ==> 0 <= f < |rs| && 0 <= k < |ops| && rs[f] == ops[k])
    && (forall f :: 0 <= f < |rs| ==> TakenByStep(rs, ops, f))
  }

  lemma TakesSlotPrefix(ops: seq<Op>, n: nat, k: int, f: int)
    requires n <= |ops|
    ensures TakesSlot(ops[..n], k, f) <==> k < n && TakesSlot(ops, k, f)
  {
    if 0 <= k < n {
      OpsPrefix(ops, n, 0, k);
    }
  }

  /** One more step. */
  lemma FirstRegistrationsStep(rs: seq<Op>, ops: seq<Op>, op: Op)
    requires FirstRegistrations(rs, ops)
    ensures FirstRegistrations(if op.Register? && |rs| < 64 then rs + [op] else rs, ops + [op])
  {
    var n, all := |ops|, ops + [op];
    var rs' := if op.Register? && |rs| < 64 then rs + [op] else rs;
    assert all[..n] == ops;
    RegistersStep(all, n);
    OpsPrefix(all, n, 0, n);
    assert forall f :: TakesSlot(all, n, f) <==> op.Register? && f == RegistersBefore(all, n) < 64;
    forall k, f
      ensures TakesSlot(ops, k, f) <==> k < n && TakesSlot(all, k, f)
    {
      TakesSlotPrefix(all, n, k, f);
    }
    hide RegistersBefore, TakesSlot;
    forall k, f | TakesSlot(all, k, f)
      ensures 0 <= f < |rs'| && 0 <= k < |all| && rs'[f] == all[k]
    {
      TakenFits(all, k, f);
    }
    forall f | 0 <= f < |rs'|
      ensures TakenByStep(rs', all, f)
    {
      if f < |rs| {
        assert TakenByStep(rs, ops, f);
        var k :| TakesSlot(ops, k, f) && 0 <= k < |ops| && rs[f] == ops[k];
        assert TakesSlot(all, k, f) && rs'[f] == all[k];
      } else {
        assert TakesSlot(all, n, f);
      }
    }
  }

  lemma NoRegistrations()
    ensures FirstRegistrations([], [])
  {
    assert forall k, f :: !TakesSlot([], k, f);
  }

  lemma {:induction false} RegisteredAre(ops: seq<Op>)
    ensures FirstRegistrations(Registered(ops), ops)
  {
    hide FirstRegistrations;
    if ops == [] {
      NoRegistrations();
    } else {
      var front, last := ops[..|ops| - 1], ops[|ops| - 1];
      var rs := Registered(front);
      RegisteredAre(front);
      FirstRegistrationsStep(rs, front, last);
      assert Registered(ops) == if last.Register? && |rs| < 64 then rs + [last] else rs;
      assert front + [last] == ops;
    }
  }

  lemma TakenFits(ops: seq<Op>, k: int, f: int)
    requires TakesSlot(ops, k, f)
    ensures 0 <= k < |ops| && 0 <= f < 64
  {
  }

  /** Step `k` registers `t` while a slot is free. */
  ghost predicate Registers(ops: seq<Op>, t: int, k: int) {
    0 <= k < |ops| && ops[k].Register? && ops[k].pid == t && RegistersBefore(ops, k) < 64
  }

  lemma HasIs(ops: seq<Op>, t: int)
    ensures Has(ops, t) <==> exists k :: Registers(ops, t, k)
  {
    RegisteredAre(ops);
    hide RegistersBefore, Registered;
    var rs := Registered(ops);
    if Has(ops, t) {
      var f :| 0 <= f < |rs| && rs[f].pid == t;
      assert TakenByStep(rs, ops, f);
      var k :| TakesSlot(ops, k, f) && 0 <= k < |ops| && rs[f] == ops[k];
      assert Registers(ops, t, k);
    }
    if k :| Registers(ops, t, k) {
      assert TakesSlot(ops, k, RegistersBefore(ops, k));
      assert rs[RegistersBefore(ops, k)].pid == t;
    }
  }

  lemma RegistersPrefix(ops: seq<Op>, n: nat, t: int, k: int)
    requires n <= |ops|
    ensures Registers(ops[..n], t, k) <==> k < n && Registers(ops, t, k)
  {
    if 0 <= k < n {
      OpsPrefix(ops, n, t, k);
    }
  }

  /** A thread is ignored exactly when it hit a probe before it was registered. */
  lemma {:induction false} IgnoredIs(ops: seq<Op>, t: int)
    ensures Ignored(ops, t) <==>
      exists i :: 0 <= i < |ops| && ops[i].Call? && ops[i].tid == t && forall k :: 0 <= k < i ==> !Registers(ops, t, k)
  {
    if ops != [] {
      var n := |ops| - 1;
      IgnoredIs(ops[..n], t);
      HasIs(ops[..n], t);
      forall k
        ensures Registers(ops[..n], t, k) <==> k < n && Registers(ops, t, k)
      {
        RegistersPrefix(ops, n, t, k);
      }
      if Ignored(ops[..n], t) {
        var i :| 0 <= i < n && ops[..n][i].Call? && ops[..n][i].tid == t
          && forall k :: 0 <= k < i ==> !Registers(ops[..n], t, k);
        assert ops[i].Call? && ops[i].tid == t;
      }
      if i :| 0 <= i < |ops| && ops[i].Call? && ops[i].tid == t && forall k :: 0 <= k < i ==> !Registers(ops, t, k) {
        assert i < n ==> ops[..n][i].Call? && ops[..n][i].tid == t;
      }
    }
  }

  // ----- what is recorded

  /** A thread runs exactly when its three set-up steps succeed, and then with the events that parse. */
  lemma StartedIs(t: int, setup: Setup)
    ensures Started(t, setup).tid == t && Started(t, setup).written == [] && Started(t, setup).trace == []
    ensures Started(t, setup).state == Running <==> setup.items.Some? && setup.starts && setup.opens
    ensures Started(t, setup).state != Running ==> Started(t, setup).state == Error
    ensures Started(t, setup).state == Running ==> NamesOf(Started(t, setup).events, setup.items.value)
  {
    if setup.items.Some? {
      AcceptedAre(setup.items.value);
    }
  }

  /** `after` is `before` and then one record for each of `n` events. */
  ghost predicate Appended(before: seq<Record>, after: seq<Record>, n: nat, h: Hit) {
    && |after| == |before| + n
    && after[..|before|] == before
    && forall e :: 0 <= e < n ==>
      after[|before| + e] == Record(h.ts, h.func % 0x1_0000, h.pos, e % 0x100, h.count(e))
  }

  /** A hit adds one record per event, at the end. */
  lemma AfterHitIs(s: Slot, h: Hit)
    ensures Appended(s.trace, AfterHit(s, h).trace, |s.events|, h)
    ensures AfterHit(s, h).tid == s.tid && AfterHit(s, h).state == s.state && AfterHit(s, h).events == s.events
  {
  }

  /** Slot `k` is running and is the one `t` remembers, or the first with its id if it has not looked yet. */
  ghost predicate Reached(slots: seq<Slot>, l: Local, t: int, k: int) {
    && 0 <= k < |slots| && slots[k].state == Running && !l.ignore
    && if l.info.Some? then l.info.value == k else slots[k].tid == t && forall j :: 0 <= j < k ==> slots[j].tid != t
  }

  lemma HitReaches(slots: seq<Slot>, locals: map<int, Local>, t: int, h: Hit, slots': seq<Slot>, locals': map<int, Local>, k: int)
    requires HitStep(slots, locals, t, h, slots', locals') && Reached(slots, LocalOf(locals, t), t, k)
    ensures 0 <= k < |slots| && k < |slots'| && Appended(slots[k].trace, slots'[k].trace, |slots[k].events|, h)
  {
    AfterHitIs(slots[k], h);
    hide AfterHit, Appended;
  }

  /** The record of event `e` at the hit of step `i` stands after those of the hits before. */
  ghost predicate RecordedAt(trace: seq<Record>, ops: seq<Op>, t: int, n: nat, i: int, e: int) {
    0 <= i < |ops| && ops[i].Call? && ops[i].tid == t && 0 <= e < n ==>
      var h, k := ops[i].hit, CallsBefore(ops, t, i) * n + e;
      k < |trace| && trace[k] == Record(h.ts, h.func % 0x1_0000, h.pos, e % 0x100, h.count(e))
  }

  /** `trace` holds `n` records for every hit of `t`, in order, and nothing else. */
  ghost predicate Records(trace: seq<Record>, ops: seq<Op>, t: int, n: nat) {
    && |trace| == CallsBefore(ops, t, |ops|) * n
    && forall i, e :: RecordedAt(trace, ops, t, n, i, e)
  }

  lemma NoCallsNoRecords(ops: seq<Op>, t: int, n: nat)
    requires forall i :: 0 <= i < |ops| ==> !(ops[i].Call? && ops[i].tid == t)
    ensures Records([], ops, t, n)
  {
    assert (set j | 0 <= j < |ops| && ops[j].Call? && ops[j].tid == t) == {};
  }

  lemma RecordsStep(trace: seq<Record>, ops: seq<Op>, op: Op, t: int, n: nat)
    requires Records(trace, ops, t, n)
    ensures Records(trace + if op.Call? && op.tid == t then RecordsOf(n, op.hit) else [], ops + [op], t, n)
  {
    var all, m := ops + [op], |ops|;
    var trace' := trace + if op.Call? && op.tid == t then RecordsOf(n, op.hit) else [];
    var c := CallsBefore(ops, t, m);
    assert all[..m] == ops;
    OpsPrefix(all, m, t, m);
    CallsStep(all, t, m);
    assert (c + 1) * n == c * n + n;
    forall i, e
      ensures RecordedAt(trace', all, t, n, i, e)
    {
      if 0 <= i < m {
        OpsPrefix(all, m, t, i);
        assert all[i] == ops[i] && RecordedAt(trace, ops, t, n, i, e);
      }
    }
  }

  /** What the hits add once `t` is registered, if none came before. */
  lemma NewRecordsAre(ops: seq<Op>, op: Op, t: int, k: nat)
    requires ProperIds(ops) && Registers(ops, t, k) && forall i :: 0 <= i < k ==> !(ops[i].Call? && ops[i].tid == t)
    ensures var s := Started(t, ops[k].setup);
      NewRecords(ops, op, t) ==
        if op.Call? && op.tid == t && s.state == Running then RecordsOf(|s.events|, op.hit) else []
  {
    IgnoredIs(ops, t);
    HasIs(ops, t);
    RegisteredAre(ops);
    assert TakesSlot(ops, k, RegistersBefore(ops, k));
    SetUpForIs(ops, RegistersBefore(ops, k));
  }

  lemma {:induction false} TraceOfStarted(ops: seq<Op>, t: int, k: nat)
    requires ProperIds(ops) && Registers(ops, t, k) && forall i :: 0 <= i < k ==> !(ops[i].Call? && ops[i].tid == t)
    ensures var s := Started(t, ops[k].setup);
      if s.state == Running then Records(Trace(ops, t), ops, t, |s.events|) else Trace(ops, t) == []
  {
    var n := |ops| - 1;
    var front, last := ops[..n], ops[n];
    var s := Started(t, ops[k].setup);
    assert ops == front + [last];
    if k == n {
      NewIdHasNoSlot(front, last);
      NoSlotNoTrace(front, t);
      NoCallsNoRecords(ops, t, |s.events|);
    } else {
      RegistersPrefix(ops, n, t, k);
      ProperPrefix(ops, n);
      assert front[k] == ops[k] && forall i :: 0 <= i < k ==> front[i] == ops[i];
      TraceOfStarted(front, t, k);
      NewRecordsAre(front, last, t, k);
      if s.state == Running {
        RecordsStep(Trace(front, t), front, last, t, |s.events|);
      }
    }
  }

  /** A thread that gets a slot before its first hit has exactly the records of its hits, one for each
      event that parses, if its set-up steps succeed, and none otherwise. */
  lemma TraceIs(ops: seq<Op>, t: int, k: nat)
    requires ProperIds(ops) && Registers(ops, t, k) && forall i :: 0 <= i < k ==> !(ops[i].Call? && ops[i].tid == t)
    ensures var setup := ops[k].setup;
      if setup.items.Some? && setup.starts && setup.opens
      then Records(Trace(ops, t), ops, t, NamedBefore(setup.items.value, |setup.items.value|))
      else Trace(ops, t) == []
  {
    TraceOfStarted(ops, t, k);
    StartedIs(t, ops[k].setup);
  }

  /** Every other thread has none: it got no slot, or hit a probe first. */
  lemma OtherTraceIs(ops: seq<Op>, t: int)
    requires ProperIds(ops)
    requires forall k :: Registers(ops, t, k) ==> exists i :: 0 <= i < k && ops[i].Call? && ops[i].tid == t
    ensures Trace(ops, t) == []
  {
    HasIs(ops, t);
    if Has(ops, t) {
      var k :| Registers(ops, t, k);
      var i :| 0 <= i < k && ops[i].Call? && ops[i].tid == t;
      assert forall j :: 0 <= j < i ==> !Registers(ops, t, j);
      IgnoredIs(ops, t);
      IgnoredForever(ops, t);
    } else {
      NoSlotNoTrace(ops, t);
    }
  }

  // ----- the initial scan

  /** The entry at `i` is a thread id among the first 64 entries, and the one after `f` others. */
  ghost predicate TakesPlace(items: Items, i: int, f: int) {
    0 <= i < |items| && i < 64 && items[i].0 > 0 && PositiveBefore(items, i) == f
  }

  /** The number of threads that the scan registers */
  ghost function ScanCount(items: Items): nat {
    if items == [] then 1 else PositiveBefore(items, if |items| < 64 then |items| else 64)
  }

  /** Slot `f` is for the entry at `i`. */
  ghost predicate Placed(start: seq<Op>, items: Items, i: int, f: int) {
    TakesPlace(items, i, f) && 0 <= f < |start| && start[f] == Register(items[i].0, items[i].1)
  }

  ghost predicate ForSome(start: seq<Op>, items: Items, f: int) {
    exists i :: Placed(start, items, i, f)
  }

  /** `start` are the thread ids among the first 64 entries, in directory order. */
  ghost predicate FirstIds(start: seq<Op>, items: Items) {
    && |start| == PositiveBefore(items, if |items| < 64 then |items| else 64)
    && (forall i, f :: TakesPlace(items, i, f) ==> Placed(start, items, i, f))
    && (forall f :: 0 <= f < |start| ==> ForSome(start, items, f))
  }

  /** `start` registers those, or the process alone if there are no entries. */
  ghost predicate ScanRegisters(start: seq<Op>, pid: int, setup: Setup, items: Items) {
    |start| == ScanCount(items) <= 64 && if items == [] then start[0] == Register(pid, setup) else FirstIds(start, items)
  }

  lemma PlaceStep(items: Items)
    requires items != []
    ensures forall i, f :: TakesPlace(items[..|items| - 1], i, f) <==> i < |items| - 1 && TakesPlace(items, i, f)
  {
    var n := |items| - 1;
    forall i, f
      ensures TakesPlace(items[..n], i, f) <==> i < n && TakesPlace(items, i, f)
    {
      if 0 <= i < n {
        ItemsPrefix(items, n, i);
      }
    }
  }

  lemma FirstIdsStep(ps: seq<Op>, items: Items)
    requires 0 < |items| <= 64 && FirstIds(ps, items[..|items| - 1])
    ensures var last := items[|items| - 1];
      FirstIds(if last.0 > 0 then ps + [Register(last.0, last.1)] else ps, items)
  {
    var n := |items| - 1;
    var front, last := items[..n], items[n];
    var ps' := if last.0 > 0 then ps + [Register(last.0, last.1)] else ps;
    PositiveStep(items, n);
    ItemsPrefix(items, n, n);
    PlaceStep(items);
    assert forall f :: TakesPlace(items, n, f) <==> last.0 > 0 && f == PositiveBefore(items, n);
    assert forall i :: 0 <= i < n ==> front[i] == items[i];
    forall i, f | TakesPlace(items, i, f)
      ensures Placed(ps', items, i, f)
    {
      if i < n {
        assert Placed(ps, front, i, f);
      }
    }
    forall f | 0 <= f < |ps'|
      ensures ForSome(ps', items, f)
    {
      if f < |ps| {
        assert ForSome(ps, front, f);
        var i :| Placed(ps, front, i, f);
        assert Placed(ps', items, i, f);
      } else {
        assert Placed(ps', items, n, f);
      }
    }
  }

  lemma {:induction false} PositiveAre(items: Items)
    requires |items| <= 64
    ensures FirstIds(Positive(items), items)
  {
    if items == [] {
      assert forall i, f :: !TakesPlace(items, i, f);
    } else {
      PositiveAre(items[..|items| - 1]);
      FirstIdsStep(Positive(items[..|items| - 1]), items);
    }
  }

  /** The scan registers these threads and no others. */
  lemma ScannedAre(pid: int, setup: Setup, items: Items)
    ensures ScanRegisters(Scanned(pid, setup, items), pid, setup, items)
  {
    if 0 < |items| <= 64 {
      PositiveAre(items);
    } else if |items| > 64 {
      var first := items[..64];
      var start := Positive(first);
      PositiveAre(first);
      ItemsPrefix(items, 64, 64);
      forall i, f
        ensures TakesPlace(first, i, f) <==> TakesPlace(items, i, f)
        ensures Placed(start, first, i, f) <==> Placed(start, items, i, f)
      {
        if 0 <= i < 64 {
          ItemsPrefix(items, 64, i);
          assert first[i] == items[i];
        }
      }
      assert forall f :: ForSome(start, first, f) <==> ForSome(start, items, f);
    }
  }

  /** The table after the scan: the slots of the registered threads, set up, and free slots. */
  ghost predicate SlotsScanned(slots: seq<Slot>, nb: nat, pid: int, setup: Setup, items: Items) {
    && nb == ScanCount(items) <= 64 == |slots|
    && (items == [] ==> slots[0] == Started(pid, setup))
    && (forall i, f :: TakesPlace(items, i, f) ==> 0 <= f < nb && slots[f] == Started(items[i].0, items[i].1))
    && (items != [] ==> forall f :: 0 <= f < nb ==> slots[f] != FREE && TakenBySome(items, f))
    && (forall f :: nb <= f < 64 ==> slots[f] == FREE)
  }

  ghost predicate TakenBySome(items: Items, f: int) {
    exists i :: TakesPlace(items, i, f)
  }

  lemma {:induction false} NoHitsNoTrace(ops: seq<Op>, t: int)
    requires forall i :: 0 <= i < |ops| ==> ops[i].Register?
    ensures Trace(ops, t) == []
  {
    if ops != [] {
      NoHitsNoTrace(ops[..|ops| - 1], t);
    }
  }

  lemma OnlyRegisters(pid: int, setup: Setup, items: Items)
    ensures forall i :: 0 <= i < |Scanned(pid, setup, items)| ==> Scanned(pid, setup, items)[i].Register?
    ensures Registered(Scanned(pid, setup, items)) == Scanned(pid, setup, items)
  {
    var start := Scanned(pid, setup, items);
    ScannedAre(pid, setup, items);
    forall f | 0 <= f < |start|
      ensures start[f].Register?
    {
      assert items != [] ==> ForSome(start, items, f);
    }
    RegisteredAll(start);
  }

  lemma ScanTable(slots: seq<Slot>, nb: nat, nid: nat, pid: int, setup: Setup, items: Items)
    requires TableFollows(slots, nb, nid, Scanned(pid, setup, items))
    ensures SlotsScanned(slots, nb, pid, setup, items)
  {
    var start := Scanned(pid, setup, items);
    ScannedAre(pid, setup, items);
    OnlyRegisters(pid, setup, items);
    hide Scanned, Registered;
    forall f | 0 <= f < |start|
      ensures slots[f] == Started(start[f].pid, start[f].setup)
      ensures slots[f] != FREE && (items != [] ==> TakenBySome(items, f))
    {
      NoHitsNoTrace(start, start[f].pid);
      StartedIs(start[f].pid, start[f].setup);
      if items != [] {
        assert ForSome(start, items, f);
      }
    }
    if items == [] {
      assert forall i, f :: !TakesPlace(items, i, f);
    } else {
      forall i, f | TakesPlace(items, i, f)
        ensures 0 <= f < nb && slots[f] == Started(items[i].0, items[i].1)
      {
        assert Placed(start, items, i, f);
      }
    }
  }

  // ----- the files

  /** The file of a thread that was registered before its first hit: every hit of the run if its set-up
      steps succeed, up to the last full buffer if start-up failed. */
  ghost predicate FileIs(file: seq<Record>, ops: seq<Op>, t: int, setup: Setup, failed: bool) {
    if setup.items.Some? && setup.starts && setup.opens then
      exists full :: Records(full, ops, t, NamedBefore(setup.items.value, |setup.items.value|))
        && file == if failed then full[..|full| - |full| % 0x1_0000] else full
    else file == []
  }

  /** Start-up fails exactly when a set-up step of the process itself does. */
  ghost predicate StartFails(pid: int, setup: Setup, items: Items) {
    if items == [] then !(setup.items.Some? && setup.starts && setup.opens)
    else exists i :: (0 <= i < |items| && i < 64 && items[i].0 == pid
      && !(items[i].1.items.Some? && items[i].1.starts && items[i].1.opens))
  }

  /** Step `k` of `ops` registers the thread of slot `f`. */
  ghost predicate TakesLater(items: Items, ops: seq<Op>, k: int, f: int) {
    0 <= k < |ops| && ops[k].Register? && ScanCount(items) + RegistersBefore(ops, k) == f < 64
  }

  /** What a whole run leaves in the files: those of the scanned threads in directory order, then those of
      the threads registered later, up to 64. A thread that hit a probe before its registration has an
      empty file. */
  ghost predicate RunLeaves(files: seq<seq<Record>>, pid: int, setup: Setup, items: Items, ops: seq<Op>) {
    var all, failed := ScanCount(items) + RegistersBefore(ops, |ops|), StartFails(pid, setup, items);
    && |files| == (if all < 64 then all else 64)
    && (items == [] ==> |files| > 0 && FileIs(files[0], ops, pid, setup, failed))
    && (forall i, f :: TakesPlace(items, i, f) ==>
          0 <= f < |files| && FileIs(files[f], ops, items[i].0, items[i].1, failed))
    && (forall k, f :: TakesLater(items, ops, k, f) ==>
          0 <= f < |files| && if HitBefore(ops, k) then files[f] == [] else FileIs(files[f], ops, ops[k].pid, ops[k].setup, failed))
  }

  /** The thread that step `k` registers hit a probe before. */
  ghost predicate HitBefore(ops: seq<Op>, k: int)
    requires 0 <= k < |ops| && ops[k].Register?
  {
    exists i :: 0 <= i < k && ops[i].Call? && ops[i].tid == ops[k].pid
  }

  /** Counting from the beginning of `ops` or from the beginning of the run */
  lemma {:induction false} AfterStart(start: seq<Op>, ops: seq<Op>, t: int, i: nat)
    requires i <= |ops| && forall j :: 0 <= j < |start| ==> start[j].Register?
    ensures RegistersBefore(start + ops, |start| + i) == |start| + RegistersBefore(ops, i)
    ensures CallsBefore(start + ops, t, |start| + i) == CallsBefore(ops, t, i)
  {
    var all := start + ops;
    if i == 0 {
      OnlyStart(start, ops, t, |start|);
      assert RegistersBefore(ops, 0) == 0 && CallsBefore(ops, t, 0) == 0;
    } else {
      AfterStart(start, ops, t, i - 1);
      assert all[|start| + i - 1] == ops[i - 1];
      RegistersStep(all, |start| + i - 1);
      RegistersStep(ops, i - 1);
      CallsStep(all, t, |start| + i - 1);
      CallsStep(ops, t, i - 1);
    }
  }

  lemma {:induction false} OnlyStart(start: seq<Op>, ops: seq<Op>, t: int, i: nat)
    requires i <= |start| && forall j :: 0 <= j < |start| ==> start[j].Register?
    ensures RegistersBefore(start + ops, i) == i && CallsBefore(start + ops, t, i) == 0
  {
    var all := start + ops;
    if i == 0 {
      assert RegistersBefore(all, 0) == 0 && CallsBefore(all, t, 0) == 0;
    } else {
      OnlyStart(start, ops, t, i - 1);
      assert all[i - 1] == start[i - 1];
      RegistersStep(all, i - 1);
      CallsStep(all, t, i - 1);
    }
  }

  lemma RecordsAfterStart(full: seq<Record>, start: seq<Op>, ops: seq<Op>, t: int, n: nat)
    requires Records(full, start + ops, t, n) && forall j :: 0 <= j < |start| ==> start[j].Register?
    ensures Records(full, ops, t, n)
  {
    AfterStart(start, ops, t, |ops|);
    forall i, e
      ensures RecordedAt(full, ops, t, n, i, e)
    {
      if 0 <= i < |ops| {
        AfterStart(start, ops, t, i);
        assert (start + ops)[|start| + i] == ops[i] && RecordedAt(full, start + ops, t, n, |start| + i, e);
      }
    }
  }

  /** Each registered thread's file is what the run from `start` on leaves in it. */
  ghost predicate FilesHold(files: seq<seq<Record>>, start: seq<Op>, ops: seq<Op>, failed: bool) {
    && |files| == |Registered(start + ops)|
    && forall i :: 0 <= i < |files| ==> files[i] == FileOf(start + ops, Registered(start + ops)[i], failed)
  }

  lemma FileFromTrace(trace: seq<Record>, start: seq<Op>, ops: seq<Op>, t: int, setup: Setup, failed: bool)
    requires forall j :: 0 <= j < |start| ==> start[j].Register?
    requires if setup.items.Some? && setup.starts && setup.opens
      then Records(trace, start + ops, t, NamedBefore(setup.items.value, |setup.items.value|)) else trace == []
    ensures FileIs(if failed then Flushed(trace) else trace, ops, t, setup, failed)
  {
    if setup.items.Some? && setup.starts && setup.opens {
      RecordsAfterStart(trace, start, ops, t, NamedBefore(setup.items.value, |setup.items.value|));
    }
  }

  /** What the thread that step `k` registers has recorded at the end */
  lemma TraceOfStep(ops: seq<Op>, k: int, f: int)
    requires ProperIds(ops) && TakesSlot(ops, k, f)
    ensures 0 <= k < |ops| && ops[k].Register?
    ensures var t, setup := ops[k].pid, ops[k].setup;
      if !HitBefore(ops, k) && setup.items.Some? && setup.starts && setup.opens
      then Records(Trace(ops, t), ops, t, NamedBefore(setup.items.value, |setup.items.value|))
      else Trace(ops, t) == []
  {
    var t := ops[k].pid;
    assert Registers(ops, t, k);
    OneRegistration(ops, t, k);
    if HitBefore(ops, k) {
      OtherTraceIs(ops, t);
    } else {
      TraceIs(ops, t, k);
    }
  }

  lemma FileOfSlot(files: seq<seq<Record>>, start: seq<Op>, ops: seq<Op>, failed: bool, k: int, f: int)
    requires forall j :: 0 <= j < |start| ==> start[j].Register?
    requires ProperIds(start + ops) && FilesHold(files, start, ops, failed) && TakesSlot(start + ops, k, f)
    ensures 0 <= k < |start + ops| && 0 <= f < |files|
    ensures if HitBefore(start + ops, k) then files[f] == []
      else FileIs(files[f], ops, (start + ops)[k].pid, (start + ops)[k].setup, failed)
  {
    hide FileIs, RegistersBefore, ProperIds, TakesSlot, Trace, Records, NamedBefore, HitBefore, Registered;
    SlotHolds(start + ops, k, f);
    TraceOfStep(start + ops, k, f);
    var r := (start + ops)[k];
    var trace := Trace(start + ops, r.pid);
    assert files[f] == if failed then Flushed(trace) else trace;
    if !HitBefore(start + ops, k) {
      FileFromTrace(trace, start, ops, r.pid, r.setup, failed);
    }
  }

  lemma OneRegistration(ops: seq<Op>, t: int, k: int)
    requires ProperIds(ops) && Registers(ops, t, k)
    ensures forall j :: Registers(ops, t, j) ==> j == k
  {
  }

  lemma SlotHolds(ops: seq<Op>, k: int, f: int)
    requires TakesSlot(ops, k, f)
    ensures 0 <= k < |ops| && 0 <= f < |Registered(ops)| && Registered(ops)[f] == ops[k]
  {
    RegisteredAre(ops);
  }

  /** The registration of the process itself */
  lemma ProcessAt(pid: int, setup: Setup, items: Items) returns (f: nat)
    requires pid > 0 && ProperIds(Scanned(pid, setup, items)) && Has(Scanned(pid, setup, items), pid)
    ensures forall g :: 0 <= g < |Scanned(pid, setup, items)| ==> Scanned(pid, setup, items)[g].Register?
    ensures f < |Scanned(pid, setup, items)| && Scanned(pid, setup, items)[f].pid == pid
    ensures forall g :: 0 <= g < |Scanned(pid, setup, items)| && Scanned(pid, setup, items)[g].pid == pid ==> g == f
    ensures SetUpFor(Scanned(pid, setup, items), pid) == Started(pid, Scanned(pid, setup, items)[f].setup)
  {
    var start := Scanned(pid, setup, items);
    OnlyRegisters(pid, setup, items);
    hide Scanned;
    RegisteredDistinct(start);
    var g :| 0 <= g < |Registered(start)| && Registered(start)[g].pid == pid;
    f := g;
    SetUpForIs(start, f);
  }

  lemma StartFailsIs(pid: int, setup: Setup, items: Items)
    requires pid > 0 && ProperIds(Scanned(pid, setup, items)) && Has(Scanned(pid, setup, items), pid)
    ensures SetUpFor(Scanned(pid, setup, items), pid).state == Error <==> StartFails(pid, setup, items)
  {
    var start := Scanned(pid, setup, items);
    ScannedAre(pid, setup, items);
    var f := ProcessAt(pid, setup, items);
    StartedIs(pid, start[f].setup);
    hide Scanned, SetUpFor, Has, ProperIds, Started, PositiveBefore, ForSome;
    if items != [] {
      var i := EntryOf(start, items, f);
      forall j | 0 <= j < |items| && j < 64 && items[j].0 == pid
        ensures items[j].1 == start[f].setup
      {
        assert TakesPlace(items, j, PositiveBefore(items, j));
        assert Placed(start, items, j, PositiveBefore(items, j));
      }
    }
  }

  lemma EntryOf(start: seq<Op>, items: Items, f: nat) returns (i: int)
    requires FirstIds(start, items) && f < |start|
    ensures 0 <= i < |items| && i < 64 && start[f] == Register(items[i].0, items[i].1)
  {
    assert ForSome(start, items, f);
    i :| Placed(start, items, i, f);
  }

  /** The files of a run hold what its steps say. */
  lemma RunLeft(files: seq<seq<Record>>, pid: int, setup: Setup, items: Items, ops: seq<Op>)
    requires pid > 0 && ProperIds(Scanned(pid, setup, items) + ops) && Has(Scanned(pid, setup, items), pid)
    requires FilesHold(files, Scanned(pid, setup, items), ops, SetUpFor(Scanned(pid, setup, items), pid).state == Error)
    ensures RunLeaves(files, pid, setup, items, ops)
  {
    hide Scanned, ProperIds, Has, SetUpFor, FilesHold, RunLeaves, StartFails, ScanRegisters;
    var start := Scanned(pid, setup, items);
    ScannedAre(pid, setup, items);
    OnlyRegisters(pid, setup, items);
    assert (start + ops)[..|start|] == start;
    ProperPrefix(start + ops, |start|);
    StartFailsIs(pid, setup, items);
    StartLeaves(files, start, pid, setup, items, ops);
  }

  lemma StartLeaves(files: seq<seq<Record>>, start: seq<Op>, pid: int, setup: Setup, items: Items, ops: seq<Op>)
    requires ScanRegisters(start, pid, setup, items) && forall j :: 0 <= j < |start| ==> start[j].Register?
    requires ProperIds(start + ops) && FilesHold(files, start, ops, StartFails(pid, setup, items))
    ensures RunLeaves(files, pid, setup, items, ops)
  {
    hide FileIs, StartFails, ProperIds, FilesHold, RegistersBefore, PositiveBefore, HitBefore;
    var failed := StartFails(pid, setup, items);
    FileCount(files, start, ops, failed);
    if items == [] {
      ScannedFile(files, start, ops, failed, 0);
      assert forall i, f :: !TakesPlace(items, i, f);
    }
    forall i, f | TakesPlace(items, i, f)
      ensures 0 <= f < |files| && FileIs(files[f], ops, items[i].0, items[i].1, failed)
    {
      assert Placed(start, items, i, f);
      ScannedFile(files, start, ops, failed, f);
    }
    forall k, f | TakesLater(items, ops, k, f)
      ensures 0 <= f < |files|
      ensures if HitBefore(ops, k) then files[f] == [] else FileIs(files[f], ops, ops[k].pid, ops[k].setup, failed)
    {
      LaterFile(files, start, ops, failed, k, f);
    }
  }

  lemma FileCount(files: seq<seq<Record>>, start: seq<Op>, ops: seq<Op>, failed: bool)
    requires FilesHold(files, start, ops, failed) && forall j :: 0 <= j < |start| ==> start[j].Register?
    ensures var all := |start| + RegistersBefore(ops, |ops|); |files| == if all < 64 then all else 64
  {
    RegisteredAre(start + ops);
    AfterStart(start, ops, 0, |ops|);
  }

  lemma ScannedFile(files: seq<seq<Record>>, start: seq<Op>, ops: seq<Op>, failed: bool, f: int)
    requires forall j :: 0 <= j < |start| ==> start[j].Register?
    requires ProperIds(start + ops) && FilesHold(files, start, ops, failed) && 0 <= f < |start| <= 64
    ensures f < |files| && FileIs(files[f], ops, start[f].pid, start[f].setup, failed)
  {
    var all := start + ops;
    OnlyStart(start, ops, 0, f);
    assert all[f] == start[f] && forall i :: 0 <= i < f ==> all[i] == start[i];
    assert TakesSlot(all, f, f) && !HitBefore(all, f);
    FileOfSlot(files, start, ops, failed, f, f);
  }

  lemma HitAfterStart(start: seq<Op>, ops: seq<Op>, k: int)
    requires 0 <= k < |ops| && ops[k].Register? && forall j :: 0 <= j < |start| ==> start[j].Register?
    ensures (start + ops)[|start| + k] == ops[k]
    ensures HitBefore(start + ops, |start| + k) <==> HitBefore(ops, k)
  {
    var all, n := start + ops, |start|;
    assert all[n + k] == ops[k] && forall j :: 0 <= j < n ==> all[j] == start[j];
    if HitBefore(all, n + k) {
      var i :| 0 <= i < n + k && all[i].Call? && all[i].tid == ops[k].pid;
      assert ops[i - n] == all[i];
    }
    if HitBefore(ops, k) {
      var i :| 0 <= i < k && ops[i].Call? && ops[i].tid == ops[k].pid;
      assert all[n + i] == ops[i];
    }
  }

  lemma LaterFile(files: seq<seq<Record>>, start: seq<Op>, ops: seq<Op>, failed: bool, k: int, f: int)
    requires forall j :: 0 <= j < |start| ==> start[j].Register?
    requires ProperIds(start + ops) && FilesHold(files, start, ops, failed)
    requires 0 <= k < |ops| && ops[k].Register? && |start| + RegistersBefore(ops, k) == f < 64
    ensures 0 <= f < |files|
    ensures if HitBefore(ops, k) then files[f] == [] else FileIs(files[f], ops, ops[k].pid, ops[k].setup, failed)
  {
    var all, n := start + ops, |start|;
    AfterStart(start, ops, 0, k);
    assert all[n + k] == ops[k] && TakesSlot(all, n + k, f);
    HitAfterStart(start, ops, k);
    hide RegistersBefore, HitBefore, FileIs, ProperIds, FilesHold, TakesSlot;
    FileOfSlot(files, start, ops, failed, n + k, f);
  }
}
