/** The probe runtime's thread slots and records as values, and what a whole run must leave in them. */
module ThreadSlots {
  import opened Basics
  import opened EventList

  const PROF_THREAD_MAX: nat := 64
  const PROF_RECORD_CACHE: nat := 0x1_0000
  const UINT_MAX: nat := 0xFFFF_FFFF

  // ----- records

  datatype Record = Record(ts: int, funcIdx: nat, pos: nat, evIdx: nat, count: int)

  /** One probe hit: which function, on entry (0) or exit (1), the time stamp, and what each event's
      counter reads. */
  datatype Hit = Hit(func: nat, pos: nat, ts: int, count: nat -> int)

  /** The records of one hit, one per event. The function index is stored in 16 bits and the event
      number in 8. */
  function RecordsOf(n: nat, h: Hit): (rs: seq<Record>)
    ensures |rs| == n
  {
    seq(n, (i: nat) => Record(h.ts, h.func % 0x1_0000, h.pos, i % 0x100, h.count(i)))
  }

  /** Every record names the event it was read from exactly when there are at most 256 events. */
  lemma RecordsNameEvents(list: EventList, names: seq<string>, h: Hit)
    requires list.Holds(names)
    ensures (forall i :: 0 <= i < |names| ==>
        RecordsOf(|names|, h)[i].evIdx == list.entries[i].idx && RecordsOf(|names|, h)[i].count == h.count(list.entries[i].idx))
      <==> |names| <= 256
  {
    if |names| > 256 {
      assert RecordsOf(|names|, h)[256].evIdx == 0 && list.entries[256].idx == 256;
    }
  }

  /** Every record names the function, the side and the time of the hit exactly when the function index
      fits in 16 bits. */
  lemma RecordsNameHit(n: nat, h: Hit)
    requires n > 0
    ensures (forall r <- RecordsOf(n, h) :: r.funcIdx == h.func && r.pos == h.pos && r.ts == h.ts) <==> h.func < 0x1_0000
  {
    assert RecordsOf(n, h)[0].funcIdx == h.func % 0x1_0000;
    assert RecordsOf(n, h)[0] in RecordsOf(n, h);
  }

  /** What a buffer flushed only when full has written. */
  function Flushed(trace: seq<Record>): seq<Record> {
    trace[..|trace| - |trace| % PROF_RECORD_CACHE]
  }

  lemma FlushedIs(written: seq<Record>, rest: seq<Record>)
    requires |written| % PROF_RECORD_CACHE == 0 && |rest| < PROF_RECORD_CACHE
    ensures Flushed(written + rest) == written
  {
    assert |written + rest| % PROF_RECORD_CACHE == |rest|;
  }

  // ----- slots

  datatype State = Uninit | Running | Error

  /** How the calls made while a thread is set up turn out: the parsed event string (if it is not
      empty), whether the events start, whether the output file opens. */
  datatype Setup = Setup(items: Option<seq<Parsed>>, starts: bool, opens: bool)

  /** The abstract value of one slot; `trace` is every record made so far. */
  datatype Slot = Slot(tid: int, state: State, events: seq<string>, written: seq<Record>, trace: seq<Record>)

  const FREE: Slot := Slot(0, Uninit, [], [], [])

  /** A slot set up for `tid` */
  function Started(tid: int, setup: Setup): Slot {
    if setup.items.Some? && setup.starts && setup.opens
    then Slot(tid, Running, Accepted(setup.items.value), [], [])
    else Slot(tid, Error, [], [], [])
  }

  /** A slot that was torn down while running */
  function Destroyed(s: Slot): Slot {
    s.(tid := -1, state := Uninit, written := s.trace)
  }

  /** A slot after an orderly exit */
  function Exited(s: Slot): Slot {
    if s.tid != -1 && s.state == Running then Destroyed(s) else s
  }

  // ----- the table

  /** What a thread remembers between hits: its slot once found, or that it has none. */
  datatype Local = Local(info: Option<nat>, ignore: bool)

  function LocalOf(locals: map<int, Local>, t: int): Local {
    if t in locals then locals[t] else Local(None, false)
  }

  ghost predicate LocalsOk(locals: map<int, Local>) {
    forall t <- locals :: locals[t].info.Some? ==> locals[t].info.value < PROF_THREAD_MAX
  }

  lemma LocalSet(locals: map<int, Local>, t: int, l: Local)
    requires LocalsOk(locals) && (l.info.Some? ==> l.info.value < PROF_THREAD_MAX)
    ensures LocalsOk(locals[t := l])
    ensures LocalOf(locals[t := l], t) == l && forall u :: u != t ==> LocalOf(locals[t := l], u) == LocalOf(locals, u)
  {
  }

  function Occupied(slots: seq<Slot>): (n: nat)
    ensures n <= |slots|
  {
    if slots == [] then 0
    else Occupied(slots[..|slots| - 1]) + if slots[|slots| - 1].tid == 0 then 0 else 1
  }

  lemma {:induction false} AllOccupied(slots: seq<Slot>)
    ensures Occupied(slots) == |slots| <==> forall s <- slots :: s.tid != 0
  {
    if slots != [] {
      var n := |slots| - 1;
      AllOccupied(slots[..n]);
      assert slots == slots[..n] + [slots[n]];
    }
  }

  lemma {:induction false} OccupiedUpdate(slots: seq<Slot>, k: nat, s: Slot)
    requires k < |slots|
    ensures Occupied(slots[k := s]) ==
      Occupied(slots) - (if slots[k].tid == 0 then 0 else 1) + (if s.tid == 0 then 0 else 1)
  {
    var n := |slots| - 1;
    if k == n {
      assert slots[k := s][..n] == slots[..n];
    } else {
      OccupiedUpdate(slots[..n], k, s);
      assert slots[k := s][..n] == slots[..n][k := s];
    }
  }

  /** The slot `d` places after `cur`, around the table */
  function Around(cur: nat, d: nat): (k: nat)
    ensures k < PROF_THREAD_MAX
  {
    (cur + d) % PROF_THREAD_MAX
  }

  lemma AroundReaches(cur: nat, k: nat)
    requires cur < PROF_THREAD_MAX && k < PROF_THREAD_MAX && k != cur
    ensures exists d :: 1 <= d < PROF_THREAD_MAX && Around(cur, d) == k
  {
    var d := if k > cur then k - cur else k + PROF_THREAD_MAX - cur;
    assert Around(cur, d) == k;
  }

  /** `nid` is the first free slot after `cur`, or UINT_MAX exactly when no slot is free. */
  ghost predicate NextFree(slots: seq<Slot>, cur: nat, nid: nat)
    requires |slots| == PROF_THREAD_MAX
  {
    if forall s <- slots :: s.tid != 0 then nid == UINT_MAX
    else exists d :: (
        && 1 <= d < PROF_THREAD_MAX
        && nid == Around(cur, d)
        && slots[nid].tid == 0
        && forall e :: 1 <= e < d ==> slots[Around(cur, e)].tid != 0)
  }

  /** `r` is the first slot of `t`, if it has one. */
  ghost predicate FoundAt(slots: seq<Slot>, t: int, r: Option<nat>) {
    match r
    case None => forall s <- slots :: s.tid != t
    case Some(i) => i < |slots| && slots[i].tid == t && forall j :: 0 <= j < i ==> slots[j].tid != t
  }

  /** The count and the next slot agree with the table, and free slots are empty. */
  ghost predicate Agrees(slots: seq<Slot>, nb: nat, nid: nat)
    requires |slots| == PROF_THREAD_MAX
  {
    && nb == Occupied(slots)
    && (nid == UINT_MAX <==> forall s <- slots :: s.tid != 0)
    && (nid != UINT_MAX ==> nid < PROF_THREAD_MAX && slots[nid] == FREE)
    && (forall s <- slots :: s.tid == 0 ==> s == FREE)
  }

  lemma TakenAgrees(slots: seq<Slot>, nb: nat, nid: nat, s: Slot)
    requires |slots| == PROF_THREAD_MAX && Agrees(slots, nb, nid) && nid != UINT_MAX && s.tid != 0
    ensures nb + 1 == Occupied(slots[nid := s])
    ensures forall nid' {:trigger NextFree(slots[nid := s], nid, nid')} ::
        NextFree(slots[nid := s], nid, nid') ==> Agrees(slots[nid := s], nb + 1, nid')
  {
    OccupiedUpdate(slots, nid, s);
  }

  /** Changing a slot that stays taken changes neither the count nor the next slot. */
  lemma TakenStays(slots: seq<Slot>, nb: nat, nid: nat, k: nat, s: Slot)
    requires |slots| == PROF_THREAD_MAX && Agrees(slots, nb, nid) && k < PROF_THREAD_MAX
    requires slots[k].tid != 0 && s.tid != 0
    ensures Agrees(slots[k := s], nb, nid)
  {
    var slots' := slots[k := s];
    OccupiedUpdate(slots, k, s);
    assert slots'[k] == s && forall i :: 0 <= i < PROF_THREAD_MAX && i != k ==> slots'[i] == slots[i];
    if nid != UINT_MAX {
      assert slots'[nid].tid == 0;
    } else {
      assert forall i :: 0 <= i < PROF_THREAD_MAX ==> slots[i].tid != 0;
    }
  }

  lemma {:induction false} AllFree(slots: seq<Slot>)
    requires forall i :: 0 <= i < |slots| ==> slots[i] == FREE
    ensures Occupied(slots) == 0
  {
    if slots != [] {
      AllFree(slots[..|slots| - 1]);
    }
  }

  // ----- histories

  /** One step of a run: a thread is registered, or a registered or unregistered thread hits a probe. */
  datatype Op = Register(pid: int, setup: Setup) | Call(tid: int, hit: Hit)

  /** The registrations that get a slot: the first 64. */
  function Registered(ops: seq<Op>): (rs: seq<Op>)
    ensures |rs| <= PROF_THREAD_MAX && |rs| <= |ops| && forall i :: 0 <= i < |rs| ==> rs[i].Register? && rs[i] in ops
  {
    if ops == [] then []
    else
      var front, last := Registered(ops[..|ops| - 1]), ops[|ops| - 1];
      if last.Register? && |front| < PROF_THREAD_MAX then front + [last] else front
  }

  ghost predicate Has(ops: seq<Op>, t: int) {
    exists i :: 0 <= i < |Registered(ops)| && Registered(ops)[i].pid == t
  }

  /** The slot of `t` as it was set up */
  ghost function SetUpFor(ops: seq<Op>, t: int): Slot
    requires Has(ops, t)
  {
    var i :| 0 <= i < |Registered(ops)| && Registered(ops)[i].pid == t;
    Started(t, Registered(ops)[i].setup)
  }

  /** `t` hit a probe before it was registered. */
  ghost predicate Ignored(ops: seq<Op>, t: int) {
    ops != [] &&
      var front, last := ops[..|ops| - 1], ops[|ops| - 1];
      Ignored(front, t) || (last.Call? && last.tid == t && !Has(front, t))
  }

  /** The records `op` adds for `t` after `ops` */
  ghost function NewRecords(ops: seq<Op>, op: Op, t: int): seq<Record> {
    if op.Call? && op.tid == t && !Ignored(ops, t) && Has(ops, t) && SetUpFor(ops, t).state == Running
    then RecordsOf(|SetUpFor(ops, t).events|, op.hit)
    else []
  }

  /** Every record made for `t`, in order */
  ghost function Trace(ops: seq<Op>, t: int): seq<Record> {
    if ops == [] then []
    else
      var front, last := ops[..|ops| - 1], ops[|ops| - 1];
      Trace(front, t) + NewRecords(front, last, t)
  }

  /** Thread ids are positive, and no id is registered twice. */
  ghost predicate ProperIds(ops: seq<Op>) {
    && (forall i :: 0 <= i < |ops| ==> (if ops[i].Register? then ops[i].pid else ops[i].tid) > 0)
    && (forall i, j :: 0 <= i < j < |ops| && ops[i].Register? && ops[j].Register? ==> ops[i].pid != ops[j].pid)
  }

  lemma {:induction false} RegisteredDistinct(ops: seq<Op>)
    requires ProperIds(ops)
    ensures forall i, j :: 0 <= i < j < |Registered(ops)| ==> Registered(ops)[i].pid != Registered(ops)[j].pid
  {
    if ops != [] {
      var n := |ops| - 1;
      var rs, rs' := Registered(ops[..n]), Registered(ops);
      RegisteredDistinct(ops[..n]);
      forall i, j | 0 <= i < j < |rs'|
        ensures rs'[i].pid != rs'[j].pid
      {
        if j == |rs| {
          assert rs'[i] == rs[i] && rs[i] in ops[..n];
          var k :| 0 <= k < n && ops[k] == rs[i];
          assert rs'[j] == ops[n] && ops[n].Register?;
          assert ops[k].pid != ops[n].pid;
        } else {
          assert rs'[i] == rs[i] && rs'[j] == rs[j];
          assert rs[i].pid != rs[j].pid;
        }
      }
    }
  }

  lemma SetUpForIs(ops: seq<Op>, i: nat)
    requires ProperIds(ops) && i < |Registered(ops)|
    ensures Has(ops, Registered(ops)[i].pid)
    ensures SetUpFor(ops, Registered(ops)[i].pid) == Started(Registered(ops)[i].pid, Registered(ops)[i].setup)
  {
    RegisteredDistinct(ops);
  }

  /** A thread that has no slot has no records. */
  lemma {:induction false} NoSlotNoTrace(ops: seq<Op>, t: int)
    requires !Has(ops, t)
    ensures Trace(ops, t) == []
  {
    if ops != [] {
      var n := |ops| - 1;
      var rs := Registered(ops[..n]);
      assert forall i :: 0 <= i < |rs| ==> Registered(ops)[i] == rs[i];
      NoSlotNoTrace(ops[..n], t);
    }
  }

  /** A thread that hits a probe before it is registered is never measured, even if it gets a slot. */
  lemma {:induction false} IgnoredForever(ops: seq<Op>, t: int)
    requires Ignored(ops, t)
    ensures Trace(ops, t) == []
  {
    var n := |ops| - 1;
    if Ignored(ops[..n], t) {
      IgnoredForever(ops[..n], t);
    } else {
      NoSlotNoTrace(ops[..n], t);
    }
  }

  /** The state of the table and of the threads' own variables after `ops` */
  ghost predicate Follows(slots: seq<Slot>, nb: nat, nid: nat, locals: map<int, Local>, ops: seq<Op>) {
    TableFollows(slots, nb, nid, ops) && forall t :: LocalFollows(LocalOf(locals, t), t, ops)
  }

  ghost predicate TableFollows(slots: seq<Slot>, nb: nat, nid: nat, ops: seq<Op>) {
    var rs := Registered(ops);
    && |slots| == PROF_THREAD_MAX
    && nb == |rs|
    && nid == (if |rs| < PROF_THREAD_MAX then |rs| else UINT_MAX)
    && (forall i :: 0 <= i < |rs| ==> slots[i] == Measured(ops, rs[i]))
    && (forall i :: |rs| <= i < PROF_THREAD_MAX ==> slots[i] == FREE)
  }

  ghost predicate LocalFollows(l: Local, t: int, ops: seq<Op>) {
    && l.ignore == Ignored(ops, t)
    && (l.info.Some? ==> l.info.value < |Registered(ops)| && Registered(ops)[l.info.value].pid == t)
  }

  ghost function Measured(ops: seq<Op>, r: Op): Slot
    requires r.Register?
  {
    Started(r.pid, r.setup).(written := Flushed(Trace(ops, r.pid)), trace := Trace(ops, r.pid))
  }

  lemma FollowsStart(slots: seq<Slot>)
    requires slots == seq(PROF_THREAD_MAX, _ => FREE)
    ensures Follows(slots, 0, 0, map[], [])
  {
  }

  lemma ProperPrefix(ops: seq<Op>, n: nat)
    requires ProperIds(ops) && n <= |ops|
    ensures ProperIds(ops[..n])
  {
  }

  /** What the files hold after `Exit`: every record, or after a failed start-up the full buffers only. */
  ghost function FileOf(ops: seq<Op>, r: Op, failed: bool): seq<Record>
    requires r.Register?
  {
    if failed then Flushed(Trace(ops, r.pid)) else Trace(ops, r.pid)
  }

  /** The two agree exactly when no partly filled buffer is left. */
  lemma FailedStartLosesRest(ops: seq<Op>, r: Op)
    requires r.Register?
    ensures FileOf(ops, r, true) == FileOf(ops, r, false) <==> |Trace(ops, r.pid)| % PROF_RECORD_CACHE == 0
  {
    assert |Flushed(Trace(ops, r.pid))| == |Trace(ops, r.pid)| - |Trace(ops, r.pid)| % PROF_RECORD_CACHE;
  }

  /** A thread whose set-up failed has no records. */
  lemma {:induction false} FailedHasNoTrace(ops: seq<Op>, t: int)
    requires ProperIds(ops) && (Has(ops, t) ==> SetUpFor(ops, t).state != Running)
    ensures Trace(ops, t) == []
  {
    hide Ignored, RecordsOf, Started;
    if ops != [] {
      var n := |ops| - 1;
      var rs := Registered(ops[..n]);
      ProperPrefix(ops, n);
      if Has(ops[..n], t) {
        var i :| 0 <= i < |rs| && rs[i].pid == t;
        assert Registered(ops)[i] == rs[i];
        SetUpForIs(ops, i);
        SetUpForIs(ops[..n], i);
      }
      FailedHasNoTrace(ops[..n], t);
    }
  }

  lemma MeasuredFile(ops: seq<Op>, i: nat)
    requires ProperIds(ops) && i < |Registered(ops)|
    ensures Measured(ops, Registered(ops)[i]).written == FileOf(ops, Registered(ops)[i], true)
    ensures Exited(Measured(ops, Registered(ops)[i])).written == FileOf(ops, Registered(ops)[i], false)
  {
    var r := Registered(ops)[i];
    assert r in ops;
    assert r.pid > 0;
    SetUpForIs(ops, i);
    hide Registered, ProperIds, Trace, Has, SetUpFor;
    if Started(r.pid, r.setup).state != Running {
      FailedHasNoTrace(ops, r.pid);
    }
  }

  lemma FollowsFiles(slots: seq<Slot>, nb: nat, nid: nat, locals: map<int, Local>, ops: seq<Op>)
    requires Follows(slots, nb, nid, locals, ops) && ProperIds(ops)
    ensures nb == |Registered(ops)| <= PROF_THREAD_MAX == |slots|
    ensures forall i :: 0 <= i < nb ==>
      slots[i].written == FileOf(ops, Registered(ops)[i], true) && Exited(slots[i]).written == FileOf(ops, Registered(ops)[i], false)
  {
    hide Registered, ProperIds, Exited, FileOf, Measured;
    forall i | 0 <= i < nb
      ensures slots[i].written == FileOf(ops, Registered(ops)[i], true)
      ensures Exited(slots[i]).written == FileOf(ops, Registered(ops)[i], false)
    {
      MeasuredFile(ops, i);
    }
  }

  lemma RegisterTable(slots: seq<Slot>, nb: nat, nid: nat, ops: seq<Op>, r: Op, slots': seq<Slot>, nid': nat)
    requires TableFollows(slots, nb, nid, ops) && r.Register? && ProperIds(ops + [r])
    requires if nid == UINT_MAX then slots' == slots && nid' == nid
      else slots' == slots[nid := Started(r.pid, r.setup)] && NextFree(slots', nid, nid')
    ensures TableFollows(slots', if nid == UINT_MAX then nb else nb + 1, nid', ops + [r])
  {
    var rs := Registered(ops);
    hide Registered, ProperIds, NextFree, Measured, Started;
    RegisteredAfter(ops, r);
    IdsArePositive(ops, r);
    FreshSlot(ops, r);
    forall i | 0 <= i < |rs|
      ensures Measured(ops + [r], rs[i]) == slots[i] == slots'[i] && slots[i].tid == rs[i].pid
    {
      MeasuredKept(ops, r, rs[i]);
    }
    if nid != UINT_MAX {
      NextInOrder(slots', nid, nid');
    }
  }

  lemma FollowsRegister(slots: seq<Slot>, nb: nat, nid: nat, locals: map<int, Local>, ops: seq<Op>, r: Op, slots': seq<Slot>, nid': nat)
    requires Follows(slots, nb, nid, locals, ops) && r.Register? && ProperIds(ops + [r])
    requires if nid == UINT_MAX then slots' == slots && nid' == nid
      else nid < |slots| && slots' == slots[nid := Started(r.pid, r.setup)] && |slots'| == PROF_THREAD_MAX && NextFree(slots', nid, nid')
    ensures Follows(slots', if nid == UINT_MAX then nb else nb + 1, nid', locals, ops + [r])
  {
    RegisterTable(slots, nb, nid, ops, r, slots', nid');
    hide TableFollows, ProperIds, LocalFollows, LocalOf, NextFree, Started;
    forall t
      ensures LocalFollows(LocalOf(locals, t), t, ops + [r])
    {
      LocalKept(LocalOf(locals, t), t, ops, r);
    }
  }

  lemma RegisteredAfter(ops: seq<Op>, op: Op)
    ensures Registered(ops + [op]) ==
      if op.Register? && |Registered(ops)| < PROF_THREAD_MAX then Registered(ops) + [op] else Registered(ops)
  {
    assert (ops + [op])[..|ops|] == ops;
  }

  lemma LocalKept(l: Local, t: int, ops: seq<Op>, r: Op)
    requires r.Register? && LocalFollows(l, t, ops)
    ensures LocalFollows(l, t, ops + [r])
  {
    RegisteredAfter(ops, r);
    TraceAfter(ops, r, t);
  }

  lemma MeasuredKept(ops: seq<Op>, r: Op, q: Op)
    requires r.Register? && q.Register?
    ensures Measured(ops + [r], q) == Measured(ops, q) && Measured(ops, q).tid == q.pid
  {
    hide Trace, Ignored, Has, Flushed, Registered;
    TraceAfter(ops, r, q.pid);
    assert Trace(ops, q.pid) + [] == Trace(ops, q.pid);
  }

  lemma IdsArePositive(ops: seq<Op>, r: Op)
    requires r.Register? && ProperIds(ops + [r])
    ensures r.pid > 0 && forall i :: 0 <= i < |Registered(ops)| ==> Registered(ops)[i].pid > 0
  {
    assert (ops + [r])[|ops|] == r;
    assert forall i :: 0 <= i < |ops| ==> (ops + [r])[i] == ops[i];
  }

  lemma FreshSlot(ops: seq<Op>, r: Op)
    requires r.Register? && ProperIds(ops + [r])
    ensures Measured(ops + [r], r) == Started(r.pid, r.setup) && Started(r.pid, r.setup).tid == r.pid
  {
    NewIdHasNoSlot(ops, r);
    NoSlotNoTrace(ops, r.pid);
    TraceAfter(ops, r, r.pid);
  }

  lemma NewIdHasNoSlot(ops: seq<Op>, r: Op)
    requires r.Register? && ProperIds(ops + [r])
    ensures !Has(ops, r.pid)
  {
    var all := ops + [r];
    forall i | 0 <= i < |Registered(ops)|
      ensures Registered(ops)[i].pid != r.pid
    {
      var k :| 0 <= k < |ops| && ops[k] == Registered(ops)[i];
      assert all[k] == ops[k] && all[|ops|] == r;
    }
  }

  /** In a table that is filled from the start, the next free slot is the next slot. */
  lemma NextInOrder(slots: seq<Slot>, cur: nat, nid: nat)
    requires |slots| == PROF_THREAD_MAX && cur < PROF_THREAD_MAX && NextFree(slots, cur, nid)
    requires forall i :: 0 <= i < PROF_THREAD_MAX ==> (slots[i].tid == 0 <==> i > cur)
    ensures nid == if cur + 1 < PROF_THREAD_MAX then cur + 1 else UINT_MAX
  {
    if cur + 1 < PROF_THREAD_MAX {
      assert slots[cur + 1].tid == 0;
      assert Around(cur, 1) == cur + 1;
    }
  }

  /** One probe hit by `t`: its slot is looked up once and remembered, and so is that it has none. */
  ghost predicate HitStep(slots: seq<Slot>, locals: map<int, Local>, t: int, h: Hit, slots': seq<Slot>, locals': map<int, Local>) {
    var l, l' := LocalOf(locals, t), LocalOf(locals', t);
    && (forall u :: u != t ==> LocalOf(locals', u) == LocalOf(locals, u))
    && (if l.ignore || l.info.Some? then l' == l else FoundAt(slots, t, l'.info) && l'.ignore == l'.info.None?)
    && if l'.ignore || l'.info.None? || l'.info.value >= |slots| || slots[l'.info.value].state != Running then slots' == slots
       else slots' == slots[l'.info.value := AfterHit(slots[l'.info.value], h)]
  }

  function AfterHit(s: Slot, h: Hit): Slot {
    var trace := s.trace + RecordsOf(|s.events|, h);
    s.(written := Flushed(trace), trace := trace)
  }

  /** Looking a thread up in the table finds its registration. */
  lemma LookUp(slots: seq<Slot>, nb: nat, nid: nat, locals: map<int, Local>, ops: seq<Op>, t: int, r: Option<nat>)
    requires Follows(slots, nb, nid, locals, ops) && t > 0 && FoundAt(slots, t, r)
    ensures r.Some? <==> Has(ops, t)
    ensures r.Some? ==> r.value < |Registered(ops)| && Registered(ops)[r.value].pid == t
  {
    var rs := Registered(ops);
    assert forall i :: 0 <= i < |rs| ==> slots[i].tid == rs[i].pid;
  }

  lemma TraceAfter(ops: seq<Op>, c: Op, t: int)
    ensures Trace(ops + [c], t) == Trace(ops, t) + NewRecords(ops, c, t)
    ensures Ignored(ops + [c], t) <==> Ignored(ops, t) || (c.Call? && c.tid == t && !Has(ops, t))
  {
    hide NewRecords, Has;
    assert (ops + [c])[..|ops|] == ops;
  }

  lemma FoundInTable(slots: seq<Slot>, t: int, r: Option<nat>)
    requires |slots| == PROF_THREAD_MAX && FoundAt(slots, t, r)
    ensures r.Some? ==> r.value < PROF_THREAD_MAX
  {
  }

  lemma FoundIsSetUp(slots: seq<Slot>, nb: nat, nid: nat, locals: map<int, Local>, ops: seq<Op>, t: int, r: Option<nat>)
    requires Follows(slots, nb, nid, locals, ops) && ProperIds(ops) && t > 0 && FoundAt(slots, t, r) && Has(ops, t)
    ensures |slots| == PROF_THREAD_MAX && r.Some? && r.value < PROF_THREAD_MAX
    ensures slots[r.value].state == SetUpFor(ops, t).state
  {
    LookUp(slots, nb, nid, locals, ops, t, r);
    SetUpForIs(ops, r.value);
  }

  lemma FollowsCached(slots: seq<Slot>, nb: nat, nid: nat, locals: map<int, Local>, ops: seq<Op>, t: int, r: Option<nat>)
    requires Follows(slots, nb, nid, locals, ops) && t > 0 && FoundAt(slots, t, r)
    ensures Follows(slots, nb, nid, locals[t := LocalOf(locals, t).(info := r)], ops)
  {
    LookUp(slots, nb, nid, locals, ops, t, r);
    hide TableFollows, Has, Ignored, Registered, FoundAt;
    var locals' := locals[t := LocalOf(locals, t).(info := r)];
    forall u
      ensures LocalFollows(LocalOf(locals', u), u, ops)
    {
      assert LocalFollows(LocalOf(locals, u), u, ops);
    }
  }

  /** What a hit by `t` finds: that `t` is ignored, or the slot of `t`. */
  lemma HitFinds(slots: seq<Slot>, nb: nat, nid: nat, locals: map<int, Local>, ops: seq<Op>, c: Op, slots': seq<Slot>, locals': map<int, Local>)
    requires Follows(slots, nb, nid, locals, ops) && c.Call? && c.tid > 0
    requires HitStep(slots, locals, c.tid, c.hit, slots', locals')
    ensures var l' := LocalOf(locals', c.tid);
      && (l'.ignore <==> Ignored(ops, c.tid) || !Has(ops, c.tid))
      && (!l'.ignore ==> l'.info.Some?)
      && (l'.info.Some? ==> l'.info.value < |Registered(ops)| && Registered(ops)[l'.info.value].pid == c.tid)
  {
    hide Ignored, Registered, FoundAt;
    var l, l' := LocalOf(locals, c.tid), LocalOf(locals', c.tid);
    if !l.ignore && l.info.None? {
      LookUp(slots, nb, nid, locals, ops, c.tid, l'.info);
    }
  }

  lemma CallSlot(slots: seq<Slot>, nb: nat, nid: nat, locals: map<int, Local>, ops: seq<Op>, c: Op, slots': seq<Slot>, locals': map<int, Local>, i: nat)
    requires Follows(slots, nb, nid, locals, ops) && c.Call? && c.tid > 0 && ProperIds(ops) && i < |Registered(ops)|
    requires HitStep(slots, locals, c.tid, c.hit, slots', locals')
    ensures |slots'| == |slots| && slots'[i] == Measured(ops + [c], Registered(ops)[i])
  {
    hide FoundAt, ProperIds, Ignored, Trace;
    var r := Registered(ops)[i];
    RegisteredDistinct(ops);
    HitFinds(slots, nb, nid, locals, ops, c, slots', locals');
    SetUpForIs(ops, i);
    TraceAfter(ops, c, r.pid);
    var new' := NewRecords(ops, c, r.pid);
    if new' == [] {
      assert Trace(ops, r.pid) + new' == Trace(ops, r.pid);
    }
  }

  lemma CallLocals(slots: seq<Slot>, nb: nat, nid: nat, locals: map<int, Local>, ops: seq<Op>, c: Op, slots': seq<Slot>, locals': map<int, Local>, t: int)
    requires Follows(slots, nb, nid, locals, ops) && c.Call? && c.tid > 0
    requires HitStep(slots, locals, c.tid, c.hit, slots', locals')
    ensures LocalFollows(LocalOf(locals', t), t, ops + [c])
  {
    RegisteredAfter(ops, c);
    HitFinds(slots, nb, nid, locals, ops, c, slots', locals');
    hide Registered, Ignored, Has, FoundAt, TableFollows;
    assert LocalFollows(LocalOf(locals, t), t, ops);
    TraceAfter(ops, c, t);
  }

  lemma CallTable(slots: seq<Slot>, nb: nat, nid: nat, locals: map<int, Local>, ops: seq<Op>, c: Op, slots': seq<Slot>, locals': map<int, Local>)
    requires Follows(slots, nb, nid, locals, ops) && c.Call? && c.tid > 0 && ProperIds(ops)
    requires HitStep(slots, locals, c.tid, c.hit, slots', locals')
    ensures TableFollows(slots', nb, nid, ops + [c])
  {
    hide Registered, Ignored, ProperIds, Measured, Has, FoundAt, LocalFollows, LocalOf;
    var rs := Registered(ops);
    RegisteredAfter(ops, c);
    HitFinds(slots, nb, nid, locals, ops, c, slots', locals');
    assert |slots'| == |slots| && forall i :: |rs| <= i < |slots| ==> slots'[i] == slots[i];
    forall i | 0 <= i < |rs|
      ensures slots'[i] == Measured(ops + [c], rs[i])
    {
      CallSlot(slots, nb, nid, locals, ops, c, slots', locals', i);
    }
  }

  lemma FollowsCall(slots: seq<Slot>, nb: nat, nid: nat, locals: map<int, Local>, ops: seq<Op>, c: Op, slots': seq<Slot>, locals': map<int, Local>)
    requires Follows(slots, nb, nid, locals, ops) && c.Call? && ProperIds(ops + [c])
    requires HitStep(slots, locals, c.tid, c.hit, slots', locals')
    ensures Follows(slots', nb, nid, locals', ops + [c])
  {
    assert ProperIds(ops) && c.tid > 0 by {
      assert (ops + [c])[|ops|] == c;
      assert forall i :: 0 <= i < |ops| ==> (ops + [c])[i] == ops[i];
    }
    hide ProperIds, HitStep, LocalFollows, LocalOf, TableFollows;
    CallTable(slots, nb, nid, locals, ops, c, slots', locals');
    forall t
      ensures LocalFollows(LocalOf(locals', t), t, ops + [c])
    {
      CallLocals(slots, nb, nid, locals, ops, c, slots', locals', t);
    }
  }

  // ----- the threads found at start-up

  /** The entries of the process's thread directory, with the id each name reads as and how its set-up turns out.
      Names that are not numbers read as 0. */
  type Items = seq<(int, Setup)>

  ghost predicate DistinctItems(items: Items) {
    && (forall i :: 0 <= i < |items| ==> items[i].0 >= 0)
    && (forall i, j :: 0 <= i < j < |items| && items[i].0 > 0 ==> items[i].0 != items[j].0)
  }

  /** The registrations of the entries that are thread ids */
  function Positive(items: Items): (ops: seq<Op>)
    ensures |ops| <= |items|
  {
    if items == [] then []
    else
      var front, last := Positive(items[..|items| - 1]), items[|items| - 1];
      if last.0 > 0 then front + [Register(last.0, last.1)] else front
  }

  /** The registrations of the initial scan: of the process alone if the directory cannot be read, of
      the first 64 entries otherwise. */
  function Scanned(pid: int, setup: Setup, items: Items): seq<Op> {
    if items == [] then [Register(pid, setup)]
    else Positive(if |items| > PROF_THREAD_MAX then items[..PROF_THREAD_MAX] else items)
  }

  lemma {:induction false} PositiveIn(items: Items)
    ensures forall k :: 0 <= k < |Positive(items)| ==>
      Positive(items)[k].Register? && Positive(items)[k].pid > 0
      && exists i :: 0 <= i < |items| && items[i].0 == Positive(items)[k].pid
  {
    if items != [] {
      var n := |items| - 1;
      PositiveIn(items[..n]);
      forall k | 0 <= k < |Positive(items)|
        ensures Positive(items)[k].Register? && Positive(items)[k].pid > 0
        ensures exists i :: 0 <= i < |items| && items[i].0 == Positive(items)[k].pid
      {
        var ps := Positive(items[..n]);
        if k < |ps| {
          assert Positive(items)[k] == ps[k];
          var i :| 0 <= i < n && items[..n][i].0 == ps[k].pid;
          assert items[i].0 == ps[k].pid;
        } else {
          assert items[n].0 == Positive(items)[k].pid;
        }
      }
    }
  }

  lemma {:induction false} PositiveProper(items: Items)
    requires DistinctItems(items)
    ensures ProperIds(Positive(items))
  {
    if items != [] {
      var n := |items| - 1;
      PositiveProper(items[..n]);
      PositiveIn(items[..n]);
    }
  }

  /** The directory cannot be read, or lists the process among its first 64 entries. */
  predicate ListedFirst(pid: int, items: Items) {
    items == [] || exists i :: 0 <= i < |items| && i < PROF_THREAD_MAX && items[i].0 == pid
  }

  lemma {:induction false} RegisteredAll(ops: seq<Op>)
    requires |ops| <= PROF_THREAD_MAX && forall i :: 0 <= i < |ops| ==> ops[i].Register?
    ensures Registered(ops) == ops
  {
    if ops != [] {
      var n := |ops| - 1;
      RegisteredAll(ops[..n]);
      assert ops == ops[..n] + [ops[n]];
    }
  }

  lemma {:induction false} PositiveHas(items: Items, i: nat) returns (k: nat)
    requires i < |items| && items[i].0 > 0
    ensures k < |Positive(items)| && Positive(items)[k] == Register(items[i].0, items[i].1)
  {
    var n := |items| - 1;
    if i < n {
      k := PositiveHas(items[..n], i);
    } else {
      k := |Positive(items[..n])|;
    }
  }

  /** The scan registers the process itself exactly when it lists it first, or nothing. */
  lemma ScanFinds(pid: int, setup: Setup, items: Items)
    requires pid > 0
    ensures Has(Scanned(pid, setup, items), pid) <==> ListedFirst(pid, items)
  {
    var ops := Scanned(pid, setup, items);
    if items == [] {
      RegisteredAll(ops);
      assert Registered(ops)[0].pid == pid;
    } else {
      var first := if |items| > PROF_THREAD_MAX then items[..PROF_THREAD_MAX] else items;
      PositiveIn(first);
      RegisteredAll(ops);
      if ListedFirst(pid, items) {
        var i :| 0 <= i < |items| && i < PROF_THREAD_MAX && items[i].0 == pid;
        var k := PositiveHas(first, i);
        assert Registered(ops)[k].pid == pid;
      }
      if Has(ops, pid) {
        var k :| 0 <= k < |Registered(ops)| && Registered(ops)[k].pid == pid;
        var i :| 0 <= i < |first| && first[i].0 == pid;
        assert items[i].0 == pid;
      }
    }
  }
}
