/** The probe runtime: a fixed table of thread slots, and one record buffer per slot that is flushed to
    the thread's file whenever it is full. */
module Profile {
  import opened Basics
  import opened EventList
  import opened ThreadSlots
  import opened RunFacts

  // ----- one thread

  class ThreadInfo {
    var tid: int
    var state: State
    var evlist: EventList?
    var fileOpen: bool
    /** The contents of the output file */
    var written: seq<Record>
    var nbRecord: nat
    const records: array<Record>

    constructor ()
      ensures Shows(FREE) && fresh(records)
    {
      tid, state, evlist, fileOpen, written, nbRecord := 0, Uninit, null, false, [], 0;
      records := new Record[PROF_RECORD_CACHE](_ => Record(0, 0, 0, 0, 0));
    }

    /** There is room for one more record; a running thread has its events and an open file, which
        was flushed only in full buffers; nothing is buffered otherwise. */
    ghost predicate Valid()
      reads this, evlist
    {
      && records.Length == PROF_RECORD_CACHE
      && nbRecord < PROF_RECORD_CACHE
      && (state != Running ==> nbRecord == 0)
      && (state == Running ==> evlist != null && fileOpen && |written| % PROF_RECORD_CACHE == 0)
    }

    /** The file's contents followed by the buffered records */
    ghost function Contents(): seq<Record>
      requires records.Length == PROF_RECORD_CACHE && nbRecord <= PROF_RECORD_CACHE
      reads this, records
    {
      written + records[..nbRecord]
    }

    ghost predicate Shows(s: Slot)
      reads this, records, evlist
    {
      && Valid()
      && tid == s.tid && state == s.state && written == s.written
      && (state == Running ==> evlist.Holds(s.events))
      && Contents() == s.trace
    }

    /** `__create_evlist` and the rest of `__init_thread` */
    method InitThread(setup: Setup)
      requires Shows(FREE.(tid := tid))
      modifies this
      ensures Shows(Started(old(tid), setup))
      ensures tid == old(tid) && fileOpen == setup.opens && written == [] && nbRecord == 0
      ensures state == Running <==> setup.items.Some? && setup.starts && setup.opens
      ensures state != Running ==> state == Error
      ensures state == Running ==>
        evlist != null && |evlist.entries| == NamedBefore(setup.items.value, |setup.items.value|)
      ensures state == Running ==> forall i :: 0 <= i < |setup.items.value| && setup.items.value[i].Named? ==>
        NamedBefore(setup.items.value, i) < |evlist.entries|
        && evlist.entries[NamedBefore(setup.items.value, i)] ==
          Event(setup.items.value[i].name, NamedBefore(setup.items.value, i))
    {
      hide Accepted, NamedBefore;
      if setup.items.Some? {
        var list := new EventList();
        var _ := list.AddAll(setup.items.value, []);
        assert [] + Accepted(setup.items.value) == Accepted(setup.items.value);
        if setup.starts {
          evlist := list;
          state := Running;
        }
      }
      if !(setup.items.Some? && setup.starts) {
        state := Error;
      }
      fileOpen, written := setup.opens, [];
      if !setup.opens {
        state := Error;
      }
    }

    /** One turn of the loop of `__read_count`: store a record, and flush a full buffer. */
    method Append(r: Record)
      requires Valid() && state == Running
      modifies this`nbRecord, this`written, records
      ensures Valid() && Contents() == old(Contents()) + [r]
    {
      records[nbRecord] := r;
      nbRecord := nbRecord + 1;
      assert Contents() == old(Contents()) + [r];
      if nbRecord == PROF_RECORD_CACHE {
        assert records[..] == records[..nbRecord];
        written := written + records[..];
        nbRecord := 0;
      }
    }

    static lemma ByteStep(i: nat)
      ensures (i % 0x100 + 1) % 0x100 == (i + 1) % 0x100
    {
    }

    /** Only full buffers have been written. */
    lemma WrittenIsFlushed()
      requires Valid() && state == Running
      ensures written == Flushed(Contents())
    {
      FlushedIs(written, records[..nbRecord]);
    }

    /** `__read_count` */
    method ReadCount(h: Hit, ghost s: Slot)
      requires Shows(s) && state == Running
      modifies this`nbRecord, this`written, records
      ensures Shows(AfterHit(s, h)) && evlist == old(evlist)
      ensures evlist != null && Appended(old(Contents()), Contents(), |evlist.entries|, h)
    {
      var i: nat := 0;
      var evIdx: nat := 0;
      ghost var rs := RecordsOf(|s.events|, h);
      assert forall k :: 0 <= k < |rs| ==> rs[k] == Record(h.ts, h.func % 0x1_0000, h.pos, k % 0x100, h.count(k));
      assert evlist != null;
      hide Contents, Flushed, RecordsOf, Valid, Appended;
      assert rs[..0] == [] && s.trace + [] == s.trace;
      while i < |evlist.entries|
        invariant Valid() && state == Running && evlist != null && evlist.Holds(s.events) && tid == s.tid
        invariant i <= |rs| && evIdx == i % 0x100 && Contents() == s.trace + rs[..i]
      {
        Append(Record(h.ts, h.func % 0x1_0000, h.pos, evIdx, h.count(i)));
        assert rs[..i + 1] == rs[..i] + [rs[i]];
        assert s.trace + rs[..i + 1] == s.trace + rs[..i] + [rs[i]];
        ByteStep(i);
        evIdx := (evIdx + 1) % 0x100;
        i := i + 1;
      }
      assert rs[..i] == rs;
      WrittenIsFlushed();
      AfterHitIs(s, h);
    }

    /** `__destroy_tinfo`: the rest of the buffer goes to the file, which is closed. */
    method Destroy(ghost s: Slot)
      requires Shows(s) && state == Running
      modifies this
      ensures Shows(Destroyed(s)) && !fileOpen && evlist == null
    {
      if fileOpen {
        if nbRecord > 0 {
          written := written + records[..nbRecord];
          nbRecord := 0;
        }
        fileOpen := false;
      }
      evlist := null;
      tid := -1;
      state := Uninit;
    }
  }

  // ----- the table

  method NewThreads() returns (ts: seq<ThreadInfo>)
    ensures |ts| == PROF_THREAD_MAX
    ensures forall k :: 0 <= k < |ts| ==> fresh(ts[k]) && fresh(ts[k].records) && ts[k].Shows(FREE)
    ensures forall k, j :: 0 <= k < j < |ts| ==> ts[k] != ts[j] && ts[k].records != ts[j].records
  {
    hide ThreadInfo.Shows, ThreadInfo.Valid;
    ts := [];
    for i := 0 to PROF_THREAD_MAX
      invariant |ts| == i
      invariant forall k :: 0 <= k < i ==> fresh(ts[k]) && fresh(ts[k].records) && ts[k].Shows(FREE)
      invariant forall k, j :: 0 <= k < j < i ==> ts[k] != ts[j] && ts[k].records != ts[j].records
    {
      var t := new ThreadInfo();
      ts := ts + [t];
    }
  }

  class Probe {
    const threads: seq<ThreadInfo>
    var threadNb: nat
    var threadNid: nat
    var isError: bool
    var locals: map<int, Local>
    ghost var slots: seq<Slot>

    ghost predicate Separate() {
      && |threads| == PROF_THREAD_MAX
      && forall i, j :: 0 <= i < j < |threads| ==> threads[i] != threads[j] && threads[i].records != threads[j].records
    }

    ghost function Buffers(): set<array<Record>> {
      set t <- threads :: t.records
    }

    ghost function Lists(): set<EventList?>
      reads threads
    {
      set t <- threads :: t.evlist
    }

    ghost predicate Shown()
      reads this, threads, Buffers(), Lists()
    {
      && Separate() && |slots| == PROF_THREAD_MAX
      && (forall i :: 0 <= i < PROF_THREAD_MAX ==> threads[i].Shows(slots[i]))
      && LocalsOk(locals)
    }

    ghost predicate Valid()
      reads this, threads, Buffers(), Lists()
    {
      && Shown()
      && Agrees(slots, threadNb, threadNid)
    }

    constructor ()
      ensures Valid() && fresh(threads) && fresh(Buffers()) && slots == seq(PROF_THREAD_MAX, _ => FREE) && threadNb == threadNid == 0
      ensures !isError && locals == map[]
    {
      var ts := NewThreads();
      threads := ts;
      threadNb, threadNid, isError, locals := 0, 0, false, map[];
      slots := seq(PROF_THREAD_MAX, _ => FREE);
      new;
      AllFree(slots);
      assert slots[0].tid == 0;
    }

    /** Writing one slot leaves the others as they were. */
    twostate lemma OneSlot(k: nat)
      requires old(Shown()) && k < PROF_THREAD_MAX == |slots| && slots == old(slots)[k := slots[k]] && locals == old(locals)
      requires threads[k].Shows(slots[k])
      requires forall i :: 0 <= i < PROF_THREAD_MAX && i != k ==> unchanged(threads[i]) && unchanged(threads[i].records)
      requires forall i :: 0 <= i < PROF_THREAD_MAX && i != k && old(threads[i].evlist) != null ==> unchanged(old(threads[i].evlist))
      ensures Shown()
    {
    }

    /** `__update_threadnid` */
    method UpdateThreadNid()
      requires Shown() && threadNb == Occupied(slots)
      requires threadNid < PROF_THREAD_MAX && slots[threadNid].tid != 0
      modifies this`threadNid
      ensures NextFree(slots, old(threadNid), threadNid)
    {
      var cur := threadNid;
      AllOccupied(slots);
      if threadNb >= PROF_THREAD_MAX {
        threadNid := UINT_MAX;
        return;
      }
      for i := 1 to PROF_THREAD_MAX
        invariant threadNid == cur
        invariant forall e :: 1 <= e < i ==> slots[Around(cur, e)].tid != 0
      {
        var nxt := Around(cur, i);
        assert threads[nxt].Shows(slots[nxt]);
        if threads[nxt].tid == 0 {
          threadNid := nxt;
          return;
        }
      }
      forall k | 0 <= k < PROF_THREAD_MAX
        ensures slots[k].tid != 0
      {
        if k != cur {
          AroundReaches(cur, k);
        }
      }
      assert false;
    }

    /** `__find_tinfo` */
    method FindTinfo(pid: int) returns (r: Option<nat>)
      requires Shown()
      ensures FoundAt(slots, pid, r)
    {
      for i := 0 to PROF_THREAD_MAX
        invariant forall j :: 0 <= j < i ==> slots[j].tid != pid
      {
        assert threads[i].Shows(slots[i]);
        if threads[i].tid == pid {
          return Some(i);
        }
      }
      return None;
    }

    /** `tinfo->tid = ...` for the next slot */
    method WriteTid(id: int)
      requires Valid() && threadNid != UINT_MAX
      modifies this`slots, threads
      ensures Shown() && slots == old(slots[threadNid := FREE.(tid := id)])
    {
      var k := threadNid;
      assert threads[k].Shows(FREE);
      hide Agrees;
      threads[k].tid := id;
      slots := slots[k := FREE.(tid := id)];
      OneSlot(k);
    }

    method SetUp(k: nat, setup: Setup)
      requires Shown() && k < PROF_THREAD_MAX && slots[k] == FREE.(tid := slots[k].tid)
      modifies this`slots, threads[k]
      ensures Shown() && slots == old(slots[k := Started(slots[k].tid, setup)])
    {
      assert threads[k].Shows(slots[k]);
      threads[k].InitThread(setup);
      slots := slots[k := Started(slots[k].tid, setup)];
      OneSlot(k);
    }

    /** The steps that `lprobe_thread_init` and `__scan_threads` share once the id is written; `before` is
        the table without it. */
    method SetUpWritten(pid: int, setup: Setup, ghost before: seq<Slot>)
      requires Shown() && pid > 0 && |before| == PROF_THREAD_MAX && Agrees(before, threadNb, threadNid)
      requires threadNid != UINT_MAX && slots == before[threadNid := FREE.(tid := pid)]
      modifies this`threadNb, this`threadNid, this`slots, threads
      ensures Valid()
      ensures slots == before[old(threadNid) := Started(pid, setup)]
      ensures threadNb == old(threadNb) + 1 && NextFree(slots, old(threadNid), threadNid)
    {
      hide NextFree, Occupied;
      TakenAgrees(before, threadNb, threadNid, Started(pid, setup));
      assert Started(pid, setup).tid == pid && threadNid < PROF_THREAD_MAX;
      hide Agrees, Started;
      SetUp(threadNid, setup);
      assert slots == before[threadNid := Started(pid, setup)];
      threadNb := threadNb + 1;
      UpdateThreadNid();
    }

    /** Taking the next slot */
    method TakeSlot(pid: int, setup: Setup)
      requires Valid() && threadNid != UINT_MAX && pid > 0
      modifies this`threadNb, this`threadNid, this`slots, threads
      ensures Valid()
      ensures slots == old(slots[threadNid := Started(pid, setup)])
      ensures threadNb == old(threadNb) + 1 && NextFree(slots, old(threadNid), threadNid)
    {
      assert |slots| == PROF_THREAD_MAX;
      hide Shown, NextFree;
      WriteTid(pid);
      SetUpWritten(pid, setup, old(slots));
    }

    /** `lprobe_thread_init`, as one step: a thread that finds the table full is not measured. */
    method ThreadInit(pid: int, setup: Setup)
      requires Valid() && pid > 0
      modifies this`threadNb, this`threadNid, this`slots, threads
      ensures Valid()
      ensures old(threadNid) == UINT_MAX ==> slots == old(slots) && threadNb == old(threadNb) && threadNid == UINT_MAX
      ensures old(threadNid) != UINT_MAX ==>
        (slots == old(slots[threadNid := Started(pid, setup)])
        && threadNb == old(threadNb) + 1 && NextFree(slots, old(threadNid), threadNid))
    {
      if threadNid == UINT_MAX {
        return;
      }
      TakeSlot(pid, setup);
    }

    /** `__scan_threads` on the fresh table */
    method ScanThreads(pid: int, setup: Setup, items: Items)
      requires Valid() && Follows(slots, threadNb, threadNid, locals, []) && pid > 0 && DistinctItems(items)
      modifies this`threadNb, this`threadNid, this`slots, threads
      ensures Valid() && Follows(slots, threadNb, threadNid, locals, Scanned(pid, setup, items))
      ensures SlotsScanned(slots, threadNb, pid, setup, items)
    {
      ScanAll(pid, setup, items);
      assert TableFollows(slots, threadNb, threadNid, Scanned(pid, setup, items));
      ScanTable(slots, threadNb, threadNid, pid, setup, items);
    }

    method ScanAll(pid: int, setup: Setup, items: Items)
      requires Valid() && Follows(slots, threadNb, threadNid, locals, []) && pid > 0 && DistinctItems(items)
      modifies this`threadNb, this`threadNid, this`slots, threads
      ensures Valid() && Follows(slots, threadNb, threadNid, locals, Scanned(pid, setup, items))
    {
      hide Follows, Agrees, Shown;
      if items == [] {
        Enrol(pid, setup, []);
        assert [] + [Register(pid, setup)] == [Register(pid, setup)];
        return;
      }
      var n := if |items| > PROF_THREAD_MAX then PROF_THREAD_MAX else |items|;
      for i := 0 to n
        invariant Valid() && Follows(slots, threadNb, threadNid, locals, Positive(items[..i]))
      {
        assert items[..i + 1][..i] == items[..i];
        PositiveProper(items[..i + 1]);
        ScanEntry(items[i].0, items[i].1, Positive(items[..i]));
      }
      assert items[..|items|] == items;
    }

    /** One directory entry, after `ops`: its id goes to the next slot, and is registered if positive. */
    method ScanEntry(id: int, setup: Setup, ghost ops: seq<Op>)
      requires Valid() && Follows(slots, threadNb, threadNid, locals, ops) && |Registered(ops)| < PROF_THREAD_MAX
      requires id >= 0 && (id > 0 ==> ProperIds(ops + [Register(id, setup)]))
      modifies this`threadNb, this`threadNid, this`slots, threads
      ensures Valid() && Follows(slots, threadNb, threadNid, locals, if id > 0 then ops + [Register(id, setup)] else ops)
    {
      assert threadNid != UINT_MAX && threadNid < PROF_THREAD_MAX && |slots| == PROF_THREAD_MAX && slots[threadNid] == FREE;
      hide Follows, NextFree, Shown, Agrees, Started, ProperIds;
      WriteTid(id);
      ShownAt(threadNid);
      if threads[threadNid].tid > 0 {
        SetUpWritten(id, setup, old(slots));
        FollowsRegister(old(slots), old(threadNb), old(threadNid), locals, ops, Register(id, setup), slots, threadNid);
      } else {
        assert slots == old(slots);
      }
    }

    /** A registration that finds a free slot, after `ops` */
    method Enrol(pid: int, setup: Setup, ghost ops: seq<Op>)
      requires Valid() && Follows(slots, threadNb, threadNid, locals, ops) && ProperIds(ops + [Register(pid, setup)])
      requires |Registered(ops)| < PROF_THREAD_MAX
      modifies this`threadNb, this`threadNid, this`slots, threads
      ensures Valid() && Follows(slots, threadNb, threadNid, locals, ops + [Register(pid, setup)])
    {
      assert pid > 0 by {
        assert (ops + [Register(pid, setup)])[|ops|] == Register(pid, setup);
      }
      TakeSlot(pid, setup);
      FollowsRegister(old(slots), old(threadNb), old(threadNid), locals, ops, Register(pid, setup), slots, threadNid);
    }

    /** One step of a run */
    method Step(op: Op, ghost ops: seq<Op>)
      requires Valid() && Follows(slots, threadNb, threadNid, locals, ops) && ProperIds(ops + [op])
      modifies this`threadNb, this`threadNid, this`locals, this`slots, threads, Buffers()
      ensures Valid() && Follows(slots, threadNb, threadNid, locals, ops + [op])
    {
      assert (if op.Register? then op.pid else op.tid) > 0 by {
        assert (ops + [op])[|ops|] == op;
      }
      hide Follows, ProperIds, Shown, Agrees, HitStep, Reached, Appended, NextFree;
      match op {
        case Register(pid, setup) =>
          ThreadInit(pid, setup);
          FollowsRegister(old(slots), old(threadNb), old(threadNid), locals, ops, op, slots, threadNid);
        case Call(t, h) =>
          StepCall(op, ops);
      }
    }

    method StepCall(c: Op, ghost ops: seq<Op>)
      requires Valid() && Follows(slots, threadNb, threadNid, locals, ops) && c.Call? && c.tid > 0 && ProperIds(ops + [c])
      modifies this`locals, this`slots, threads, Buffers()
      ensures Valid() && Follows(slots, threadNb, threadNid, locals, ops + [c])
    {
      hide Follows, ProperIds, Shown, Agrees, HitStep, Reached, Appended;
      FuncHit(c.tid, c.hit);
      FollowsCall(old(slots), threadNb, threadNid, old(locals), ops, c, slots, locals);
    }

    lemma ShownAt(k: nat)
      requires Shown() && k < PROF_THREAD_MAX
      ensures threads[k].tid == slots[k].tid && threads[k].state == slots[k].state && threads[k].written == slots[k].written
    {
      assert threads[k].Shows(slots[k]);
    }

    /** The calling thread keeps a pointer to its slot. */
    method Remember(t: int, l: Local)
      requires Valid() && (l.info.Some? ==> l.info.value < PROF_THREAD_MAX)
      modifies this`locals
      ensures Valid() && locals == old(locals)[t := l]
    {
      LocalSet(locals, t, l);
      hide LocalsOk;
      locals := locals[t := l];
    }

    /** `lprobe_init`: the scan, and the calling thread's own slot. It looks its slot up and uses the
        result unchecked; `found` is false when that is the null pointer, and start-up ends there. */
    method Init(pid: int, setup: Setup, items: Items) returns (found: bool)
      requires Valid() && Follows(slots, threadNb, threadNid, locals, []) && pid > 0 && DistinctItems(items)
      requires ProperIds(Scanned(pid, setup, items))
      modifies this, threads
      ensures Valid() && Follows(slots, threadNb, threadNid, locals, Scanned(pid, setup, items))
      ensures SlotsScanned(slots, threadNb, pid, setup, items)
      ensures (found <==> ListedFirst(pid, items)) && (found <==> Has(Scanned(pid, setup, items), pid))
      ensures found ==> (isError <==> old(isError) || StartFails(pid, setup, items))
      ensures found ==> (isError <==> old(isError) || SetUpFor(Scanned(pid, setup, items), pid).state == Error)
    {
      hide Follows, Agrees, Has, SetUpFor, Registered, ProperIds, Scanned, FoundAt, SlotsScanned;
      hide ListedFirst, StartFails;
      ghost var ops := Scanned(pid, setup, items);
      ScanFinds(pid, setup, items);
      if Has(ops, pid) {
        StartFailsIs(pid, setup, items);
      }
      ScanThreads(pid, setup, items);
      var r := FindTinfo(pid);
      LookUp(slots, threadNb, threadNid, locals, ops, pid, r);
      if r.None? {
        return false;
      }
      FoundIsSetUp(slots, threadNb, threadNid, locals, ops, pid, r);
      FollowsCached(slots, threadNb, threadNid, locals, ops, pid, r);
      Remember(pid, LocalOf(locals, pid).(info := r));
      ShownAt(r.value);
      hide Shown;
      if threads[r.value].state == Error {
        isError := true;
      }
      return true;
    }

    /** `lprobe_func_entry` and `lprobe_func_exit` (which differ in `h.pos`) called by thread `t`: a running
        thread gets one record for each of its events. */
    method FuncHit(t: int, h: Hit)
      requires Valid() && t > 0
      modifies this`locals, this`slots, threads, Buffers()
      ensures Valid() && HitStep(old(slots), old(locals), t, h, slots, locals)
      ensures forall k :: Reached(old(slots), LocalOf(old(locals), t), t, k) ==>
        0 <= k < |old(slots)| && k < |slots| && Appended(old(slots)[k].trace, slots[k].trace, |old(slots)[k].events|, h)
    {
      HitProbe(t, h);
      hide HitStep, Reached, Appended, Shown, Agrees;
      forall k | Reached(old(slots), LocalOf(old(locals), t), t, k)
        ensures 0 <= k < |old(slots)| && k < |slots|
        ensures Appended(old(slots)[k].trace, slots[k].trace, |old(slots)[k].events|, h)
      {
        HitReaches(old(slots), old(locals), t, h, slots, locals, k);
      }
    }

    method HitProbe(t: int, h: Hit)
      requires Valid() && t > 0
      modifies this`locals, this`slots, threads, Buffers()
      ensures Valid() && HitStep(old(slots), old(locals), t, h, slots, locals)
    {
      hide Agrees, FoundAt;
      var l := LocalOf(locals, t);
      if l.ignore {
        return;
      }
      if l.info.None? {
        var r := FindTinfo(t);
        FoundInTable(slots, t, r);
        l := Local(r, r.None?);
        LocalSet(locals, t, l);
        Remember(t, l);
        if r.None? {
          return;
        }
      }
      var k := l.info.value;
      ShownAt(k);
      if threads[k].state != Running {
        return;
      }
      ReadInto(k, h);
    }

    /** `__read_count` on the thread in slot `k` */
    method ReadInto(k: nat, h: Hit)
      requires Valid() && k < PROF_THREAD_MAX && slots[k].state == Running
      modifies this`slots, threads[k], threads[k].records
      ensures Valid() && slots == old(slots[k := AfterHit(slots[k], h)])
    {
      TakenStays(slots, threadNb, threadNid, k, AfterHit(slots[k], h));
      assert threads[k].Shows(slots[k]);
      hide Agrees;
      threads[k].ReadCount(h, slots[k]);
      slots := slots[k := AfterHit(slots[k], h)];
      OneSlot(k);
    }

    method DestroySlot(k: nat)
      requires Shown() && k < PROF_THREAD_MAX && slots[k].state == Running
      modifies this`slots, threads[k]
      ensures Shown() && slots == old(slots[k := Destroyed(slots[k])])
    {
      assert threads[k].Shows(slots[k]);
      threads[k].Destroy(slots[k]);
      slots := slots[k := Destroyed(slots[k])];
      OneSlot(k);
    }

    /** `lprobe_exit`: unless start-up failed, every running thread's buffer is written out. */
    method Exit()
      requires Valid()
      modifies this`slots, threads
      ensures Shown()
      ensures isError ==> slots == old(slots)
      ensures !isError ==> forall i :: 0 <= i < PROF_THREAD_MAX ==> slots[i] == Exited(old(slots)[i])
    {
      if isError {
        return;
      }
      assert |threads| == PROF_THREAD_MAX;
      hide Shown, Exited;
      for i := 0 to PROF_THREAD_MAX
        invariant Shown() && |slots| == PROF_THREAD_MAX
        invariant forall k :: 0 <= k < i ==> slots[k] == Exited(old(slots)[k])
        invariant forall k :: i <= k < PROF_THREAD_MAX ==> slots[k] == old(slots)[k]
      {
        ExitSlot(i);
      }
    }

    method ExitSlot(k: nat)
      requires Shown() && k < PROF_THREAD_MAX
      modifies this`slots, threads[k]
      ensures Shown() && slots == old(slots[k := Exited(slots[k])])
    {
      ShownAt(k);
      if threads[k].tid == -1 {
        return;
      }
      if threads[k].state == Running {
        DestroySlot(k);
      }
    }

    method Files(nb: nat) returns (files: seq<seq<Record>>)
      requires Shown() && nb <= PROF_THREAD_MAX
      ensures |files| == nb && forall k :: 0 <= k < nb ==> files[k] == slots[k].written
    {
      files := [];
      for i := 0 to nb
        invariant |files| == i
        invariant forall k :: 0 <= k < i ==> files[k] == slots[k].written
      {
        ShownAt(i);
        files := files + [threads[i].written];
      }
    }

    /** Exit after `ops`, and what is then in the files */
    method Finish(ghost ops: seq<Op>) returns (files: seq<seq<Record>>)
      requires Valid() && Follows(slots, threadNb, threadNid, locals, ops) && ProperIds(ops)
      modifies this`slots, threads
      ensures |files| == |Registered(ops)|
      ensures forall i :: 0 <= i < |files| ==> files[i] == FileOf(ops, Registered(ops)[i], isError)
    {
      hide Follows, ProperIds, FileOf, Registered, Agrees, Exited;
      FollowsFiles(slots, threadNb, threadNid, locals, ops);
      Exit();
      files := Files(threadNb);
    }

    /** The steps of a run after its first `k` */
    method Steps(ops: seq<Op>, ghost all: seq<Op>, ghost k: nat)
      requires Valid() && k <= |all| && ops == all[k..] && Follows(slots, threadNb, threadNid, locals, all[..k]) && ProperIds(all)
      modifies this`threadNb, this`threadNid, this`locals, this`slots, threads, Buffers()
      ensures Valid() && Follows(slots, threadNb, threadNid, locals, all)
    {
      hide Follows, ProperIds, Shown, Agrees;
      for n := 0 to |ops|
        invariant Valid() && Follows(slots, threadNb, threadNid, locals, all[..k + n])
      {
        assert all[..k + n + 1] == all[..k + n] + [ops[n]];
        ProperPrefix(all, k + n + 1);
        Step(ops[n], all[..k + n]);
      }
      assert all[..k + |ops|] == all;
    }
  }

  /** A whole run: start-up, then registrations and probe hits in any order, then exit. The result is
      the contents of the registered threads' files, in the order of registration. There is no run if
      start-up does not find the process itself among the first 64 directory entries. */
  method Run(pid: int, setup: Setup, items: Items, ops: seq<Op>) returns (found: bool, files: seq<seq<Record>>)
    requires pid > 0 && DistinctItems(items) && ProperIds(Scanned(pid, setup, items) + ops)
    ensures (found <==> ListedFirst(pid, items)) && (found <==> Has(Scanned(pid, setup, items), pid))
    ensures found ==> FilesHold(files, Scanned(pid, setup, items), ops, SetUpFor(Scanned(pid, setup, items), pid).state == Error)
    ensures found ==> RunLeaves(files, pid, setup, items, ops)
  {
    hide Follows, Registered, Has, SetUpFor, ProperIds, Scanned, FileOf, HitStep, Agrees, NextFree, ListedFirst, DistinctItems;
    ScanFinds(pid, setup, items);
    ghost var start := Scanned(pid, setup, items);
    ghost var all := start + ops;
    assert all[..|start|] == start;
    ProperPrefix(all, |start|);
    var probe := new Probe();
    FollowsStart(probe.slots);
    found := probe.Init(pid, setup, items);
    if !found {
      return false, [];
    }
    assert all[|start|..] == ops;
    probe.Steps(ops, all, |start|);
    files := probe.Finish(all);
    hide RunLeaves;
    RunLeft(files, pid, setup, items, ops);
  }
}
