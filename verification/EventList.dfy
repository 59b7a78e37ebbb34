/** The events a thread counts, numbered in the order they were added. */
module EventList {

  /** One event; `idx` is its number in the list. */
  datatype Event = Event(name: string, idx: nat)

  /** What parsing one item of the event string gives: an event name, or nothing if it fails. */
  datatype Parsed = Named(name: string) | Rejected

  /** The names that parse, in order. */
  function Accepted(items: seq<Parsed>): seq<string> {
    if items == [] then []
    else
      var last := items[|items| - 1];
      Accepted(items[..|items| - 1]) + if last.Named? then [last.name] else []
  }

  /** The number of items before the one at `i` that parse */
  ghost function NamedBefore(items: seq<Parsed>, i: nat): nat
    requires i <= |items|
  {
    |set j | 0 <= j < i && items[j].Named?|
  }

  lemma NamedStep(items: seq<Parsed>, i: nat)
    requires i < |items|
    ensures NamedBefore(items, i + 1) == NamedBefore(items, i) + if items[i].Named? then 1 else 0
  {
    var a := set j | 0 <= j < i && items[j].Named?;
    var b := set j | 0 <= j < i + 1 && items[j].Named?;
    assert b == if items[i].Named? then a + {i} else a;
  }

  lemma NamedPrefix(items: seq<Parsed>, n: nat, i: nat)
    requires i <= n <= |items|
    ensures NamedBefore(items[..n], i) == NamedBefore(items, i)
  {
    assert (set j | 0 <= j < i && items[..n][j].Named?) == (set j | 0 <= j < i && items[j].Named?);
  }

  /** `names` are the names of the items that parse, in order: the name of an item stands at the number of
      such items before it. */
  ghost predicate NamesOf(names: seq<string>, items: seq<Parsed>) {
    && |names| == NamedBefore(items, |items|)
    && forall i :: 0 <= i < |items| && items[i].Named? ==>
      NamedBefore(items, i) < |names| && names[NamedBefore(items, i)] == items[i].name
  }

  lemma {:induction false} AcceptedAre(items: seq<Parsed>)
    ensures NamesOf(Accepted(items), items)
  {
    if items != [] {
      var n := |items| - 1;
      AcceptedAre(items[..n]);
      NamedStep(items, n);
      NamedPrefix(items, n, n);
      forall i | 0 <= i < |items| && items[i].Named?
        ensures NamedBefore(items, i) < |Accepted(items)| && Accepted(items)[NamedBefore(items, i)] == items[i].name
      {
        NamedPrefix(items, n, i);
        assert i < n ==> items[..n][i] == items[i];
      }
    }
  }

  /** Names are accepted item by item. */
  lemma {:induction false} AcceptedJoin(a: seq<Parsed>, b: seq<Parsed>)
    ensures Accepted(a + b) == Accepted(a) + Accepted(b)
  {
    if b == [] {
      assert a + b == a;
    } else {
      var n := |b| - 1;
      AcceptedJoin(a, b[..n]);
      assert (a + b)[..|a + b| - 1] == a + b[..n];
    }
  }

  lemma AcceptedOne(item: Parsed)
    ensures Accepted([item]) == if item.Named? then [item.name] else []
  {
    var one := [item];
    assert one[..0] == [];
  }

  class EventList {
    var entries: seq<Event>
    var nrEntries: nat

    /** The list holds exactly these events, each numbered by its position. */
    ghost predicate Holds(names: seq<string>)
      reads this
    {
      && nrEntries == |entries| == |names|
      && forall i :: 0 <= i < |entries| ==> entries[i] == Event(names[i], i)
    }

    /** `prof_evlist__new` */
    constructor ()
      ensures Holds([])
    {
      entries, nrEntries := [], 0;
    }

    /** `__prof_evlist__add`: a rejected item takes no number. */
    method Add(item: Parsed, ghost names: seq<string>) returns (added: nat)
      requires Holds(names)
      modifies this
      ensures item.Named? ==> added == 1 && Holds(names + [item.name])
      ensures item.Rejected? ==> added == 0 && Holds(names)
    {
      match item
      case Rejected => added := 0;
      case Named(name) =>
        entries := entries + [Event(name, nrEntries)];
        nrEntries := nrEntries + 1;
        added := 1;
    }

    /** The items of one event string, added one after the other. */
    method AddAll(items: seq<Parsed>, ghost names: seq<string>) returns (added: nat)
      requires Holds(names)
      modifies this
      ensures Holds(names + Accepted(items)) && added == NamedBefore(items, |items|)
      ensures |entries| == |names| + added && forall k :: 0 <= k < |names| ==> entries[k] == old(entries)[k]
      ensures forall i :: 0 <= i < |items| && items[i].Named? ==>
        NamedBefore(items, i) < added
        && entries[|names| + NamedBefore(items, i)] == Event(items[i].name, |names| + NamedBefore(items, i))
    {
      AcceptedAre(items);
      added := 0;
      assert names + Accepted([]) == names;
      for i := 0 to |items|
        invariant Holds(names + Accepted(items[..i])) && added == |Accepted(items[..i])|
      {
        assert items[..i + 1][..i] == items[..i];
        var a := Add(items[i], names + Accepted(items[..i]));
        assert items[i].Named? ==>
          names + Accepted(items[..i]) + [items[i].name] == names + Accepted(items[..i + 1]);
        added := added + a;
      }
      assert items[..|items|] == items;
    }
  }
}
