/** The function map: names numbered in the order they are added, and the text file that caches them. */
module FuncMap {
  import opened Basics

  const FUNC_NAME_MAX: nat := 256

  // ----- the list of names

  /** Adding a name that is neither known nor on the skip list */
  function Added(skip: set<string>, funcs: seq<string>, name: string): seq<string> {
    if name in funcs || name in skip then funcs else funcs + [name]
  }

  function AddedAll(skip: set<string>, funcs: seq<string>, names: seq<string>): seq<string>
    decreases |names|
  {
    if names == [] then funcs else AddedAll(skip, Added(skip, funcs, names[0]), names[1..])
  }

  /** Names are listed once, none is on the skip list, and none holds a NUL. */
  ghost predicate Listable(skip: set<string>, funcs: seq<string>) {
    && (forall i, j :: 0 <= i < j < |funcs| ==> funcs[i] != funcs[j])
    && (forall i :: 0 <= i < |funcs| ==> funcs[i] !in skip && '\0' !in funcs[i])
  }

  /** Names are only ever added at the end. */
  lemma {:induction false} AddedAllExtends(skip: set<string>, funcs: seq<string>, names: seq<string>)
    ensures funcs <= AddedAll(skip, funcs, names)
    ensures forall f <- AddedAll(skip, funcs, names) :: f in funcs || f in names
    decreases |names|
  {
    if names != [] {
      AddedAllExtends(skip, Added(skip, funcs, names[0]), names[1..]);
    }
  }

  /** Names are added one after the other. */
  lemma {:induction false} AddedAllIs(skip: set<string>, funcs: seq<string>, a: seq<string>, b: seq<string>, name: string)
    ensures AddedAll(skip, funcs, a + b) == AddedAll(skip, AddedAll(skip, funcs, a), b)
    ensures AddedAll(skip, funcs, [name]) == if name in funcs || name in skip then funcs else funcs + [name]
    decreases |a|
  {
    var one := [name];
    assert one[1..] == [];
    if a == [] {
      assert a + b == b;
    } else {
      AddedAllIs(skip, Added(skip, funcs, a[0]), a[1..], b, name);
      assert (a + b)[1..] == a[1..] + b;
    }
  }

  // ----- the cache file

  /** One name per line */
  function Printed(funcs: seq<string>): string {
    if funcs == [] then "" else funcs[0] + "\n" + Printed(funcs[1..])
  }

  lemma {:induction false} PrintedIs(a: seq<string>, b: seq<string>, name: string)
    ensures Printed(a + b) == Printed(a) + Printed(b)
    ensures Printed([name]) == name + "\n"
  {
    var one := [name];
    assert one[1..] == [] && name + "\n" + "" == name + "\n";
    if a == [] {
      assert a + b == b;
    } else {
      PrintedIs(a[1..], b, name);
      assert (a + b)[1..] == a[1..] + b;
    }
  }

  /** The number of characters that `fgets` takes from the text: up to and including the first newline,
      but at most `room`. */
  function FgetsLength(text: string, room: nat): (n: nat)
    ensures n <= |text| && n <= room && (text != "" && room > 0 ==> n > 0)
    ensures forall k :: 0 <= k < n - 1 ==> text[k] != '\n'
    ensures n < |text| && n < room ==> n > 0 && text[n - 1] == '\n'
  {
    if text == "" || room == 0 then 0
    else if text[0] == '\n' then 1
    else 1 + FgetsLength(text[1..], room - 1)
  }

  /** A line without its newline, if it has one */
  function Stripped(line: string): string
    requires line != ""
  {
    if line[|line| - 1] == '\n' then line[..|line| - 1] else line
  }

  /** What a C string function sees of a buffer: the characters before the first NUL */
  function Seen(line: string): (s: string)
    ensures s <= line && '\0' !in s && ('\0' !in line ==> s == line)
    ensures |s| < |line| ==> line[|s|] == '\0'
  {
    if line == "" || line[0] == '\0' then "" else [line[0]] + Seen(line[1..])
  }

  /** What a loop of `fgets` into a buffer of 256 characters reads, up to a piece that starts with a NUL */
  function Lines(text: string): seq<string> {
    if text == "" then []
    else
      var n := FgetsLength(text, FUNC_NAME_MAX - 1);
      var s := Seen(text[..n]);
      if s == "" then [] else [Stripped(s)] + Lines(text[n..])
  }

  /** Some piece starts with a NUL: the code then looks at the character before its buffer. */
  predicate Underruns(text: string) {
    text != "" &&
      var n := FgetsLength(text, FUNC_NAME_MAX - 1);
      Seen(text[..n]) == "" || Underruns(text[n..])
  }

  /** No line that is read holds a newline or more than 255 characters. */
  lemma {:induction false} LinesAreShort(text: string)
    ensures forall l <- Lines(text) :: '\n' !in l && |l| < FUNC_NAME_MAX
  {
    if text != "" {
      var n := FgetsLength(text, FUNC_NAME_MAX - 1);
      LinesAreShort(text[n..]);
      assert forall k :: 0 <= k < n - 1 ==> text[..n][k] == text[k];
    }
  }

  lemma {:induction false} FgetsStopsAt(a: string, rest: string, room: nat)
    requires '\n' !in a
    ensures FgetsLength(a + "\n" + rest, room) == if |a| < room then |a| + 1 else room
  {
    var text := a + "\n" + rest;
    if a != "" && room > 0 {
      FgetsStopsAt(a[1..], rest, room - 1);
      assert text[1..] == a[1..] + "\n" + rest;
      assert text[0] == a[0];
    }
  }

  /** The lines a list of names is read back as: a name that fills the buffer leaves its newline to be
      read as an empty line. */
  function ReadBack(funcs: seq<string>): seq<string> {
    if funcs == [] then []
    else (if |funcs[0]| == FUNC_NAME_MAX - 1 then [funcs[0], ""] else [funcs[0]]) + ReadBack(funcs[1..])
  }

  ghost predicate Short(funcs: seq<string>) {
    forall i :: 0 <= i < |funcs| ==> '\n' !in funcs[i] && |funcs[i]| < FUNC_NAME_MAX
  }

  ghost predicate NoNul(funcs: seq<string>) {
    forall i :: 0 <= i < |funcs| ==> '\0' !in funcs[i]
  }

  lemma {:induction false} LinesOfPrinted(funcs: seq<string>)
    requires Short(funcs) && NoNul(funcs)
    ensures Lines(Printed(funcs)) == ReadBack(funcs)
  {
    if funcs != [] {
      var f, rest := funcs[0], Printed(funcs[1..]);
      LinesOfPrinted(funcs[1..]);
      LinesOfLine(f, rest);
    }
  }

  /** The first piece that is read: what is before a NUL in it becomes a name, without its newline; if it
      starts with a NUL, nothing more is read. */
  lemma LinesStep(line: string, rest: string)
    requires line != "" && FgetsLength(line + rest, FUNC_NAME_MAX - 1) == |line|
    ensures Lines(line + rest) == if line[0] == '\0' then [] else [Stripped(Seen(line))] + Lines(rest)
    ensures Underruns(line + rest) <==> line[0] == '\0' || Underruns(rest)
  {
    var text := line + rest;
    assert text[..|line|] == line && text[|line|..] == rest;
  }

  /** A last line without newline is read, too, and so is a line that fills the buffer. */
  lemma LinesOfPiece(f: string, rest: string)
    requires f != "" && '\n' !in f && '\0' !in f
    requires |f| < FUNC_NAME_MAX && (rest == "" || |f| == FUNC_NAME_MAX - 1)
    ensures Lines(f + rest) == [f] + Lines(rest)
  {
    var n := FgetsLength(f + rest, FUNC_NAME_MAX - 1);
    assert forall k :: 0 <= k < |f| ==> (f + rest)[k] == f[k];
    LinesStep(f, rest);
    assert f[|f| - 1] in f;
  }

  lemma PlainStep(line: string, rest: string)
    requires line != "" && '\0' !in line && FgetsLength(line + rest, FUNC_NAME_MAX - 1) == |line|
    ensures Lines(line + rest) == [Stripped(line)] + Lines(rest)
  {
    LinesStep(line, rest);
  }

  lemma LinesOfLine(f: string, rest: string)
    requires '\n' !in f && '\0' !in f && |f| < FUNC_NAME_MAX
    ensures Lines(f + "\n" + rest) == (if |f| == FUNC_NAME_MAX - 1 then [f, ""] else [f]) + Lines(rest)
  {
    hide Lines, FgetsLength;
    FgetsStopsAt(f, rest, FUNC_NAME_MAX - 1);
    if |f| < FUNC_NAME_MAX - 1 {
      PlainStep(f + "\n", rest);
    } else {
      assert f + "\n" + rest == f + ("\n" + rest);
      assert f[|f| - 1] in f;
      PlainStep(f, "\n" + rest);
      FgetsStopsAt("", rest, FUNC_NAME_MAX - 1);
      assert "" + "\n" == "\n";
      PlainStep("\n", rest);
    }
  }

  // ----- the round trip

  /** The empty line that a name of 255 characters leaves behind does no harm: the empty name is
      skipped, already listed, or next in the list. */
  ghost predicate EmptyLineHarmless(skip: set<string>, funcs: seq<string>, i: nat)
    requires i < |funcs|
  {
    |funcs[i]| == FUNC_NAME_MAX - 1 ==> "" in skip || "" in funcs[..i + 1] || (i + 1 < |funcs| && funcs[i + 1] == "")
  }

  ghost predicate Cacheable(skip: set<string>, funcs: seq<string>) {
    Short(funcs) && forall i :: 0 <= i < |funcs| ==> EmptyLineHarmless(skip, funcs, i)
  }

  /** What has been loaded once the first `k` names were read back without harm */
  ghost function Loaded(funcs: seq<string>, k: nat): seq<string>
    requires k <= |funcs|
  {
    if 0 < k < |funcs| && |funcs[k - 1]| == FUNC_NAME_MAX - 1 && funcs[k] == "" then funcs[..k + 1] else funcs[..k]
  }

  lemma LoadsName(skip: set<string>, funcs: seq<string>, k: nat)
    requires Listable(skip, funcs) && k < |funcs|
    ensures Added(skip, Loaded(funcs, k), funcs[k]) == funcs[..k + 1]
  {
    assert funcs[..k + 1] == funcs[..k] + [funcs[k]];
    assert funcs[k] !in funcs[..k];
  }

  /** The empty line after the name at `k` either leads to the next loaded state or spoils the list. */
  lemma LoadsEmptyLine(skip: set<string>, funcs: seq<string>, k: nat)
    requires Listable(skip, funcs) && k < |funcs| && |funcs[k]| == FUNC_NAME_MAX - 1
    ensures EmptyLineHarmless(skip, funcs, k) ==> Added(skip, funcs[..k + 1], "") == Loaded(funcs, k + 1)
    ensures !EmptyLineHarmless(skip, funcs, k) ==> !(Added(skip, funcs[..k + 1], "") <= funcs)
  {
    var s := funcs[..k + 1];
    if k + 1 < |funcs| && funcs[k + 1] == "" {
      assert "" !in s && funcs[..k + 2] == s + [""];
    } else if !("" in skip || "" in s) {
      assert (s + [""])[k + 1] == "";
    }
  }

  /** Reading the names from `k` on restores the list exactly when each of them is harmless. */
  lemma {:induction false} LoadsRest(skip: set<string>, funcs: seq<string>, k: nat)
    requires Listable(skip, funcs) && k <= |funcs|
    ensures AddedAll(skip, Loaded(funcs, k), ReadBack(funcs[k..])) == funcs
      <==> forall i :: k <= i < |funcs| ==> EmptyLineHarmless(skip, funcs, i)
    decreases |funcs| - k
  {
    if k < |funcs| {
      var f, rest := funcs[k], ReadBack(funcs[k + 1..]);
      assert funcs[k..][0] == f && funcs[k..][1..] == funcs[k + 1..];
      LoadsName(skip, funcs, k);
      if |f| == FUNC_NAME_MAX - 1 {
        assert ReadBack(funcs[k..]) == [f, ""] + rest;
        assert ([f, ""] + rest)[1..] == [""] + rest && ([""] + rest)[1..] == rest;
        LoadsEmptyLine(skip, funcs, k);
        AddedAllExtends(skip, Added(skip, funcs[..k + 1], ""), rest);
      } else {
        assert ReadBack(funcs[k..]) == [f] + rest;
        assert ([f] + rest)[1..] == rest;
        assert Loaded(funcs, k + 1) == funcs[..k + 1];
      }
      LoadsRest(skip, funcs, k + 1);
    } else {
      assert funcs[k..] == [] && Loaded(funcs, k) == funcs;
    }
  }

  /** Loading what was written gives the same list exactly when every name is free of newlines, fits
      the read buffer, and leaves no harmful empty line. */
  lemma RoundTrip(skip: set<string>, funcs: seq<string>)
    requires Listable(skip, funcs)
    ensures AddedAll(skip, [], Lines(Printed(funcs))) == funcs <==> Cacheable(skip, funcs)
  {
    var loaded := AddedAll(skip, [], Lines(Printed(funcs)));
    if Short(funcs) {
      LinesOfPrinted(funcs);
      LoadsRest(skip, funcs, 0);
      assert funcs[0..] == funcs && funcs[..0] == [];
    } else {
      var i :| 0 <= i < |funcs| && !('\n' !in funcs[i] && |funcs[i]| < FUNC_NAME_MAX);
      AddedAllExtends(skip, [], Lines(Printed(funcs)));
      LinesAreShort(Printed(funcs));
      assert funcs[i] in funcs && funcs[i] !in loaded;
    }
  }

  /** Names of at most 254 characters without newlines are always restored. */
  lemma RoundTripShort(skip: set<string>, funcs: seq<string>)
    requires Listable(skip, funcs)
    requires forall i :: 0 <= i < |funcs| ==> '\n' !in funcs[i] && |funcs[i]| <= 254
    ensures AddedAll(skip, [], Lines(Printed(funcs))) == funcs
  {
    RoundTrip(skip, funcs);
  }

  /** A single name of 255 characters is not: an empty name is added after it. */
  lemma LongNameAddsEmpty(name: string)
    requires |name| == 255 && '\n' !in name && '\0' !in name
    ensures AddedAll({}, [], Lines(Printed([name]))) == [name, ""]
  {
    var one := [name];
    LinesOfPrinted(one);
    assert ReadBack(one) == [name, ""] by {
      assert one[1..] == [];
    }
    var ls := [name, ""];
    assert ls[1..] == [""] && [""][1..] == [];
    assert AddedAll({}, [], ls) == AddedAll({}, [name], [""]);
    assert Added({}, [name], "") == ls;
  }

  // ----- the map

  /** How loading the cache ends. `OutOfBounds` is undefined behaviour: nothing is said of what follows. */
  datatype Load = NoFile | Finished | OutOfBounds

  class FuncMap {
    var funcs: seq<string>
    var funcIndices: map<string, nat>
    const skip: set<string>

    /** The list and the map are each other's inverse. */
    ghost predicate Valid()
      reads this
    {
      && Listable(skip, funcs)
      && (forall i :: 0 <= i < |funcs| ==> funcs[i] in funcIndices && funcIndices[funcs[i]] == i)
      && (forall f <- funcIndices :: funcIndices[f] < |funcs| && funcs[funcIndices[f]] == f)
    }

    constructor (skip: set<string>)
      ensures Valid() && funcs == [] && this.skip == skip
    {
      funcs, funcIndices := [], map[];
      this.skip := skip;
    }

    /** `addFunction`; a name that is known or skipped has no new index. */
    method AddFunction(name: string) returns (index: Option<nat>)
      requires Valid() && '\0' !in name
      modifies this
      ensures Valid() && funcs == Added(skip, old(funcs), name)
      ensures index == if name in old(funcs) || name in skip then None else Some(|old(funcs)|)
    {
      if name in funcIndices {
        return None;
      }
      if name in skip {
        return None;
      }
      var i := |funcs|;
      funcs := funcs + [name];
      funcIndices := funcIndices[name := i];
      return Some(i);
    }

    /** `getFunctionID` */
    method GetFunctionID(name: string) returns (index: Option<nat>)
      requires Valid()
      ensures index.None? <==> name !in funcs
      ensures index.Some? ==> index.value < |funcs| && funcs[index.value] == name
    {
      if name !in funcIndices {
        return None;
      }
      return Some(funcIndices[name]);
    }

    /** `updateCache`; `writable` says whether the file can be opened. */
    method UpdateCache(writable: bool) returns (file: Option<string>)
      requires Valid()
      ensures file == if writable then Some(Printed(funcs)) else None
    {
      if !writable {
        return None;
      }
      var text := "";
      for i := 0 to |funcs|
        invariant text + Printed(funcs[i..]) == Printed(funcs)
      {
        assert Printed(funcs[i..]) == funcs[i] + "\n" + Printed(funcs[i + 1..]) by {
          assert funcs[i..][1..] == funcs[i + 1..];
        }
        text := text + funcs[i] + "\n";
      }
      assert funcs[|funcs|..] == [] && text + "" == text;
      return Some(text);
    }

    /** `loadFromCache` on the file's contents, if it can be opened */
    method LoadFromCache(file: Option<string>) returns (load: Load)
      requires Valid()
      modifies this
      ensures Valid()
      ensures load == if file.None? then NoFile else if Underruns(file.value) then OutOfBounds else Finished
      ensures funcs == if file.Some? then AddedAll(skip, old(funcs), Lines(file.value)) else old(funcs)
    {
      if file.None? {
        return NoFile;
      }
      var text := file.value;
      while text != ""
        invariant Valid() && (Underruns(text) <==> Underruns(file.value))
        invariant AddedAll(skip, funcs, Lines(text)) == AddedAll(skip, old(funcs), Lines(file.value))
        decreases |text|
      {
        var n := FgetsLength(text, FUNC_NAME_MAX - 1);
        var line := Seen(text[..n]);
        if line == "" {
          return OutOfBounds;
        }
        assert Lines(text) == [Stripped(line)] + Lines(text[n..]);
        var _ := AddFunction(Stripped(line));
        text := text[n..];
      }
      return Finished;
    }
  }

  lemma {:induction false} PrintedHasNoNul(funcs: seq<string>)
    requires NoNul(funcs)
    ensures '\0' !in Printed(funcs)
  {
    if funcs != [] {
      PrintedHasNoNul(funcs[1..]);
    }
  }

  /** A file without NUL is read within bounds, and so is every cache that was written. */
  lemma {:induction false} NoNulIsSafe(text: string)
    requires '\0' !in text
    ensures !Underruns(text)
  {
    if text != "" {
      NoNulIsSafe(text[FgetsLength(text, FUNC_NAME_MAX - 1)..]);
    }
  }

  lemma PrintedIsSafe(funcs: seq<string>)
    requires NoNul(funcs)
    ensures !Underruns(Printed(funcs))
  {
    PrintedHasNoNul(funcs);
    NoNulIsSafe(Printed(funcs));
  }

  /** Any sequence of additions, then a write, then a load into a new map with the same skip list: the
      names have the same ids as before exactly when the list is cacheable. */
  method AddWriteLoad(skip: set<string>, names: seq<string>) returns (before: map<string, nat>, after: map<string, nat>, safe: bool)
    requires forall i :: 0 <= i < |names| ==> '\0' !in names[i]
    ensures before.Keys == set f | f in AddedAll(skip, [], names)
    ensures safe
    ensures before == after <==> Cacheable(skip, AddedAll(skip, [], names))
  {
    var m := new FuncMap(skip);
    for i := 0 to |names|
      invariant m.Valid() && fresh(m) && m.skip == skip
      invariant AddedAll(skip, m.funcs, names[i..]) == AddedAll(skip, [], names)
    {
      assert names[i..][0] == names[i] && names[i..][1..] == names[i + 1..];
      var _ := m.AddFunction(names[i]);
    }
    var file := m.UpdateCache(true);
    PrintedIsSafe(m.funcs);
    var m' := new FuncMap(skip);
    var load := m'.LoadFromCache(file);
    RoundTrip(skip, m.funcs);
    SameIds(m, m');
    return m.funcIndices, m'.funcIndices, load == Finished;
  }

  lemma PrefixOf(m: FuncMap, m': FuncMap)
    requires m.Valid() && m'.Valid() && m.funcIndices == m'.funcIndices
    ensures m.funcs <= m'.funcs
  {
    forall i | 0 <= i < |m.funcs|
      ensures i < |m'.funcs| && m'.funcs[i] == m.funcs[i]
    {
      var f := m.funcs[i];
      assert f in m'.funcIndices && m'.funcIndices[f] == i;
    }
    if m.funcs != [] {
      var last := |m.funcs| - 1;
      var f := m.funcs[last];
      assert f in m'.funcIndices && m'.funcIndices[f] == last;
    }
  }

  /** The ids determine the list, and the list the ids. */
  lemma SameIds(m: FuncMap, m': FuncMap)
    requires m.Valid() && m'.Valid()
    ensures m.funcs == m'.funcs <==> m.funcIndices == m'.funcIndices
  {
    if m.funcIndices == m'.funcIndices {
      PrefixOf(m, m');
      PrefixOf(m', m);
    }
    if m.funcs == m'.funcs {
      assert forall f :: f in m.funcIndices <==> f in m'.funcIndices;
    }
  }
}
