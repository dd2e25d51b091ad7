/** Loading build.prop files with imports (build_property_parser.rs).

    What a load does is described by a trace: the file loads and assignments in order, with every import
    inlined where it stands.  The trace knows no budget; the loader carries it out until the budget is
    spent, and says so when it is. */
module PropertyLoader {
  import opened Base
  import opened BoundedLine
  import opened ImportPath

  const MAX_IMPORT_DEPTH: nat := 8
  const MAX_TOTAL_LOADS: nat := 1000

  const HASH: byte := 0x23
  const EQUALS: byte := 0x3D
  const STAR: byte := 0x2A
  const IMPORT: Str := Ascii("import ")
  const CTL: Str := Ascii("ctl.")
  const POWERCTL: Str := Ascii("sys.powerctl")
  const RESTORECON_PROPERTY: Str := Ascii("selinux.restorecon_recursive")

  /** What reading a file delivers, and whether a read error follows it. */
  datatype File = File(data: Str, broken: bool)

  /** The file system: files by canonical path, and canonical paths by name; `utf8` accepts the valid
      lines, `chunk` is how the buffered reader hands out bytes. */
  datatype Env = Env(files: map<Str, File>, canonical: map<Str, Str>, utf8: Str -> bool, chunk: nat -> nat)

  datatype LoadError = TooDeep | LimitExceeded | Unreadable

  type Loaded = Outcome<(), LoadError>

  // ---------------------------------------------------------------- lines

  /** ASCII white space. */
  predicate Blank(c: byte)
  {
    9 <= c <= 13 || c == 32
  }

  function TrimStart(s: Str): Str
  {
    if s != [] && Blank(s[0]) then TrimStart(s[1..]) else s
  }

  function TrimEnd(s: Str): Str
  {
    if s != [] && Blank(s[|s| - 1]) then TrimEnd(s[..|s| - 1]) else s
  }

  function Trim(s: Str): Str
  {
    TrimEnd(TrimStart(s))
  }

  datatype Line = Skipped | Import(raw: Str) | Entry(key: Str, value: Str)

  predicate Disallowed(key: Str)
  {
    CTL <= key || key == POWERCTL || key == RESTORECON_PROPERTY
  }

  /** A filter ending in `*` selects a prefix, any other exactly itself. */
  predicate Selected(filter: Str, key: Str)
  {
    if filter != [] && filter[|filter| - 1] == STAR then filter[..|filter| - 1] <= key else key == filter
  }

  /** What a line asks for.  Without a filter (or with an empty one) imports are followed. */
  function Classify(buf: Str, truncated: bool, filter: Str, utf8: Str -> bool): Line
  {
    if truncated || !utf8(buf) then Skipped
    else
      var line := Trim(buf);
      if line == [] || line[0] == HASH then Skipped
      else if filter == [] && IMPORT <= line then Import(Trim(line[|IMPORT|..]))
      else
        match IndexOf(line, EQUALS)
        case None => Skipped
        case Some(i) =>
          var key, value := TrimEnd(line[..i]), Trim(line[i + 1..]);
          if key == [] || (filter != [] && !Selected(filter, key)) || Disallowed(key) then Skipped else Entry(key, value)
  }

  /** The line at `pos`, from the bytes that reach the parser. */
  function LineAt(env: Env, data: Str, pos: nat, filter: Str): Line
    requires pos < |data|
  {
    var read := AsRead(data[pos..LineEnd(data, pos)]);
    Classify(read.buf, read.truncated, filter, env.utf8)
  }

  // ---------------------------------------------------------------- traces

  datatype Event = Load(filename: Str) | Assign(key: Str, value: Str)

  function Apply(properties: map<Str, Str>, tr: seq<Event>): map<Str, Str>
    decreases |tr|
  {
    if tr == [] then properties
    else
      match tr[0]
      case Load(_) => Apply(properties, tr[1..])
      case Assign(k, v) => Apply(properties[k := v], tr[1..])
  }

  function Loads(tr: seq<Event>): nat
  {
    if tr == [] then 0 else (if tr[0].Load? then 1 else 0) + Loads(tr[1..])
  }

  /** The trace up to, and without, the first load that is one too many. */
  function Cut(tr: seq<Event>, budget: nat): seq<Event>
  {
    if tr == [] || (tr[0].Load? && budget == 0) then []
    else [tr[0]] + Cut(tr[1..], if tr[0].Load? then budget - 1 else budget)
  }

  function Canonical(env: Env, filename: Str): Str
  {
    if filename in env.canonical then env.canonical[filename] else filename
  }

  function Depths(depth: nat): nat
  {
    if depth > MAX_IMPORT_DEPTH then 0 else MAX_IMPORT_DEPTH + 1 - depth
  }

  /** One file: nothing when nested too deep; otherwise it counts as a load, and unless it is being
      loaded already or cannot be opened, its lines follow. */
  function TraceFile(env: Env, filename: Str, filter: Str, depth: nat, stack: set<Str>, properties: map<Str, Str>): seq<Event>
    decreases Depths(depth), 2, 0
  {
    var path := Canonical(env, filename);
    if depth > MAX_IMPORT_DEPTH then []
    else if path in stack || path !in env.files then [Load(filename)]
    else [Load(filename)] + TraceLines(env, env.files[path], 0, filter, depth, stack + {path}, properties)
  }

  /** A line can be read at `pos`: it is all there, or the end of the file is its end. */
  predicate Readable(file: File, pos: nat)
    requires pos <= |file.data|
  {
    pos < |file.data| && (file.broken ==> Terminated(file.data, pos))
  }

  /** The readable lines of a file from `pos` on, each seeing what the ones before have set. */
  function TraceLines(env: Env, file: File, pos: nat, filter: Str, depth: nat, stack: set<Str>, properties: map<Str, Str>)
    : seq<Event>
    requires pos <= |file.data| && depth <= MAX_IMPORT_DEPTH
    decreases Depths(depth), 1, |file.data| - pos
  {
    if !Readable(file, pos) then []
    else
      var line := TraceLine(env, LineAt(env, file.data, pos, filter), depth, stack, properties);
      line + TraceLines(env, file, LineEnd(file.data, pos), filter, depth, stack, Apply(properties, line))
  }

  /** An import stands for the trace of the file it names; one that cannot be expanded for nothing. */
  function TraceLine(env: Env, line: Line, depth: nat, stack: set<Str>, properties: map<Str, Str>): seq<Event>
    requires depth <= MAX_IMPORT_DEPTH
    decreases Depths(depth), 0, 0
  {
    match line
    case Skipped => []
    case Entry(k, v) => [Assign(k, v)]
    case Import(raw) =>
      match Expand(raw, properties)
      case None => []
      case Some(path) => TraceFile(env, path, [], depth + 1, stack, properties)
  }

  /** How a load ends when the budget holds; the lines read before an error stay. */
  function Ending(env: Env, filename: Str, depth: nat, stack: set<Str>): Loaded
  {
    var path := Canonical(env, filename);
    if depth > MAX_IMPORT_DEPTH then Err(TooDeep)
    else if path !in stack then ReadResult(env, path)
    else Ok(())
  }

  /** A file is read to its end, unless it cannot be opened or a read fails. */
  function ReadResult(env: Env, path: Str): Loaded
  {
    if path in env.files && !env.files[path].broken then Ok(()) else Err(Unreadable)
  }

  // ---------------------------------------------------------------- carrying out a trace under the budget

  /** From `p` and `n` loads, carrying out `tr` within the budget leads to `p'` and `n'` loads; `limited`
      says whether the budget cut it short. */
  predicate CarriedOut(p: map<Str, Str>, n: nat, tr: seq<Event>, p': map<Str, Str>, n': nat, limited: bool)
  {
    n <= MAX_TOTAL_LOADS
    && (limited <==> n + Loads(tr) > MAX_TOTAL_LOADS)
    && p' == Apply(p, Cut(tr, MAX_TOTAL_LOADS - n))
    && n' == if limited then MAX_TOTAL_LOADS + 1 else n + Loads(tr)
  }

  lemma {:induction false} CutConcat(a: seq<Event>, b: seq<Event>, budget: nat)
    ensures Loads(a + b) == Loads(a) + Loads(b)
    ensures Cut(a + b, budget) == if Loads(a) <= budget then a + Cut(b, budget - Loads(a)) else Cut(a, budget)
    decreases |a|
  {
    if a == [] {
      assert a + b == b;
      assert [] + Cut(b, budget) == Cut(b, budget);
    } else {
      assert (a + b)[0] == a[0] && (a + b)[1..] == a[1..] + b;
      if !(a[0].Load? && budget == 0) {
        var left := if a[0].Load? then budget - 1 else budget;
        CutConcat(a[1..], b, left);
        assert a == [a[0]] + a[1..];
        if Loads(a) <= budget {
          assert [a[0]] + (a[1..] + Cut(b, budget - Loads(a))) == a + Cut(b, budget - Loads(a));
        }
      } else {
        CutConcat(a[1..], b, budget);
      }
    }
  }

  lemma {:induction false} CutAll(a: seq<Event>, budget: nat)
    requires Loads(a) <= budget
    ensures Cut(a, budget) == a
  {
    CutConcat(a, [], budget);
    assert a + [] == a;
  }

  lemma {:induction false} LoadsAddUp(tr: seq<Event>, e: Event)
    ensures Loads([]) == 0 && Loads(tr + [e]) == Loads(tr) + if e.Load? then 1 else 0
  {
    CutConcat(tr, [e], 0);
    assert [e][1..] == [];
  }

  /** A cut trace is what comes before the load that is one too many. */
  lemma {:induction false} CutBeforeLoad(tr: seq<Event>, budget: nat)
    ensures Cut(tr, budget) <= tr && Loads(Cut(tr, budget)) <= budget
    ensures Cut(tr, budget) == tr <==> Loads(tr) <= budget
    ensures Loads(tr) > budget ==>
              Loads(Cut(tr, budget)) == budget && |Cut(tr, budget)| < |tr| && tr[|Cut(tr, budget)|].Load?
    decreases |tr|
  {
    if tr != [] && !(tr[0].Load? && budget == 0) {
      var left := if tr[0].Load? then budget - 1 else budget;
      CutBeforeLoad(tr[1..], left);
      assert tr == [tr[0]] + tr[1..];
      assert Cut(tr, budget)[1..] == Cut(tr[1..], left);
    }
  }

  lemma {:induction false} ApplyConcat(p: map<Str, Str>, a: seq<Event>, b: seq<Event>)
    ensures Apply(p, a + b) == Apply(Apply(p, a), b)
    decreases |a|
  {
    if a == [] {
      assert a + b == b;
    } else {
      assert (a + b)[0] == a[0] && (a + b)[1..] == a[1..] + b;
      ApplyConcat(match a[0] case Load(_) => p case Assign(k, v) => p[k := v], a[1..], b);
    }
  }

  lemma {:induction false} ThenCarriedOut(p: map<Str, Str>, n: nat, a: seq<Event>, p1: map<Str, Str>, n1: nat,
                                          b: seq<Event>, p2: map<Str, Str>, n2: nat, limited: bool)
    requires CarriedOut(p, n, a, p1, n1, false) && CarriedOut(p1, n1, b, p2, n2, limited)
    ensures CarriedOut(p, n, a + b, p2, n2, limited)
  {
    hide Apply, Cut, Loads;
    var budget := MAX_TOTAL_LOADS - n;
    CutConcat(a, b, budget);
    CutAll(a, budget);
    ApplyConcat(p, a, Cut(b, budget - Loads(a)));
  }

  lemma {:induction false} CutShort(p: map<Str, Str>, n: nat, a: seq<Event>, p1: map<Str, Str>, n1: nat, b: seq<Event>)
    requires CarriedOut(p, n, a, p1, n1, true)
    ensures CarriedOut(p, n, a + b, p1, n1, true)
  {
    hide Apply, Cut;
    CutConcat(a, b, MAX_TOTAL_LOADS - n);
  }

  lemma {:induction false} NothingCarriedOut(p: map<Str, Str>, n: nat)
    requires n <= MAX_TOTAL_LOADS
    ensures CarriedOut(p, n, [], p, n, false)
  {
  }

  lemma {:induction false} OneCarriedOut(p: map<Str, Str>, n: nat, e: Event)
    requires n <= MAX_TOTAL_LOADS
    ensures CarriedOut(p, n, [e], if e.Load? then p else p[e.key := e.value], if e.Load? then n + 1 else n,
                       e.Load? && n == MAX_TOTAL_LOADS)
  {
    assert [e][1..] == [];
    assert Loads([e]) == if e.Load? then 1 else 0;
    if !(e.Load? && n == MAX_TOTAL_LOADS) {
      CutAll([e], MAX_TOTAL_LOADS - n);
    }
  }

  // ---------------------------------------------------------------- the loader

  class Loader {
    const env: Env
    var properties: map<Str, Str>
    var visited: set<Str>
    var loads: nat

    constructor (env: Env, properties: map<Str, Str>)
      ensures this.env == env && this.properties == properties && visited == {} && loads == 0
    {
      this.env := env;
      this.properties := properties;
      visited := {};
      loads := 0;
    }

    /** Loads one file.  It carries out the file's trace, stops when the budget of loads is spent, and
        leaves the import stack as it found it, however it ends. */
    method LoadPropertiesImpl(filename: Str, filter: Str, depth: nat) returns (r: Loaded)
      requires loads <= MAX_TOTAL_LOADS
      modifies this
      ensures visited == old(visited)
      ensures CarriedOut(old(properties), old(loads), TraceFile(env, filename, filter, depth, old(visited), old(properties)),
                         properties, loads, r == Err(LimitExceeded))
      ensures r == Err(LimitExceeded) || r == Ending(env, filename, depth, old(visited))
      decreases Depths(depth), 2, 0
    {
      hide CarriedOut, TraceLines;
      NothingCarriedOut(properties, loads);
      if depth > MAX_IMPORT_DEPTH {
        return Err(TooDeep);
      }
      OneCarriedOut(properties, loads, Load(filename));
      loads := loads + 1;
      ghost var path := Canonical(env, filename);
      ghost var body := if path in env.files then TraceLines(env, env.files[path], 0, filter, depth, visited + {path}, properties) else [];
      if loads > MAX_TOTAL_LOADS {
        CutShort(old(properties), old(loads), [Load(filename)], properties, loads, body);
        return Err(LimitExceeded);
      }
      var canonical := Canonical(env, filename);
      if canonical in visited {
        return Ok(());
      }
      visited := visited + {canonical};
      r := LoadPropertiesBody(canonical, filter, depth);
      ThenCarriedOut(old(properties), old(loads), [Load(filename)], old(properties), old(loads) + 1, body,
                     properties, loads, r == Err(LimitExceeded));
      assert [Load(filename)] + [] == [Load(filename)];
      assert visited - {canonical} == old(visited);
      visited := visited - {canonical};
    }

    method LoadPropertiesBody(canonical: Str, filter: Str, depth: nat) returns (r: Loaded)
      requires loads <= MAX_TOTAL_LOADS && depth <= MAX_IMPORT_DEPTH
      modifies this
      ensures visited == old(visited)
      ensures CarriedOut(old(properties), old(loads),
                         if canonical in env.files
                         then TraceLines(env, env.files[canonical], 0, filter, depth, visited, old(properties)) else [],
                         properties, loads, r == Err(LimitExceeded))
      ensures r == Err(LimitExceeded) || r == ReadResult(env, canonical)
      decreases Depths(depth), 1, 0
    {
      hide CarriedOut, TraceFile, TraceLines, TraceLine, Expand, Classify, LineEnd, AsRead, Apply, Terminated;
      NothingCarriedOut(properties, loads);
      if canonical !in env.files {
        return Err(Unreadable);
      }
      var file := env.files[canonical];
      var reader := new Reader(file.data, file.broken, env.chunk);
      ghost var p0, n0 := properties, loads;
      ghost var all := TraceLines(env, file, 0, filter, depth, visited, p0);
      ghost var done: seq<Event> := [];
      assert all == done + all;
      while true
        invariant reader.Valid() && reader.data == file.data && reader.broken == file.broken && fresh(reader)
        invariant visited == old(visited) && loads <= MAX_TOTAL_LOADS
        invariant CarriedOut(p0, n0, done, properties, loads, false)
        invariant all == done + TraceLines(env, file, reader.pos, filter, depth, visited, properties)
        decreases |file.data| - reader.pos
      {
        ghost var pos, p1, n1 := reader.pos, properties, loads;
        var read := reader.ReadBoundedLine();
        if read.None? || read.value.count == 0 {
          NoMoreLines(file, pos);
          TraceLinesEnd(env, file, pos, filter, depth, visited, properties);
          assert done + [] == done;
          return if read.None? then Err(Unreadable) else Ok(());
        }
        OneMoreLine(file, pos);
        ghost var line := LineAt(env, file.data, pos, filter);
        ghost var tr := TraceLine(env, line, depth, visited, properties);
        TraceLinesStep(env, file, pos, filter, depth, visited, properties);
        assert line == Classify(read.value.buf, read.value.truncated, filter, env.utf8);
        var limited := PerformLine(Classify(read.value.buf, read.value.truncated, filter, env.utf8), depth);
        if limited {
          ThenCarriedOut(p0, n0, done, p1, n1, tr, properties, loads, true);
          CutShort(p0, n0, done + tr, properties, loads, TraceLines(env, file, reader.pos, filter, depth, visited, Apply(p1, tr)));
          Regroup(all, done, tr, TraceLines(env, file, reader.pos, filter, depth, visited, Apply(p1, tr)));
          return Err(LimitExceeded);
        }
        ThenCarriedOut(p0, n0, done, p1, n1, tr, properties, loads, false);
        Regroup(all, done, tr, TraceLines(env, file, reader.pos, filter, depth, visited, Apply(p1, tr)));
        WithinBudget(p1, n1, tr, properties, loads);
        done := done + tr;
      }
    }

    /** One parsed line: an import that fails for any reason but the budget is skipped. */
    method PerformLine(line: Line, depth: nat) returns (limited: bool)
      requires loads <= MAX_TOTAL_LOADS && depth <= MAX_IMPORT_DEPTH
      modifies this
      ensures visited == old(visited)
      ensures CarriedOut(old(properties), old(loads), TraceLine(env, line, depth, visited, old(properties)),
                         properties, loads, limited)
      decreases Depths(depth), 0, 0
    {
      hide CarriedOut, TraceFile, Expand;
      NothingCarriedOut(properties, loads);
      match line {
        case Skipped =>
          limited := false;
        case Import(raw) =>
          var expanded := ExpandImportPath(raw, properties);
          if expanded.None? {
            return false;
          }
          var r := LoadPropertiesImpl(expanded.value, [], depth + 1);
          limited := r == Err(LimitExceeded);
        case Entry(key, value) =>
          OneCarriedOut(properties, loads, Assign(key, value));
          properties := properties[key := value];
          limited := false;
      }
    }

    /** The whole load: at most 1001 files are counted, and without a breach of the budget the map is the
        one that the trace prescribes. */
    method LoadPropertiesFromFile(filename: Str, filter: Str) returns (r: Loaded)
      requires visited == {} && loads == 0
      modifies this
      ensures visited == {} && loads <= 1001
      ensures var tr := TraceFile(env, filename, filter, 0, {}, old(properties));
              (r == Err(LimitExceeded) <==> Loads(tr) > 1000)
              && properties == Apply(old(properties), Cut(tr, 1000))
              && (Loads(tr) <= 1000 ==> properties == Apply(old(properties), tr) && loads == Loads(tr)
                                                   && r == Ending(env, filename, 0, {}))
    {
      hide TraceFile, Apply, Cut, Loads;
      r := LoadPropertiesImpl(filename, filter, 0);
      ghost var tr := TraceFile(env, filename, filter, 0, {}, old(properties));
      if Loads(tr) <= MAX_TOTAL_LOADS {
        CutAll(tr, MAX_TOTAL_LOADS);
      }
    }
  }

  lemma {:induction false} NoMoreLines(file: File, pos: nat)
    requires pos <= |file.data|
    ensures (file.broken && !Terminated(file.data, pos)) || AsRead(file.data[pos..LineEnd(file.data, pos)]).count == 0 ==>
              !Readable(file, pos)
    ensures AsRead(file.data[pos..LineEnd(file.data, pos)]).count == 0 ==> !Terminated(file.data, pos)
  {
  }

  lemma {:induction false} OneMoreLine(file: File, pos: nat)
    requires pos <= |file.data| && !(file.broken && !Terminated(file.data, pos))
    requires AsRead(file.data[pos..LineEnd(file.data, pos)]).count != 0
    ensures pos < |file.data| && Readable(file, pos)
  {
  }

  lemma {:induction false} TraceLinesEnd(env: Env, file: File, pos: nat, filter: Str, depth: nat, stack: set<Str>, p: map<Str, Str>)
    requires pos <= |file.data| && !Readable(file, pos) && depth <= MAX_IMPORT_DEPTH
    ensures TraceLines(env, file, pos, filter, depth, stack, p) == []
  {
  }

  lemma {:induction false} TraceLinesStep(env: Env, file: File, pos: nat, filter: Str, depth: nat, stack: set<Str>, p: map<Str, Str>)
    requires pos <= |file.data| && Readable(file, pos) && depth <= MAX_IMPORT_DEPTH
    ensures TraceLines(env, file, pos, filter, depth, stack, p)
         == (var tr := TraceLine(env, LineAt(env, file.data, pos, filter), depth, stack, p);
             tr + TraceLines(env, file, LineEnd(file.data, pos), filter, depth, stack, Apply(p, tr)))
  {
  }

  lemma {:induction false} Regroup(all: seq<Event>, done: seq<Event>, tr: seq<Event>, rest: seq<Event>)
    requires all == done + (tr + rest)
    ensures all == done + tr + rest
  {
  }

  lemma {:induction false} WithinBudget(p: map<Str, Str>, n: nat, tr: seq<Event>, p': map<Str, Str>, n': nat)
    requires CarriedOut(p, n, tr, p', n', false)
    ensures p' == Apply(p, tr) && n' <= MAX_TOTAL_LOADS
  {
    CutAll(tr, MAX_TOTAL_LOADS - n);
  }

  // ---------------------------------------------------------------- what a trace leaves behind

  /** The last value a trace gives a key. */
  function LastValue(tr: seq<Event>, key: Str): Option<Str>
  {
    if tr == [] then None
    else
      var e := tr[|tr| - 1];
      if e.Assign? && e.key == key then Some(e.value) else LastValue(tr[..|tr| - 1], key)
  }

  /** The last assignment wins; keys never assigned keep what they had. */
  lemma {:induction false} LastWins(p: map<Str, Str>, tr: seq<Event>, key: Str)
    ensures var p', last := Apply(p, tr), LastValue(tr, key);
            if last.Some? then key in p' && p'[key] == last.value
            else (key in p' <==> key in p) && (key in p ==> p'[key] == p[key])
    decreases |tr|
  {
    if tr != [] {
      var front, e := tr[..|tr| - 1], tr[|tr| - 1];
      assert tr == front + [e];
      ApplyConcat(p, front, [e]);
      assert [e][1..] == [];
      LastWins(p, front, key);
    }
  }

  predicate Fair(e: Event)
  {
    e.Assign? ==> e.key != [] && !Disallowed(e.key)
  }

  lemma {:induction false} FairLine(buf: Str, truncated: bool, filter: Str, utf8: Str -> bool)
    ensures var l := Classify(buf, truncated, filter, utf8); l.Entry? ==> l.key != [] && !Disallowed(l.key)
  {
    hide Trim, TrimEnd, Disallowed, Selected;
  }

  /** No load, however deep its imports, ever sets an empty key or one of the disallowed ones. */
  lemma {:induction false} TraceIsFair(env: Env, filename: Str, filter: Str, depth: nat, stack: set<Str>, p: map<Str, Str>)
    ensures forall e :: e in TraceFile(env, filename, filter, depth, stack, p) ==> Fair(e)
    decreases Depths(depth), 2, 0
  {
    hide TraceLines, Fair;
    var path := Canonical(env, filename);
    assert Fair(Load(filename)) by { LoadIsFair(filename); }
    if depth <= MAX_IMPORT_DEPTH && path !in stack && path in env.files {
      LinesAreFair(env, env.files[path], 0, filter, depth, stack + {path}, p);
    }
  }

  lemma {:induction false} LoadIsFair(filename: Str)
    ensures Fair(Load(filename))
  {
  }

  lemma {:induction false} LinesAreFair(env: Env, file: File, pos: nat, filter: Str, depth: nat, stack: set<Str>, p: map<Str, Str>)
    requires pos <= |file.data| && depth <= MAX_IMPORT_DEPTH
    ensures forall e :: e in TraceLines(env, file, pos, filter, depth, stack, p) ==> Fair(e)
    decreases Depths(depth), 1, |file.data| - pos
  {
    hide TraceLines, TraceLine, Fair, LineEnd, Apply, LineAt, Terminated;
    if !Readable(file, pos) {
      TraceLinesEnd(env, file, pos, filter, depth, stack, p);
    } else {
      var line := LineAt(env, file.data, pos, filter);
      var tr := TraceLine(env, line, depth, stack, p);
      TraceLinesStep(env, file, pos, filter, depth, stack, p);
      LineIsFair(env, file.data, pos, filter, depth, stack, p);
      LinesAreFair(env, file, LineEnd(file.data, pos), filter, depth, stack, Apply(p, tr));
    }
  }

  lemma {:induction false} LineIsFair(env: Env, data: Str, pos: nat, filter: Str, depth: nat, stack: set<Str>, p: map<Str, Str>)
    requires pos < |data| && depth <= MAX_IMPORT_DEPTH
    ensures forall e :: e in TraceLine(env, LineAt(env, data, pos, filter), depth, stack, p) ==> Fair(e)
    decreases Depths(depth), 0, 0
  {
    hide TraceFile, Expand, Classify, LineEnd, AsRead, Disallowed;
    var read := AsRead(data[pos..LineEnd(data, pos)]);
    FairLine(read.buf, read.truncated, filter, env.utf8);
    var line := LineAt(env, data, pos, filter);
    if line.Import? {
      var path := Expand(line.raw, p);
      if path.Some? {
        TraceIsFair(env, path.value, [], depth + 1, stack, p);
      }
    }
  }
}
