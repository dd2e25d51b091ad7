/** The property store that the service writes (system_properties.rs), over one area.

    Names may be added once; afterwards a value changes only through an update, and the value of a name
    that starts with `ro.` never does. */
module SystemProperty {
  import opened Base
  import opened TrieBuilder
  import opened PropertySerial
  import opened PropertyShape
  import opened PropertyMap
  import opened PropertyMemory
  import opened PropertyAreas

  const RO_PREFIX: Str := Ascii("ro.")

  predicate ReadOnlyName(name: Str)
  {
    RO_PREFIX <= name
  }

  /** `validate_value_len`: no NUL, and short unless the name is read-only. */
  function ValidateValue(name: Str, value: Str): AreaResult<()>
  {
    if 0 in value then Err(AreaError.NulByte)
    else if |value| >= PROP_VALUE_MAX && !ReadOnlyName(name) then Err(TooLong)
    else Ok(())
  }

  /** `validate_short_value_len`. */
  function ValidateShortValue(value: Str): AreaResult<()>
  {
    if 0 in value then Err(AreaError.NulByte)
    else if |value| >= PROP_VALUE_MAX then Err(TooLong)
    else Ok(())
  }

  /** What the validators take, in bytes: a name is read-only if it begins with the three bytes `ro.`; a value
      without NULs is taken if it has at most 91 bytes or its name is read-only, and as an update only of a name
      that is not, and if it has at most 91 bytes. */
  lemma {:induction false} ValidatorsByBytes(name: Str, value: Str)
    ensures ReadOnlyName(name) <==> |name| >= 3 && name[0] == 0x72 && name[1] == 0x6F && name[2] == 0x2E
    ensures ValidateValue(name, value).Ok? <==>
              (forall i :: 0 <= i < |value| ==> value[i] != 0)
              && (|value| <= 91 || (|name| >= 3 && name[0] == 0x72 && name[1] == 0x6F && name[2] == 0x2E))
    ensures CanUpdate(name, value) <==>
              (forall i :: 0 <= i < |value| ==> value[i] != 0) && |value| <= 91
              && !(|name| >= 3 && name[0] == 0x72 && name[1] == 0x6F && name[2] == 0x2E)
  {
    RoBytes();
    if ReadOnlyName(name) {
      assert name[0] == RO_PREFIX[0] && name[1] == RO_PREFIX[1] && name[2] == RO_PREFIX[2];
    }
  }

  lemma {:induction false} RoBytes()
    ensures RO_PREFIX == [0x72, 0x6F, 0x2E]
  {
  }

  /** Only read-only names have long values. */
  predicate LongIsReadOnly(contents: map<Str, Str>)
  {
    forall n :: n in contents && |contents[n]| >= PROP_VALUE_MAX ==> ReadOnlyName(n)
  }

  /** What every call keeps: no name goes away, and no read-only value changes. */
  predicate Follows(a: map<Str, Str>, b: map<Str, Str>)
  {
    forall n :: n in a ==> n in b && (ReadOnlyName(n) ==> b[n] == a[n])
  }

  /** Indexes handed out stay valid and keep their names. */
  ghost predicate IndexesStay(a: Shape, b: Shape)
  {
    forall q :: IsIndex(a, q) ==> IsIndex(b, q) && b.infos[q].name == a.infos[q].name
  }

  /** When `add` succeeds. */
  ghost predicate CanAdd(sh: Shape, size: nat, name: Str, value: Str)
    requires 0 in sh.nodes
  {
    ValidateValue(name, value).Ok? && 0 !in name && [] !in Segments(name) && DATA + sh.used + Need(sh, name, value) <= size
  }

  /** In bytes: `add` takes exactly values without NULs, of up to 91 bytes unless the name begins with `ro.`, for names
      without NULs and empty segments that are there, or for which 128 bytes of header, what is used, the nodes of
      the missing segments, the entry and a long value fit the memory. */
  lemma {:induction false} AddInBytes(sh: Shape, size: nat, name: Str, value: Str, k: nat)
    requires WellFormed(sh) && 0 in sh.nodes && NodesThere(sh, Segments(name), k) && k <= |Segments(name)| && 128 + sh.used <= size
    ensures CanAdd(sh, size, name, value) <==>
              0 !in value && (|value| <= 91 || (|name| >= 3 && name[..3] == [0x72, 0x6F, 0x2E]))
              && 0 !in name && [] !in Segments(name)
              && (FindEntry(sh, name).Some?
                  || 128 + sh.used + SegmentBytes(Segments(name)[k..]) + (|name| + 100) / 4 * 4
                     + (if |value| <= 91 then 0 else (|value| + 4) / 4 * 4) <= size)
  {
    hide WellFormed, Locate, Segments, FindEntry, SegmentBytes, Cost, InfoExtent, ValidateValue;
    ValidatorsByBytes(name, value);
    assert 0 !in value <==> forall i :: 0 <= i < |value| ==> value[i] != 0;
    CostOfMissing(sh, 0, Segments(name), k);
    SizesInBytes(name, value);
  }

  predicate CanUpdate(name: Str, value: Str)
  {
    !ReadOnlyName(name) && ValidateShortValue(value).Ok?
  }

  /** What `add` returns: the value is checked first, then the name, then there must be room. */
  function AddResult(sh: Shape, size: nat, name: Str, value: Str): AreaResult<()>
    requires 0 in sh.nodes
  {
    if ValidateValue(name, value).Err? then Err(ValidateValue(name, value).error) else AddOutcome(sh, size, name, value)
  }

  function UpdateResult(name: Str, value: Str): AreaResult<()>
  {
    if ReadOnlyName(name) then Err(ReadOnly) else ValidateShortValue(value)
  }

  /** What `set` returns: a malformed name may be noticed by the search before the value is looked at. */
  function SetResult(sh: Shape, size: nat, contents: map<Str, Str>, name: Str, value: Str): AreaResult<()>
    requires 0 in sh.nodes
  {
    if name in contents then UpdateResult(name, value)
    else if [] in Segments(name) && MalformedError(sh, 0, Segments(name)) == BadName then Err(BadName)
    else AddResult(sh, size, name, value)
  }

  class SystemProperties {
    const area: PropertyArea
    /** The serial word of the separate serial area; any change of any property bumps it. */
    var globalSerial: nat

    ghost predicate Valid()
      reads this, area, area.mem
    {
      area.Valid() && LongIsReadOnly(area.contents)
    }

    constructor (size: nat)
      requires DATA + FIRST <= size <= U32_MAX
      ensures Valid() && fresh(area) && fresh(area.mem) && area.contents == map[]
    {
      hide WellFormed, Holds, Refines, Word;
      area := new PropertyArea(size);
      globalSerial := 0;
    }

    /** `fetch_add(1)` on a 32-bit word. */
    method BumpGlobalSerial()
      modifies this`globalSerial
      ensures globalSerial == (old(globalSerial) + 1) % 0x1_0000_0000
    {
      globalSerial := (globalSerial + 1) % 0x1_0000_0000;
    }

    /** The index of a property; absence is not an error. */
    method Find(name: Str) returns (r: AreaResult<Option<nat>>)
      requires Valid()
      ensures name in area.contents ==>
                r.Ok? && r.value.Some? && IsIndex(area.shape, r.value.value) && area.shape.infos[r.value.value].name == name
      ensures name !in area.contents && [] !in Segments(name) ==> r == Ok(None)
      ensures name !in area.contents && [] in Segments(name) ==>
                r == if MalformedError(area.shape, 0, Segments(name)) == NotFound then Ok(None) else Err(BadName)
    {
      hide Segments, IsIndex, WellFormed, Holds, Refines, Word;
      var found := area.Find(name);
      match found {
        case Ok(q) => return Ok(Some(q));
        case Err(e) => return if e == NotFound then Ok(None) else Err(e);
      }
    }

    /** Reading gives what the map holds. */
    method Get(name: Str) returns (r: AreaResult<Str>)
      requires Valid()
      ensures if name in area.contents then r == Ok(area.contents[name]) else Absent(r, name)
    {
      hide WellFormed, Holds, Refines, Word, ReadValue, PropertyMemory.Get, FindFrom;
      AreaReads(area.mem[..], area.shape, area.contents, name);
      var q :- area.Find(name);
      r := area.Read(q);
    }

    /** Adds a property; a property that exists keeps its value, and the call still succeeds. */
    method Add(name: Str, value: Str) returns (r: AreaResult<()>)
      requires Valid()
      modifies this, area, area.mem
      ensures Valid()
      ensures 0 in old(area.shape).nodes && (r.Ok? <==> CanAdd(old(area.shape), area.mem.Length, name, value))
      ensures r == AddResult(old(area.shape), area.mem.Length, name, value)
      ensures area.contents == if r.Ok? && name !in old(area.contents) then old(area.contents)[name := value]
                               else old(area.contents)
      ensures Follows(old(area.contents), area.contents) && IndexesStay(old(area.shape), area.shape)
      ensures globalSerial == if r.Ok? then (old(globalSerial) + 1) % 0x1_0000_0000 else old(globalSerial)
      ensures Continues(old(area.log), area.log, old(area.contents), area.contents) && NoUpdates(old(area.shape), area.shape)
    {
      hide WellFormed, Holds, Refines, Word, Segments, Need, Linearizes, Extends, Logged, Shows, Chain,
           AddOutcome, OnlyLink, Taken, Cost;
      ghost var c := area.contents;
      RootIsThere(area.shape);
      AreaShows(area.mem[..], area.shape, c);
      NothingLogged(area.log, c);
      LoggedLinearizes(area.log, area.log, c);
      ExtendsSelf(area.shape);
      IndexesStable(area.shape, area.shape);
      var _ :- ValidateValue(name, value);
      var done := area.Add(name, value);
      IndexesStable(old(area.shape), area.shape);
      if done.Err? {
        return done;
      }
      BumpGlobalSerial();
      return done;
    }

    /** Replaces the value of the property an index stands for, unless it is read-only. */
    method Update(q: nat, value: Str) returns (r: AreaResult<()>)
      requires Valid() && IsIndex(area.shape, q)
      modifies this, area, area.mem
      ensures Valid()
      ensures var name := old(area.shape).infos[q].name;
              (r.Ok? <==> CanUpdate(name, value)) && r == UpdateResult(name, value)
              && area.contents == if r.Ok? then old(area.contents)[name := value] else old(area.contents)
      ensures r.Err? ==> area.shape == old(area.shape)
      ensures r.Ok? ==> StoredUpdate(area.log, |old(area.log)|, old(area.mem[..]), q, old(area.shape).infos[q].value, value)
      ensures Follows(old(area.contents), area.contents) && IndexesStay(old(area.shape), area.shape)
      ensures globalSerial == if r.Ok? then (old(globalSerial) + 1) % 0x1_0000_0000 else old(globalSerial)
      ensures Continues(old(area.log), area.log, old(area.contents), area.contents)
    {
      hide WellFormed, Holds, Refines, Word, Segments, Linearizes, IsIndex, Logged, Shows, Chain, InfoName, ReadValue, ObjectAt, InfoIn,
           IsLong, StoredUpdate;
      ghost var c, sh := area.contents, area.shape;
      AreaShows(area.mem[..], sh, c);
      NothingLogged(area.log, c);
      LoggedLinearizes(area.log, area.log, c);
      IndexHeld(area.mem[..], sh, q, c);
      var name := InfoName(area.mem[..], q).value;
      if ReadOnlyName(name) {
        return Err(ReadOnly);
      }
      var _ :- ValidateShortValue(value);
      EntrySerial(area.mem[..], q, sh.infos[q]);
      if IsLong(Word(area.mem[..], DATA + q)) {
        assert false;
      }
      var backup := area.Read(q);
      var written := area.BackupAndApplyWrite(q, backup.value, value);
      UpdateKeepsIndexes(sh, q, value);
      BumpGlobalSerial();
      return Ok(());
    }

    /** Adds or updates. */
    method Set(name: Str, value: Str) returns (r: AreaResult<()>)
      requires Valid()
      modifies this, area, area.mem
      ensures Valid()
      ensures 0 in old(area.shape).nodes
              && (r.Ok? <==> if name in old(area.contents) then CanUpdate(name, value)
                               else CanAdd(old(area.shape), area.mem.Length, name, value))
      ensures r == SetResult(old(area.shape), area.mem.Length, old(area.contents), name, value)
      ensures area.contents == if r.Ok? then old(area.contents)[name := value] else old(area.contents)
      ensures Follows(old(area.contents), area.contents) && IndexesStay(old(area.shape), area.shape)
      ensures globalSerial == if r.Ok? then (old(globalSerial) + 1) % 0x1_0000_0000 else old(globalSerial)
      ensures Continues(old(area.log), area.log, old(area.contents), area.contents)
    {
      hide WellFormed, Holds, Refines, Word, Segments, Linearizes, IsIndex, Logged, Shows, Chain, Need, CanUpdate,
           Follows, IndexesStay, AddResult, MalformedError;
      ghost var c := area.contents;
      AreaShows(area.mem[..], area.shape, c);
      NothingLogged(area.log, c);
      LoggedLinearizes(area.log, area.log, c);
      RootIsThere(area.shape);
      NothingChanges(area.shape, c);
      var found := Find(name);
      if found.Err? {
        return Err(found.error);
      }
      match found.value {
        case Some(q) => r := Update(q, value);
        case None => r := Add(name, value);
      }
    }
  }

  lemma {:induction false} AreaReads(m: Str, sh: Shape, c: map<Str, Str>, name: Str)
    requires WellFormed(sh) && Holds(m, sh) && Refines(sh, c)
    ensures var q := FindFrom(m, 0, name);
            var r := if q.Err? then Err(q.error) else ReadValue(m, q.value);
            if name in c then r == Ok(c[name]) else Absent(r, name)
  {
    hide WellFormed, Holds, Refines, ReadValue, FindFrom;
    EntriesAreRead(m, sh);
    MemoryReads(m, sh, c);
    assert if name in c then PropertyMemory.Get(m, name) == Ok(c[name]) else Absent(PropertyMemory.Get(m, name), name);
  }

  lemma {:induction false} IndexesStable(a: Shape, b: Shape)
    requires WellFormed(a) && WellFormed(b) && Extends(a, b)
    ensures IndexesStay(a, b)
  {
    hide WellFormed, FindEntry;
    forall q | IsIndex(a, q) ensures IsIndex(b, q) && b.infos[q].name == a.infos[q].name {
      EntriesStay(a, b, q);
      IndexIsStable(a, b, a.infos[q].name);
    }
  }

  lemma {:induction false} EntriesStay(a: Shape, b: Shape, q: nat)
    requires Extends(a, b) && q in a.infos
    ensures q in b.infos && b.infos[q] == a.infos[q]
  {
    hide KeepsHits, NodeGrows;
  }

  lemma {:induction false} NothingChanges(sh: Shape, c: map<Str, Str>)
    ensures Follows(c, c) && IndexesStay(sh, sh)
  {
    hide FindEntry;
  }

  lemma {:induction false} UpdateKeepsIndexes(sh: Shape, q: nat, value: Str)
    requires WellFormed(sh) && q in sh.infos
    ensures IndexesStay(sh, WithValue(sh, q, value))
  {
    hide WellFormed, Locate, Segments;
    var sh' := WithValue(sh, q, value);
    forall a | IsIndex(sh, a) ensures IsIndex(sh', a) && sh'.infos[a].name == sh.infos[a].name {
      SameLocate(sh, sh', 0, Segments(sh.infos[a].name));
    }
  }

  // ---------------------------------------------------------------- whole runs

  /** A call on the store.  An update uses the `k`-th index that the run has found. */
  datatype Call =
    | AddCall(name: Str, value: Str)
    | SetCall(name: Str, value: Str)
    | FindCall(name: Str)
    | UpdateCall(k: nat, value: Str)

  /** A run in terms of the map: what the store holds, and the names of the indexes found so far. */
  datatype Ledger = Ledger(contents: map<Str, Str>, names: seq<Str>)

  /** What a call does to the map, given whether it succeeds. */
  function After(l: Ledger, call: Call, ok: bool): Ledger
  {
    if !ok then l
    else
      match call
      case AddCall(n, v) => if n in l.contents then l else l.(contents := l.contents[n := v])
      case SetCall(n, v) => l.(contents := l.contents[n := v])
      case FindCall(n) => l.(names := l.names + [n])
      case UpdateCall(k, v) => if k < |l.names| then l.(contents := l.contents[l.names[k] := v]) else l
  }

  predicate CanBeAdded(name: Str, value: Str)
  {
    ValidateValue(name, value).Ok? && 0 !in name && [] !in Segments(name)
  }

  /** The outcomes that a call can have: all of them are settled by the map, but whether there is room. */
  predicate Possible(l: Ledger, call: Call, ok: bool)
  {
    match call
    case AddCall(n, v) => ok ==> CanBeAdded(n, v)
    case SetCall(n, v) => if n in l.contents then ok <==> CanUpdate(n, v) else ok ==> CanBeAdded(n, v)
    case FindCall(n) => ok <==> n in l.contents
    case UpdateCall(k, v) => ok <==> k < |l.names| && CanUpdate(l.names[k], v)
  }

  function Fold(l: Ledger, calls: seq<Call>, outcomes: seq<bool>): Ledger
    requires |calls| == |outcomes|
    decreases |calls|
  {
    if calls == [] then l else Fold(After(l, calls[0], outcomes[0]), calls[1..], outcomes[1..])
  }

  predicate PossibleRun(l: Ledger, calls: seq<Call>, outcomes: seq<bool>)
    requires |calls| == |outcomes|
    decreases |calls|
  {
    calls == []
    || (Possible(l, calls[0], outcomes[0]) && PossibleRun(After(l, calls[0], outcomes[0]), calls[1..], outcomes[1..]))
  }

  /** Names of indexes are names of properties, and only read-only ones are long. */
  predicate Sound(l: Ledger)
  {
    (forall n :: n in l.names ==> n in l.contents) && LongIsReadOnly(l.contents)
  }

  lemma {:induction false} AfterFollows(l: Ledger, call: Call, ok: bool)
    requires Sound(l) && Possible(l, call, ok)
    ensures Sound(After(l, call, ok)) && Follows(l.contents, After(l, call, ok).contents)
    ensures l.names <= After(l, call, ok).names
  {
    hide Segments, ReadOnlyName;
  }

  lemma {:induction false} FollowsTrans(a: map<Str, Str>, b: map<Str, Str>, c: map<Str, Str>)
    requires Follows(a, b) && Follows(b, c)
    ensures Follows(a, c)
  {
    hide ReadOnlyName;
  }

  /** Over every run of calls, failing ones included: no name goes away, no `ro.` value changes, only `ro.`
      names are long, and every index found keeps the name it was found by. */
  lemma {:induction false} RunFollows(l: Ledger, calls: seq<Call>, outcomes: seq<bool>)
    requires |calls| == |outcomes| && Sound(l) && PossibleRun(l, calls, outcomes)
    ensures var end := Fold(l, calls, outcomes);
            Sound(end) && Follows(l.contents, end.contents) && l.names <= end.names
    decreases |calls|
  {
    hide Sound, Possible, After, Follows;
    if calls == [] {
      NothingFollows(l.contents);
    } else {
      var next := After(l, calls[0], outcomes[0]);
      AfterFollows(l, calls[0], outcomes[0]);
      RunFollows(next, calls[1..], outcomes[1..]);
      FollowsTrans(l.contents, next.contents, Fold(l, calls, outcomes).contents);
    }
  }

  lemma {:induction false} NothingFollows(c: map<Str, Str>)
    ensures Follows(c, c)
  {
  }

  ghost predicate IndexesNamed(sh: Shape, indexes: seq<nat>, names: seq<Str>)
  {
    |indexes| == |names| && forall k :: 0 <= k < |indexes| ==> IsIndex(sh, indexes[k]) && sh.infos[indexes[k]].name == names[k]
  }

  lemma {:induction false} StillNamed(a: Shape, b: Shape, indexes: seq<nat>, names: seq<Str>)
    requires IndexesNamed(a, indexes, names) && IndexesStay(a, b)
    ensures IndexesNamed(b, indexes, names)
  {
    hide IsIndex;
  }

  lemma {:induction false} IndexesStayTrans(a: Shape, b: Shape, c: Shape)
    requires IndexesStay(a, b) && IndexesStay(b, c)
    ensures IndexesStay(a, c)
  {
    hide IsIndex;
  }

  lemma {:induction false} AddablesOnly(sh: Shape, size: nat, name: Str, value: Str)
    requires 0 in sh.nodes && CanAdd(sh, size, name, value)
    ensures CanBeAdded(name, value)
  {
  }

  /** The memories that readers can see during a run, call by call. */
  ghost predicate RunLog(before: seq<Seen>, log: seq<Seen>, l: Ledger, calls: seq<Call>, outcomes: seq<bool>)
    requires |calls| == |outcomes|
    decreases |calls|
  {
    if calls == [] then log == before
    else
      exists middle :: Continues(before, middle, l.contents, After(l, calls[0], outcomes[0]).contents)
                       && RunLog(middle, log, After(l, calls[0], outcomes[0]), calls[1..], outcomes[1..])
  }

  lemma {:induction false} NothingContinues(m: Str, sh: Shape, log: seq<Seen>, c: map<Str, Str>)
    requires WellFormed(sh) && Holds(m, sh) && Refines(sh, c) && log != [] && log[|log| - 1] == Seen(m, sh, None)
    ensures Continues(log, log, c, c)
  {
    hide WellFormed, Holds, Refines, Shows, Linearizes, Chain, Logged;
    AreaShows(m, sh, c);
    NothingLogged(log, c);
    LoggedLinearizes(log, log, c);
  }

  /** One call of a run. */
  method Perform(store: SystemProperties, call: Call, indexes: seq<nat>, ghost names: seq<Str>)
    returns (ok: bool, indexes': seq<nat>)
    requires store.Valid() && IndexesNamed(store.area.shape, indexes, names)
    modifies store, store.area, store.area.mem
    ensures store.Valid() && IndexesStay(old(store.area.shape), store.area.shape)
    ensures var l := Ledger(old(store.area.contents), names);
            Possible(l, call, ok) && store.area.contents == After(l, call, ok).contents
            && IndexesNamed(store.area.shape, indexes', After(l, call, ok).names)
            && Continues(old(store.area.log), store.area.log, l.contents, After(l, call, ok).contents)
  {
    hide Continues, IsIndex, WellFormed, Holds, Refines, Word, Segments, IndexesStay, Need, CanUpdate, CanAdd, CanBeAdded, Linearizes,
         IndexesNamed, Follows, MalformedError, LongIsReadOnly;
    ghost var before := store.area.shape;
    RootIsThere(before);
    NothingChanges(before, store.area.contents);
    NothingContinues(store.area.mem[..], before, store.area.log, store.area.contents);
    indexes' := indexes;
    match call {
      case AddCall(n, v) =>
        var r := store.Add(n, v);
        ok := r.Ok?;
        if ok { AddablesOnly(before, store.area.mem.Length, n, v); }
        StillNamed(before, store.area.shape, indexes, names);
      case SetCall(n, v) =>
        ghost var was := n in store.area.contents;
        var r := store.Set(n, v);
        ok := r.Ok?;
        if ok && !was { AddablesOnly(before, store.area.mem.Length, n, v); }
        StillNamed(before, store.area.shape, indexes, names);
      case FindCall(n) =>
        var found := store.Find(n);
        ok := found.Ok? && found.value.Some?;
        if ok {
          OneMoreIndex(before, indexes, names, found.value.value, n);
          indexes' := indexes + [found.value.value];
        }
      case UpdateCall(k, v) =>
        ok := false;
        SameCount(before, indexes, names);
        if k < |indexes| {
          IndexOfName(before, indexes, names, k);
          var r := store.Update(indexes[k], v);
          ok := r.Ok?;
          StillNamed(before, store.area.shape, indexes, names);
        }
    }
  }

  lemma {:induction false} SameCount(sh: Shape, indexes: seq<nat>, names: seq<Str>)
    requires IndexesNamed(sh, indexes, names)
    ensures |indexes| == |names|
  {
  }

  lemma {:induction false} IndexOfName(sh: Shape, indexes: seq<nat>, names: seq<Str>, k: nat)
    requires IndexesNamed(sh, indexes, names) && k < |indexes|
    ensures IsIndex(sh, indexes[k]) && k < |names| && sh.infos[indexes[k]].name == names[k]
  {
    hide FindEntry;
  }

  lemma {:induction false} OneMoreIndex(sh: Shape, indexes: seq<nat>, names: seq<Str>, q: nat, n: Str)
    requires IndexesNamed(sh, indexes, names) && IsIndex(sh, q) && sh.infos[q].name == n
    ensures IndexesNamed(sh, indexes + [q], names + [n])
  {
    hide FindEntry;
  }

  /** Any run of calls on the store does to the map what its outcomes say, and nothing else. */
  method Replay(store: SystemProperties, calls: seq<Call>) returns (outcomes: seq<bool>)
    requires store.Valid()
    modifies store, store.area, store.area.mem
    ensures store.Valid() && |outcomes| == |calls|
    ensures var l := Ledger(old(store.area.contents), []);
            PossibleRun(l, calls, outcomes) && store.area.contents == Fold(l, calls, outcomes).contents
            && RunLog(old(store.area.log), store.area.log, l, calls, outcomes)
    ensures old(store.area.log) != [] && Shows(old(store.area.log)[|old(store.area.log)| - 1], old(store.area.contents))
    ensures Follows(old(store.area.contents), store.area.contents) && LongIsReadOnly(store.area.contents)
    ensures IndexesStay(old(store.area.shape), store.area.shape)
  {
    hide RunLog, Shows, PossibleRun, Fold, Follows, IndexesStay, IsIndex, WellFormed, Holds, Refines, Word;
    AreaShows(store.area.mem[..], store.area.shape, store.area.contents);
    outcomes := ReplayFrom(store, calls, [], []);
    RunFollows(Ledger(old(store.area.contents), []), calls, outcomes);
  }

  method ReplayFrom(store: SystemProperties, calls: seq<Call>, indexes: seq<nat>, ghost names: seq<Str>)
    returns (outcomes: seq<bool>)
    requires store.Valid() && IndexesNamed(store.area.shape, indexes, names)
    modifies store, store.area, store.area.mem
    ensures store.Valid() && |outcomes| == |calls|
    ensures var l := Ledger(old(store.area.contents), names);
            PossibleRun(l, calls, outcomes) && store.area.contents == Fold(l, calls, outcomes).contents
            && RunLog(old(store.area.log), store.area.log, l, calls, outcomes)
    ensures IndexesStay(old(store.area.shape), store.area.shape)
    decreases |calls|
  {
    hide Continues, After, Possible, IndexesStay, IndexesNamed, IsIndex, WellFormed, Holds, Refines, Word, LongIsReadOnly;
    if calls == [] {
      NothingChanges(store.area.shape, store.area.contents);
      return [];
    }
    ghost var l := Ledger(store.area.contents, names);
    var ok, indexes' := Perform(store, calls[0], indexes, names);
    ghost var middle, seen := store.area.shape, store.area.log;
    var rest := ReplayFrom(store, calls[1..], indexes', After(l, calls[0], ok).names);
    outcomes := [ok] + rest;
    IndexesStayTrans(old(store.area.shape), middle, store.area.shape);
    assert outcomes[1..] == rest;
    assert RunLog(seen, store.area.log, After(l, calls[0], ok), calls[1..], outcomes[1..]);
    assert After(l, calls[0], ok) == Ledger(After(l, calls[0], ok).contents, After(l, calls[0], ok).names);
  }
}
