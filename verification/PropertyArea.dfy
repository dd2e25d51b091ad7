/** The property area as an object (property_area.rs): a byte buffer, written one store at a time.

    `contents` is the map the area stands for and `log` every memory that a reader in another process can
    observe, in order.  Each operation says what becomes of both. */
module PropertyAreas {
  import opened Base
  import opened Order
  import opened TrieBuilder
  import opened PropertySerial
  import opened PropertyShape
  import opened PropertyMap
  import opened PropertyMemory

  const PROP_AREA_MAGIC: nat := 0x504f5250
  const PROP_AREA_VERSION: nat := 0xfc6ed0ab

  /** What growing an area keeps: objects stay where they are, entries stay as they are, and the only
      words of published nodes that change are links that were zero. */
  ghost predicate Grows(a: Shape, b: Shape)
  {
    (forall o :: o in a.nodes ==> o in b.nodes && NodeGrows(a.nodes[o], b.nodes[o]))
    && (forall q :: q in a.infos ==> q in b.infos && b.infos[q] == a.infos[q])
    && a.used <= b.used
  }

  predicate NodeGrows(n: NodeRec, n': NodeRec)
  {
    n'.path == n.path && n'.lo == n.lo && n'.hi == n.hi && forall l: Link :: GetLink(n, l) != 0 ==> GetLink(n', l) == GetLink(n, l)
  }

  lemma {:induction false} GrowsSelf(a: Shape)
    ensures Grows(a, a)
  {
  }

  lemma {:induction false} GrowsTrans(a: Shape, b: Shape, c: Shape)
    requires Grows(a, b) && Grows(b, c)
    ensures Grows(a, c)
  {
    forall o | o in a.nodes ensures o in c.nodes && NodeGrows(a.nodes[o], c.nodes[o]) {
      assert o in b.nodes && NodeGrows(a.nodes[o], b.nodes[o]) && NodeGrows(b.nodes[o], c.nodes[o]);
    }
  }

  /** A memory that readers can observe, the area that is in it, and the entry being rewritten, if any. */
  datatype Seen = Seen(mem: Str, shape: Shape, busy: Option<nat>)

  /** It holds an area in which every lookup answers as `contents` says. */
  ghost predicate Shows(seen: Seen, contents: map<Str, Str>)
  {
    WellFormed(seen.shape) && HoldsBut(seen.mem, seen.shape, seen.busy) && Refines(seen.shape, contents)
  }

  lemma {:induction false} ShowsReads(seen: Seen, contents: map<Str, Str>)
    requires Shows(seen, contents)
    ensures Reads(seen.mem, contents)
  {
    hide WellFormed, EntriesRead, Refines, HoldsBut;
    HoldsEntriesRead(seen.mem, seen.shape, seen.busy);
    MemoryReads(seen.mem, seen.shape, contents);
  }

  lemma {:induction false} AreaShows(m: Str, sh: Shape, contents: map<Str, Str>)
    requires WellFormed(sh) && Holds(m, sh) && Refines(sh, contents)
    ensures Shows(Seen(m, sh, None), contents)
  {
    hide WellFormed, Holds, HoldsBut, Refines;
    HoldsAll(m, sh);
  }

  /** What becomes of one entry: it keeps its name, a short value changes with its count of updates only, a
      long one never, and a rewriting once begun ends with the next update. */
  predicate EntryOnward(i: InfoRec, rewriting: bool, i': InfoRec, rewriting': bool)
  {
    i'.name == i.name && i.updates <= i'.updates && (!Stored(i) ==> i' == i)
    && (i'.updates == i.updates ==> i' == i && (rewriting ==> rewriting'))
  }

  /** What one memory keeps of an earlier one: nodes stay, with the links that they have, and so do entries. */
  ghost predicate Onward(s: Seen, t: Seen)
  {
    |s.mem| == |t.mem|
    && (forall o :: o in s.shape.nodes ==> o in t.shape.nodes && NodeGrows(s.shape.nodes[o], t.shape.nodes[o]))
    && forall q :: q in s.shape.infos ==>
                     q in t.shape.infos && EntryOnward(s.shape.infos[q], s.busy == Some(q), t.shape.infos[q], t.busy == Some(q))
  }

  lemma {:induction false} OnwardTrans(s: Seen, t: Seen, u: Seen)
    requires Onward(s, t) && Onward(t, u)
    ensures Onward(s, u)
  {
    forall o | o in s.shape.nodes ensures o in u.shape.nodes && NodeGrows(s.shape.nodes[o], u.shape.nodes[o]) {
      assert o in t.shape.nodes && NodeGrows(s.shape.nodes[o], t.shape.nodes[o]) && NodeGrows(t.shape.nodes[o], u.shape.nodes[o]);
    }
  }

  /** Nothing is being rewritten, and the area grows. */
  lemma {:induction false} GrowthIsOnward(s: Seen, t: Seen)
    requires s.busy == None && |s.mem| == |t.mem| && Grows(s.shape, t.shape)
    ensures Onward(s, t)
  {
    hide NodeGrows;
  }

  lemma {:induction false} SameIsOnward(s: Seen, t: Seen)
    requires s.shape == t.shape && s.busy == t.busy && |s.mem| == |t.mem|
    ensures Onward(s, t)
  {
  }

  /** The end of an update. */
  lemma {:induction false} UpdateIsOnward(s: Seen, t: Seen, q: nat, value: Str)
    requires q in s.shape.infos && Stored(s.shape.infos[q]) && s.busy == Some(q)
    requires t.shape == WithValue(s.shape, q, value) && |s.mem| == |t.mem|
    ensures Onward(s, t)
  {
  }

  /** Every memory logged from `from` on shows `contents`. */
  ghost predicate AllShow(log: seq<Seen>, from: nat, contents: map<Str, Str>)
  {
    forall i :: from <= i < |log| ==> Shows(log[i], contents)
  }

  /** From `from` on every memory keeps what the ones before have. */
  ghost predicate Chain(log: seq<Seen>, from: int)
  {
    forall i, j :: 0 <= from <= i <= j < |log| ==> Onward(log[i], log[j])
  }

  /** `log` continues `before`; every memory added keeps what the ones before have, and shows `contents`. */
  ghost predicate Logged(before: seq<Seen>, log: seq<Seen>, contents: map<Str, Str>)
  {
    before != [] && before <= log && AllShow(log, |before|, contents) && Chain(log, |before| - 1)
  }

  lemma {:induction false} LoggedTrans(a: seq<Seen>, b: seq<Seen>, c: seq<Seen>, contents: map<Str, Str>)
    requires Logged(a, b, contents) && Logged(b, c, contents)
    ensures Logged(a, c, contents)
  {
    hide Shows, Onward;
    forall i | |a| <= i < |c| ensures Shows(c[i], contents) {
      if i < |b| {
        assert c[i] == b[i];
      }
    }
    ChainTrans(b, c, |a| - 1);
  }

  lemma {:induction false} ChainTrans(b: seq<Seen>, c: seq<Seen>, from: nat)
    requires b != [] && b <= c && from < |b| && Chain(b, from) && Chain(c, |b| - 1)
    ensures Chain(c, from)
  {
    hide Onward;
    forall i, j | from <= i <= j < |c| ensures Onward(c[i], c[j]) {
      if j < |b| {
        assert c[i] == b[i] && c[j] == b[j];
      } else if i < |b| - 1 {
        var k := |b| - 1;
        assert c[i] == b[i] && c[k] == b[k];
        OnwardTrans(c[i], c[k], c[j]);
      }
    }
  }

  /** One more memory. */
  lemma {:induction false} LoggedOneMore(before: seq<Seen>, log: seq<Seen>, c: map<Str, Str>)
    requires before != [] && |log| == |before| + 1 && before <= log && Shows(log[|before|], c)
    requires Onward(before[|before| - 1], log[|before|])
    ensures Logged(before, log, c)
  {
    hide Shows, Onward;
    SameIsOnward(log[|before|], log[|before|]);
    SameIsOnward(log[|before| - 1], log[|before| - 1]);
  }

  /** More memories with the same area in them. */
  lemma {:induction false} LoggedMore(before: seq<Seen>, log: seq<Seen>, c: map<Str, Str>)
    requires before != [] && before <= log && AllShow(log, |before|, c) && AllSame(log, |before|, before[|before| - 1])
    ensures Logged(before, log, c)
  {
    hide Shows, Onward;
    assert log[|before| - 1] == before[|before| - 1];
    forall i, j | |before| - 1 <= i <= j < |log| ensures Onward(log[i], log[j]) {
      SameIsOnward(log[i], log[j]);
    }
  }

  ghost predicate AllSame(log: seq<Seen>, from: nat, s: Seen)
  {
    forall i :: from <= i < |log| ==> |log[i].mem| == |s.mem| && log[i].shape == s.shape && log[i].busy == s.busy
  }

  ghost predicate AllAgree(log: seq<Seen>, from: nat, m: Str, lo: nat, hi: nat, sh: Shape, busy: Option<nat>)
  {
    forall i :: from <= i < |log| ==> Agree(m, log[i].mem, lo, hi) && log[i].shape == sh && log[i].busy == busy
  }

  /** The memories logged from `from` on are those of a run of byte stores, from the lowest to the highest. */
  predicate StoredBytes(log: seq<Seen>, from: nat, m: Str, off: nat, bytes: Str)
  {
    off + |bytes| <= |m| && from + |bytes| <= |log|
    && forall k :: from <= k < from + |bytes| ==> log[k].mem == Poke(m, off, bytes[..k + 1 - from])
  }

  lemma {:induction false} PokeNothing(m: Str, off: nat, bytes: Str)
    requires off <= |m| && bytes == []
    ensures Poke(m, off, bytes) == m
  {
  }

  lemma {:induction false} PokeOneMore(m: Str, off: nat, bytes: Str, i: nat)
    requires off + |bytes| <= |m| && i < |bytes|
    ensures Poke(m, off, bytes[..i])[off + i := bytes[i]] == Poke(m, off, bytes[..i + 1])
  {
  }

  lemma {:induction false} PokeAgrees(m: Str, off: nat, bytes: Str, i: nat)
    requires off + |bytes| <= |m| && i <= |bytes|
    ensures Agree(m, Poke(m, off, bytes[..i]), off, off + |bytes|)
    ensures i == |bytes| ==> Sub(Poke(m, off, bytes[..i]), off, bytes)
  {
    hide Poke;
    if i == |bytes| {
      assert Poke(m, off, bytes[..i])[off..off + i] == bytes;
    }
  }

  lemma {:induction false} StoredBytesStay(log: seq<Seen>, log': seq<Seen>, from: nat, m: Str, off: nat, bytes: Str)
    requires StoredBytes(log, from, m, off, bytes) && log <= log'
    ensures StoredBytes(log', from, m, off, bytes)
  {
    hide Poke;
  }

  /** The memories logged from `from` on are those of a write: dirty serial, bytes, clean serial. */
  predicate StoredWrite(log: seq<Seen>, from: nat, m: Str, q: nat, value: Str)
  {
    DATA + q + INFO_HEADER <= |m| && |value| < PROP_VALUE_MAX && |log| == from + |value| + 3
    && var w := Word(m, DATA + q);
       var m1 := Poke(m, DATA + q, WordBytes(Dirty(w)));
       log[from].mem == m1 && StoredBytes(log, from + 1, m1, DATA + q + 4, value + [0])
       && log[|log| - 1].mem == Poke(Poke(m1, DATA + q + 4, value + [0]), DATA + q, WordBytes(NextSerial(w, |value|)))
  }

  /** And of a whole update: the backup first. */
  predicate StoredUpdate(log: seq<Seen>, from: nat, m: Str, q: nat, backup: Str, value: Str)
  {
    StoredBytes(log, from, m, DATA + BACKUP, backup + [0])
    && StoredWrite(log, from + |backup| + 1, Poke(m, DATA + BACKUP, backup + [0]), q, value)
  }

  /** Where a walk got once it gets again. */
  ghost predicate KeepsHits(a: Shape, b: Shape)
  {
    forall c: nat, parts: seq<Str> :: c in a.nodes && Locate(a, c, parts).Hit? ==>
      c in b.nodes && Locate(b, c, parts) == Locate(a, c, parts)
  }

  /** Growing an area loses nothing: every index handed out keeps naming the same property. */
  ghost predicate Extends(a: Shape, b: Shape)
  {
    Grows(a, b) && KeepsHits(a, b)
  }

  /** Memories that readers see while a call runs: all show what the map was before it, but for the last,
      which may show what it is after. */
  ghost predicate Linearizes(before: seq<Seen>, log: seq<Seen>, was: map<Str, Str>, now: map<Str, Str>)
  {
    before <= log
    && forall i :: |before| <= i < |log| ==> Shows(log[i], was) || (i == |log| - 1 && Shows(log[i], now))
  }

  // ---------------------------------------------------------------- what adding allocates and links

  /** The error of an allocation for which there is no room. */
  function RoomError(used: nat, size: nat): AreaError
  {
    if used + size > U32_MAX then FileSize else AreaFull
  }

  /** The error of the first of several allocations that finds no room in a memory of `size` bytes. */
  function FirstError(used: nat, sizes: seq<nat>, size: nat): Option<AreaError>
    decreases |sizes|
  {
    if sizes == [] then None
    else if DATA + used + sizes[0] > size then Some(RoomError(used, sizes[0]))
    else FirstError(used + sizes[0], sizes[1..], size)
  }

  function NodeSizes(parts: seq<Str>): seq<nat>
  {
    if parts == [] then [] else [NodeSize(parts[0])] + NodeSizes(parts[1..])
  }

  /** The sizes of the nodes that are missing on the way to `parts`, from the node at `cur` on. */
  function PathSizes(sh: Shape, cur: nat, parts: seq<Str>): seq<nat>
    requires cur in sh.nodes
    decreases |parts|
  {
    if parts == [] then []
    else
      match Level(sh, cur, parts[0])
      case Miss(_, _) => NodeSizes(parts)
      case Hit(o) => if o in sh.nodes then PathSizes(sh, o, parts[1..]) else []
  }

  function InfoSizes(name: Str, value: Str): seq<nat>
  {
    [InfoSize(name)] + if |value| < PROP_VALUE_MAX then [] else [Align4(|value| + 1)]
  }

  /** What `Add` returns. */
  function AddOutcome(sh: Shape, size: nat, name: Str, value: Str): AreaResult<()>
    requires 0 in sh.nodes
  {
    if 0 in name then Err(AreaError.NulByte)
    else if [] in Segments(name) then Err(BadName)
    else if FindEntry(sh, name).Some? then Ok(())
    else
      match FirstError(sh.used, PathSizes(sh, 0, Segments(name)) + InfoSizes(name, value), size)
      case None => Ok(())
      case Some(e) => Err(e)
  }

  /** The link at which `Add` joins what is new to what is there: where the walk for the name ends. */
  function Frontier(sh: Shape, parts: seq<Str>): (f: (nat, Link))
    requires 0 in sh.nodes
  {
    match Locate(sh, 0, parts)
    case Miss(p, l) => (p, l)
    case Hit(o) => (o, Prop)
  }

  /** Of the nodes of `a`, at most this link is another one in `b`. */
  ghost predicate OnlyLink(a: Shape, b: Shape, p: nat, l: Link)
  {
    (forall o :: o in a.nodes ==> o in b.nodes)
    && forall o, k: Link :: o in a.nodes && (o != p || k != l) ==> GetLink(b.nodes[o], k) == GetLink(a.nodes[o], k)
  }

  /** This link was empty, is taken in `b`, and is the only one that is another. */
  ghost predicate Taken(a: Shape, b: Shape, p: nat, l: Link)
  {
    OnlyLink(a, b, p, l) && p in a.nodes && p in b.nodes && GetLink(a.nodes[p], l) == 0 && GetLink(b.nodes[p], l) != 0
  }

  /** No entry is updated: what is new has had no update. */
  ghost predicate NoUpdates(a: Shape, b: Shape)
  {
    forall q :: q in b.infos ==> if q in a.infos then b.infos[q] == a.infos[q] else b.infos[q].updates == 0
  }

  /** The memories that readers can see while a call takes the map from `was` to `now`. */
  ghost predicate Continues(before: seq<Seen>, log: seq<Seen>, was: map<Str, Str>, now: map<Str, Str>)
  {
    before != [] && Shows(before[|before| - 1], was) && Linearizes(before, log, was, now) && Chain(log, |before| - 1)
  }

  class PropertyArea {
    const mem: array<byte>
    ghost var shape: Shape
    ghost var contents: map<Str, Str>
    ghost var log: seq<Seen>

    ghost predicate Valid()
      reads this, mem
    {
      DATA + FIRST <= mem.Length <= U32_MAX
      && Word(mem[..], 0) == shape.used
      && WellFormed(shape) && Holds(mem[..], shape) && Refines(shape, contents)
      && log != [] && log[|log| - 1] == Seen(mem[..], shape, None)
    }

    /** A fresh area: the header, and a root node in the zeros that follow it.  Readers open it from then on. */
    constructor (size: nat)
      requires DATA + FIRST <= size <= U32_MAX
      ensures Valid() && fresh(mem) && mem.Length == size && contents == map[] && shape.used == FIRST
      ensures Word(mem[..], 0) == 112 && Word(mem[..], 8) == 0x504F_5250 && Word(mem[..], 12) == 0xFC6E_D0AB
    {
      mem := new byte[size](_ => 0);
      shape := EmptyArea();
      contents := map[];
      log := [];
      new;
      hide WellFormed, Holds, Refines, Word;
      Init();
      EmptyAreaHeld(mem[..]);
      log := [Seen(mem[..], shape, None)];
    }

    /** `PropertyArea::init` on a file of zeros. */
    method Init()
      requires DATA + FIRST <= mem.Length && forall i :: 0 <= i < mem.Length ==> mem[i] == 0
      modifies mem, this`log
      ensures forall i :: DATA <= i < mem.Length ==> mem[..][i] == 0
      ensures Word(mem[..], 0) == FIRST && Word(mem[..], 8) == PROP_AREA_MAGIC && Word(mem[..], 12) == PROP_AREA_VERSION
    {
      hide Agree, Sub, Word, WordBytes, Align4, Poke, StoredBytes, AllAgree, EmptyArea, Zeros;
      ghost var m0 := mem[..];
      StoreWord(4, 0, EmptyArea());
      ghost var m1 := mem[..];
      StoreWord(8, PROP_AREA_MAGIC, EmptyArea());
      ghost var m2 := mem[..];
      StoreWord(12, PROP_AREA_VERSION, EmptyArea());
      ghost var m3 := mem[..];
      StoreBytes(16, Zeros(4 * 28), EmptyArea());
      ghost var m4 := mem[..];
      StoreWord(0, NODE_HEADER, EmptyArea());
      ghost var m5 := mem[..];
      Align4ClosedForm(PROP_VALUE_MAX);
      StoreWord(0, NODE_HEADER + Align4(PROP_VALUE_MAX), EmptyArea());
      HeaderWritten(m0, m1, m2, m3, m4, m5, mem[..]);
    }

    // -------------------------------------------------------------- find

    /** The search for one segment in a level, on any memory. */
    method FindPropTrieNode(trie: nat, name: Str) returns (r: AreaResult<nat>)
      ensures r == FindInLevel(mem[..], trie, name, MaxSteps(mem[..]) + 1)
    {
      hide CompareName, NodeName, LinkAt, ObjectAt, MaxSteps;
      var current: nat, visits: nat := trie, MaxSteps(mem[..]) + 1;
      while visits > 0
        invariant FindInLevel(mem[..], current, name, visits) == FindInLevel(mem[..], trie, name, MaxSteps(mem[..]) + 1)
      {
        if !ObjectAt(mem[..], current, NODE_HEADER) {
          return Err(Corrupt);
        }
        var nodeName :- NodeName(mem[..], current);
        if CompareName(name, nodeName) == Equal {
          return Ok(current);
        }
        var next := LinkAt(mem[..], current, Turn(name, nodeName));
        if next == 0 {
          return Err(NotFound);
        }
        current, visits := next, visits - 1;
      }
      return Err(Corrupt);
    }

    /** The lookup, on any memory; on an area it finds what the map holds, and the walk limit is not hit. */
    method Find(name: Str) returns (r: AreaResult<nat>)
      ensures r == FindFrom(mem[..], 0, name)
      ensures Valid() ==> if name in contents then r.Ok? && IsIndex(shape, r.value) && shape.infos[r.value].name == name
                                                   && shape.infos[r.value].value == contents[name]
                          else if [] in Segments(name) then r == Err(MalformedError(shape, 0, Segments(name))) else r == Err(NotFound)
    {
      hide FindInLevel, LinkAt, ObjectAt, MaxSteps, EntryAt, WellFormed, Holds, Refines, Word, IsIndex;
      var rest, current: nat := name, 0;
      while true
        invariant FindFrom(mem[..], current, rest) == FindFrom(mem[..], 0, name)
        decreases |rest|
      {
        var sep := IndexOf(rest, DOT);
        var sub := match sep case None => rest case Some(i) => rest[..i];
        if sub == [] {
          r := Err(BadName);
          break;
        }
        if !ObjectAt(mem[..], current, NODE_HEADER) {
          r := Err(Corrupt);
          break;
        }
        var children := LinkAt(mem[..], current, Children);
        if children == 0 {
          r := Err(NotFound);
          break;
        }
        var next := FindPropTrieNode(children, sub);
        if next.Err? {
          r := next;
          break;
        }
        current := next.value;
        if sep.None? {
          r := EntryAt(mem[..], current);
          break;
        }
        rest := rest[sep.value + 1..];
      }
      if Valid() {
        FindIndexes(mem[..], shape, contents, name);
      }
    }

    // -------------------------------------------------------------- values

    /** Copies the bytes of a short value up to its NUL (`read_value_atomic`). */
    method ShortValueBytes(q: nat) returns (s: Str)
      requires ObjectAt(mem[..], q, INFO_HEADER)
      ensures s == UpToNul(mem[..], DATA + q + 4, PROP_VALUE_MAX)
    {
      hide Aligned, UpToNul;
      s := [];
      var i := 0;
      while i < PROP_VALUE_MAX
        invariant 0 <= i <= PROP_VALUE_MAX && |s| == i
        invariant s + UpToNul(mem[..], DATA + q + 4 + i, PROP_VALUE_MAX - i) == UpToNul(mem[..], DATA + q + 4, PROP_VALUE_MAX)
      {
        var b := mem[DATA + q + 4 + i];
        UpToNulStep(mem[..], DATA + q + 4 + i, PROP_VALUE_MAX - i);
        if b == 0 {
          return;
        }
        assert (s + [b]) + UpToNul(mem[..], DATA + q + 4 + i + 1, PROP_VALUE_MAX - i - 1)
            == s + ([b] + UpToNul(mem[..], DATA + q + 4 + i + 1, PROP_VALUE_MAX - i - 1));
        s := s + [b];
        i := i + 1;
      }
      UpToNulEnd(mem[..], DATA + q + 4 + i);
    }

    /** One pass of the reader's loop (`read_with_callback`), on any memory; on an area, the value that the
        map holds for the property of the index. */
    method Read(q: nat) returns (r: AreaResult<Str>)
      ensures r == ReadValue(mem[..], q)
      ensures Valid() && IsIndex(shape, q) ==> shape.infos[q].name in contents && r == Ok(contents[shape.infos[q].name])
    {
      hide Aligned, UpToNul, LongValue, IsLong, IsDirty, WellFormed, Holds, Refines, IsIndex, Word;
      if Valid() && IsIndex(shape, q) {
        IndexHeld(mem[..], shape, q, contents);
      }
      if !ObjectAt(mem[..], q, INFO_HEADER) {
        return Err(Corrupt);
      }
      var serial := Word(mem[..], DATA + q);
      var long: AreaResult<Str> := Ok([]);
      if IsLong(serial) {
        long := LongValue(mem[..], q);
        if long.Err? {
          return long;
        }
      }
      if IsDirty(serial) {
        var len := Min(LengthOf(serial), PROP_VALUE_MAX - 1);
        if DATA + BACKUP + len > mem.Length {
          return Err(Corrupt);
        }
        r := Ok(mem[..][DATA + BACKUP..DATA + BACKUP + len]);
      } else if IsLong(serial) {
        r := long;
      } else {
        var s := ShortValueBytes(q);
        r := Ok(s);
      }
    }

    // -------------------------------------------------------------- stores

    /** An aligned 32-bit store; `next` is the area in the memory from then on, `busy` the
        entry that is then being rewritten. */
    method StoreWord(off: nat, w: nat, ghost next: Shape, ghost busy: Option<nat> := None)
      requires off + 4 <= mem.Length
      modifies mem, this`log
      ensures Agree(old(mem[..]), mem[..], off, off + 4) && Sub(mem[..], off, WordBytes(w))
      ensures mem[..] == Poke(old(mem[..]), off, WordBytes(w)) && log == old(log) + [Seen(mem[..], next, busy)]
    {
      var b := WordBytes(w);
      mem[off], mem[off + 1], mem[off + 2], mem[off + 3] := b[0], b[1], b[2], b[3];
      assert mem[..][off..off + 4] == b;
      log := log + [Seen(mem[..], next, busy)];
    }

    /** A run of byte stores. */
    method StoreBytes(off: nat, bytes: Str, ghost next: Shape, ghost busy: Option<nat> := None)
      requires off + |bytes| <= mem.Length
      modifies mem, this`log
      ensures Agree(old(mem[..]), mem[..], off, off + |bytes|) && Sub(mem[..], off, bytes)
      ensures old(log) <= log && AllAgree(log, |old(log)|, old(mem[..]), off, off + |bytes|, next, busy)
      ensures bytes != [] ==> |old(log)| < |log| && log[|log| - 1] == Seen(mem[..], next, busy)
      ensures mem[..] == Poke(old(mem[..]), off, bytes)
      ensures |log| == |old(log)| + |bytes| && StoredBytes(log, |old(log)|, old(mem[..]), off, bytes)
    {
      hide Poke;
      var i := 0;
      PokeNothing(mem[..], off, bytes[..0]);
      while i < |bytes|
        invariant 0 <= i <= |bytes| && mem[..] == Poke(old(mem[..]), off, bytes[..i])
        invariant old(log) <= log && |log| == |old(log)| + i && (i > 0 ==> log[|log| - 1] == Seen(mem[..], next, busy))
        invariant forall k :: |old(log)| <= k < |log| ==>
                    log[k] == Seen(Poke(old(mem[..]), off, bytes[..k + 1 - |old(log)|]), next, busy)
      {
        PokeOneMore(old(mem[..]), off, bytes, i);
        mem[off + i] := bytes[i];
        log := log + [Seen(mem[..], next, busy)];
        i := i + 1;
      }
      assert bytes[..i] == bytes;
      forall k | |old(log)| <= k < |log| ensures Agree(old(mem[..]), log[k].mem, off, off + |bytes|) {
        PokeAgrees(old(mem[..]), off, bytes, k + 1 - |old(log)|);
      }
      PokeAgrees(old(mem[..]), off, bytes, |bytes|);
    }

    /** A word store that no reader can see. */
    method StoreHiddenWord(off: nat, w: nat)
      requires Valid() && DATA <= off && off + 4 <= mem.Length && Unpublished(shape, off, off + 4)
      modifies mem, this`log
      ensures Valid()
      ensures Agree(old(mem[..]), mem[..], off, off + 4) && Sub(mem[..], off, WordBytes(w))
      ensures Logged(old(log), log, contents)
    {
      hide WellFormed, Holds, Refines, Agree, Unpublished, Word, Sub, Shows, Onward, Grows, Logged;
      StoreWord(off, w, shape);
      HoldsAgrees(old(mem[..]), mem[..], off, off + 4, shape);
      AreaShows(mem[..], shape, contents);
      SameLength(old(mem[..]), mem[..], off, off + 4);
      SameIsOnward(old(log)[|old(log)| - 1], log[|old(log)|]);
      LoggedOneMore(old(log), log, contents);
      WordAgrees(old(mem[..]), mem[..], off, off + 4, 0);
    }

    /** Byte stores that no reader can see. */
    method StoreHidden(off: nat, bytes: Str)
      requires Valid() && DATA <= off && off + |bytes| <= mem.Length && Unpublished(shape, off, off + |bytes|) && bytes != []
      modifies mem, this`log
      ensures Valid()
      ensures Agree(old(mem[..]), mem[..], off, off + |bytes|) && Sub(mem[..], off, bytes)
      ensures Logged(old(log), log, contents) && mem[..] == Poke(old(mem[..]), off, bytes)
      ensures |log| == |old(log)| + |bytes| && StoredBytes(log, |old(log)|, old(mem[..]), off, bytes)
    {
      hide WellFormed, Holds, Refines, Agree, Unpublished, Word, Sub, Shows, Logged, StoredBytes, Poke;
      StoreBytes(off, bytes, shape);
      HoldsAgrees(old(mem[..]), mem[..], off, off + |bytes|, shape);
      WordAgrees(old(mem[..]), mem[..], off, off + |bytes|, 0);
      forall i | |old(log)| <= i < |log| ensures Shows(log[i], contents) && |log[i].mem| == mem.Length {
        SameLength(old(mem[..]), log[i].mem, off, off + |bytes|);
        HoldsAgrees(old(mem[..]), log[i].mem, off, off + |bytes|, shape);
        AreaShows(log[i].mem, shape, contents);
      }
      LoggedMore(old(log), log, contents);
    }

    // -------------------------------------------------------------- allocation

    /** Takes room at the high-water mark; fails, and takes none, when there is not enough. */
    method AllocateObj(size: nat) returns (r: AreaResult<nat>)
      requires Valid()
      modifies mem, this`log, this`shape
      ensures Valid()
      ensures r.Ok? <==> DATA + old(shape.used) + Align4(size) <= mem.Length
      ensures r.Ok? ==> r.value == old(shape.used) && shape == WithUsed(old(shape), r.value + Align4(size)) && Fresh(shape, r.value)
      ensures r.Err? ==> r.error == RoomError(old(shape.used), Align4(size)) && shape == old(shape) && mem[..] == old(mem[..])
      ensures Logged(old(log), log, contents)
    {
      hide WellFormed, Holds, Refines, Agree, Shows, Unpublished, Sub, Align4, Fresh, Word, Grows, Onward, Logged;
      NothingLogged(log, contents);
      var aligned, offset := Align4(size), Word(mem[..], 0);
      if offset + aligned > U32_MAX {
        return Err(FileSize);
      }
      var newOffset := offset + aligned;
      if newOffset > mem.Length - DATA {
        return Err(AreaFull);
      }
      StoreWord(0, newOffset, WithUsed(shape, newOffset));
      UsedStays(old(mem[..]), mem[..], shape, contents, newOffset);
      UsedGrows(shape, newOffset);
      GrowthIsOnward(old(log)[|old(log)| - 1], log[|old(log)|]);
      shape := WithUsed(shape, newOffset);
      LoggedOneMore(old(log), log, contents);
      return Ok(offset);
    }

    // -------------------------------------------------------------- nodes

    /** Allocates and writes a node that nothing links to yet. */
    method NewPropTrieNode(name: Str) returns (r: AreaResult<nat>)
      requires Valid() && 0 !in name
      modifies mem, this`log, this`shape
      ensures Valid()
      ensures r.Ok? <==> DATA + old(shape.used) + NodeSize(name) <= mem.Length
      ensures r.Ok? ==> r.value == old(shape.used) && shape == WithUsed(old(shape), r.value + NodeSize(name))
                          && Fresh(shape, r.value) && NodeIn(mem[..], r.value, Unlinked([name], None, None))
      ensures r.Err? ==> r.error == RoomError(old(shape.used), NodeSize(name)) && shape == old(shape) && mem[..] == old(mem[..])
      ensures Logged(old(log), log, contents)
    {
      hide WellFormed, Holds, Refines, Agree, Logged, Unpublished, Sub, Align4, Fresh, Word, NodeIn, WordBytes, StoredBytes, Poke;
      var o :- AllocateObj(NODE_HEADER + |name| + 1);
      var at := DATA + o;
      SizeFits(name);
      forall lo: nat, hi: nat | at <= lo <= hi ensures Unpublished(shape, lo, hi) {
        FreshIsUnpublished(shape, o, lo, hi);
      }
      UsedIsBig(old(shape));
      ghost var l0 := log;
      StoreHiddenWord(at + 4, 0);
      ghost var m1, l1 := mem[..], log;
      LoggedTrans(old(log), l0, l1, contents);
      StoreHiddenWord(at + 8, 0);
      ghost var m2, l2 := mem[..], log;
      LoggedTrans(old(log), l1, l2, contents);
      StoreHiddenWord(at + 12, 0);
      ghost var m3, l3 := mem[..], log;
      LoggedTrans(old(log), l2, l3, contents);
      StoreHiddenWord(at + 16, 0);
      ghost var m4, l4 := mem[..], log;
      LoggedTrans(old(log), l3, l4, contents);
      StoreHiddenWord(at, |name|);
      ghost var m5, l5 := mem[..], log;
      LoggedTrans(old(log), l4, l5, contents);
      StoreHidden(at + NODE_HEADER, name + [0]);
      LoggedTrans(old(log), l5, log, contents);
      NodeWritten(o, name, m1, m2, m3, m4, m5, mem[..]);
      return Ok(o);
    }

    /** The store that links an unlinked node into the trie. */
    method StoreLink(p: nat, link: Link, o: nat, ghost n: NodeRec)
      requires Valid() && CanLink(shape, p, link, o, n) && NodeIn(mem[..], o, n)
      modifies mem, this`log, this`shape
      ensures Valid() && p in old(shape).nodes && shape == WithNode(old(shape), p, link, o, n)
      ensures Logged(old(log), log, contents)
    {
      hide WellFormed, Holds, Refines, Agree, Sub, Word, NodeIn, WordBytes, CanLink, Shows, Grows, Onward, Logged;
      CanLinkFacts(shape, p, link, o, n);
      LinkInBounds(mem[..], shape, p, link, o, n);
      StoreWord(DATA + p + LinkOffset(link), o, WithNode(shape, p, link, o, n));
      LinkHolds(old(mem[..]), mem[..], shape, p, link, o, n);
      LinkKeepsWellFormed(shape, p, link, o, n);
      LinkRefines(shape, p, link, o, n, contents);
      WordAgrees(old(mem[..]), mem[..], DATA + p + LinkOffset(link), DATA + p + LinkOffset(link) + 4, 0);
      LinkGrows(shape, p, link, o, n);
      shape := WithNode(shape, p, link, o, n);
      AreaShows(mem[..], shape, contents);
      GrowthIsOnward(old(log)[|old(log)| - 1], log[|old(log)|]);
      LoggedOneMore(old(log), log, contents);
    }

    /** Finds or makes the node for `name` in the level that starts at `trie`. */
    method AddPropTrieNode(trie: nat, name: Str, ghost cur: nat) returns (r: AreaResult<nat>)
      requires Valid() && CleanName(name)
      requires cur in shape.nodes && shape.nodes[cur].children == trie && trie != 0
      modifies mem, this`log, this`shape
      ensures Valid()
      ensures r.Ok? <==> old(Level(shape, cur, name)).Hit? || DATA + old(shape.used) + NodeSize(name) <= mem.Length
      ensures r.Ok? ==> Ensured(old(shape), shape, cur, name, r.value)
      ensures r.Err? ==> r.error == RoomError(old(shape.used), NodeSize(name)) && shape == old(shape) && mem[..] == old(mem[..])
      ensures Logged(old(log), log, contents)
    {
      hide WellFormed, Holds, Refines, Agree, Logged, Sub, Word, NodeIn, CanLink, CleanName, CompareName, Between,
           Search, Extends, Fresh, Aligned, Ensured, ObjectAt, NodeName, LinkAt, Unlinked;
      var current := trie;
      CleanFacts(name);
      NothingLogged(log, contents);
      ChildrenLinked(shape, cur);
      StartsBetween(shape, trie, name);
      StepsSuffice(mem[..], trie);
      var visits := MaxSteps(mem[..]) + 1;
      while visits > 0
        invariant Valid() && mem[..] == old(mem[..]) && shape == old(shape) && log == old(log)
        invariant current in shape.nodes && current != 0
        invariant Search(shape, trie, name) == Search(shape, current, name)
        invariant Between(shape.nodes[current].lo, name, shape.nodes[current].hi)
        invariant Parent(shape.nodes[current].path) == shape.nodes[cur].path
        invariant NODE_HEADER * visits > mem.Length - DATA - current
        decreases visits
      {
        assert NodesIn(mem[..], shape) by { AreaNodes(mem[..], shape); }
        NodeReads(mem[..], shape, current);
        SearchStep(shape, current, name);
        NodeInside(mem[..], shape, current);
        var nodeName := NodeName(mem[..], current).value;
        CompareNameTotalOrder(name, nodeName, name);
        if CompareName(name, nodeName) == Equal {
          HitEnsures(shape, cur, name, current);
          return Ok(current);
        }
        var turn := Turn(name, nodeName);
        var child := LinkAt(mem[..], current, turn);
        if child == 0 {
          var o :- NewPropTrieNode(name);
          ghost var n := LeafFor(old(shape), current, turn, name);
          TurnBelongs(old(shape), cur, current, name);
          LeafLinks(old(shape), shape, cur, current, turn, o, name);
          NodeBytesSame(mem[..], o, name, n);
          ghost var l0 := log;
          StoreLink(current, turn, o, n);
          LoggedTrans(old(log), l0, log, contents);
          return Ok(o);
        }
        SiblingLinked(shape, current, turn);
        TurnBetween(shape, current, name);
        ObjectsApart(shape, current, child);
        current, visits := child, visits - 1;
      }
      OutOfVisits(mem[..], shape, current);
      assert false;
    }

    /** Finds or makes the node for one segment below the node at `cur`. */
    method EnsureSegment(cur: nat, name: Str) returns (r: AreaResult<nat>)
      requires Valid() && CleanName(name) && cur in shape.nodes
      modifies mem, this`log, this`shape
      ensures Valid()
      ensures r.Ok? <==> old(Level(shape, cur, name)).Hit? || DATA + old(shape.used) + NodeSize(name) <= mem.Length
      ensures r.Ok? ==> Ensured(old(shape), shape, cur, name, r.value)
      ensures r.Err? ==> r.error == RoomError(old(shape.used), NodeSize(name)) && shape == old(shape)
      ensures Logged(old(log), log, contents)
    {
      hide WellFormed, Holds, Refines, Agree, Logged, Sub, Word, NodeIn, CanLink, CleanName, Search, Ensured, ObjectAt, LinkAt,
           Unlinked, Fresh, Aligned;
      CleanFacts(name);
      assert NodesIn(mem[..], shape) by { AreaNodes(mem[..], shape); }
      NodeReads(mem[..], shape, cur);
      ChildrenLinked(shape, cur);
      var rootOffset := LinkAt(mem[..], cur, Children);
      if rootOffset == 0 {
        rootOffset :- NewPropTrieNode(name);
        ghost var n, before, l0 := LeafFor(old(shape), cur, Children, name), shape, log;
        LeafLinks(old(shape), shape, cur, cur, Children, rootOffset, name);
        NodeBytesSame(mem[..], rootOffset, name, n);
        CanLinkFacts(shape, cur, Children, rootOffset, n);
        StoreLink(cur, Children, rootOffset, n);
        LoggedTrans(old(log), l0, log, contents);
        EnsuredRoot(old(shape), before, shape, cur, rootOffset, n, name);
      }
      ghost var middle, l1 := shape, log;
      NothingLogged(log, contents);
      r := AddPropTrieNode(rootOffset, name, cur);
      LoggedTrans(old(log), l1, log, contents);
      if middle != old(shape) {
        EnsuredTwice(old(shape), middle, shape, cur, name, r.value, rootOffset);
      }
    }

    // -------------------------------------------------------------- entries

    /** Allocates and writes an entry that no node points to yet. */
    method NewPropInfo(name: Str, value: Str) returns (r: AreaResult<nat>)
      requires Valid() && 0 !in name && 0 !in value
      modifies mem, this`log, this`shape
      ensures Valid()
      ensures r.Ok? <==> DATA + old(shape.used) + InfoExtent(name, value) <= mem.Length
      ensures shape == WithUsed(old(shape), shape.used) && old(shape.used) <= shape.used && Aligned(shape.used)
      ensures r.Ok? ==> r.value == old(shape.used) && shape.used == r.value + InfoExtent(name, value) && Fresh(shape, r.value)
      ensures r.Ok? ==> InfoIn(mem[..], r.value, InfoRec(name, value, 0))
      ensures FirstError(old(shape.used), InfoSizes(name, value), mem.Length) == if r.Ok? then None else Some(r.error)
      ensures Logged(old(log), log, contents)
    {
      hide WellFormed, Holds, Refines, Agree, Logged, Unpublished, Sub, Align4, Fresh, Word, InfoIn, WordBytes, Aligned, StoredBytes, Poke,
           FirstError, InfoSizes;
      UsedIsAligned(shape);
      InfoFits(name, value);
      InfoError(shape.used, name, value, mem.Length);
      var o :- AllocateObj(INFO_HEADER + |name| + 1);
      UsedIsAligned(shape);
      UsedIsBig(old(shape));
      ghost var l0 := log;
      if |value| >= PROP_VALUE_MAX {
        var long := LongPart(o, name, value);
        LoggedTrans(old(log), l0, log, contents);
        return if long.Err? then long else Ok(o);
      }
      forall lo: nat, hi: nat | DATA + o <= lo <= hi ensures Unpublished(shape, lo, hi) {
        FreshIsUnpublished(shape, o, lo, hi);
      }
      StoreHiddenWord(DATA + o, InitialSerial(|value|));
      ghost var m1, l1 := mem[..], log;
      LoggedTrans(old(log), l0, l1, contents);
      StoreHidden(DATA + o + 4, value + [0]);
      ghost var m2, l2 := mem[..], log;
      LoggedTrans(old(log), l1, l2, contents);
      StoreHidden(DATA + o + INFO_HEADER, name + [0]);
      LoggedTrans(old(log), l2, log, contents);
      ShortWritten(o, name, value, m1, m2, mem[..]);
      return Ok(o);
    }

    /** The out-of-line half of `NewPropInfo`, once the entry at `o` is allocated. */
    method LongPart(o: nat, name: Str, value: Str) returns (r: AreaResult<nat>)
      requires Valid() && 0 !in name && 0 !in value && |value| >= PROP_VALUE_MAX
      requires FIRST <= o && o + InfoSize(name) == shape.used && Fresh(shape, o)
      modifies mem, this`log, this`shape
      ensures Valid()
      ensures r.Ok? <==> DATA + old(shape.used) + Align4(|value| + 1) <= mem.Length
      ensures shape == WithUsed(old(shape), shape.used) && old(shape.used) <= shape.used && Aligned(shape.used)
      ensures r.Ok? ==> shape.used == o + InfoExtent(name, value) && Fresh(shape, o)
      ensures r.Ok? ==> InfoIn(mem[..], o, InfoRec(name, value, 0))
      ensures r.Err? ==> r.error == RoomError(old(shape.used), Align4(|value| + 1))
      ensures Logged(old(log), log, contents)
    {
      hide WellFormed, Holds, Refines, Agree, Logged, Unpublished, Sub, Align4, Fresh, Word, InfoIn, WordBytes, Aligned, StoredBytes, Poke;
      UsedIsAligned(shape);
      InfoFits(name, value);
      var long :- AllocateObj(|value| + 1);
      UsedIsAligned(shape);
      FreshStays(old(shape), shape.used, o);
      FreshIsUnpublished(shape, o, DATA + long, DATA + long + |value| + 1);
      ghost var l0 := log;
      StoreHidden(DATA + long, value + [0]);
      ghost var l1 := log;
      LoggedTrans(old(log), l0, l1, contents);
      LongHeader(o, name, value, long - o);
      LoggedTrans(old(log), l1, log, contents);
      return Ok(long);
    }

    /** The entry itself, once its out-of-line value is written. */
    method LongHeader(o: nat, name: Str, value: Str, relative: nat)
      requires Valid() && 0 !in name && 0 !in value && |value| >= PROP_VALUE_MAX && relative == InfoSize(name)
      requires FIRST <= o && o + InfoExtent(name, value) <= shape.used && Fresh(shape, o)
      requires Sub(mem[..], DATA + o + relative, value + [0])
      modifies mem, this`log
      ensures Valid() && InfoIn(mem[..], o, InfoRec(name, value, 0)) && Logged(old(log), log, contents)
    {
      hide WellFormed, Refines, Agree, Logged, Unpublished, Sub, Align4, Fresh, Word, InfoIn, InfosIn, NodeIn, WordBytes, Aligned,
           StoredBytes, Poke;
      InfoFits(name, value);
      LegacyErrorLength();
      forall lo: nat, hi: nat | DATA + o <= lo <= hi ensures Unpublished(shape, lo, hi) {
        FreshIsUnpublished(shape, o, lo, hi);
      }
      ghost var m1 := mem[..];
      StoreHiddenWord(DATA + o, LONG_SERIAL);
      ghost var m2, l2 := mem[..], log;
      StoreHidden(DATA + o + 4, LONG_LEGACY_ERROR + Zeros(6));
      ghost var m3, l3 := mem[..], log;
      LoggedTrans(old(log), l2, l3, contents);
      StoreHiddenWord(DATA + o + LONG_OFFSET, relative);
      ghost var m4, l4 := mem[..], log;
      LoggedTrans(old(log), l3, l4, contents);
      StoreHidden(DATA + o + INFO_HEADER, name + [0]);
      LoggedTrans(old(log), l4, log, contents);
      LongWritten(o, name, value, m1, m2, m3, m4, mem[..]);
    }

    /** The one store of `Add` that changes what any lookup answers. */
    method StoreProp(p: nat, q: nat, ghost i: InfoRec)
      requires Valid() && CanPublish(shape, p, q, i) && InfoIn(mem[..], q, i)
      modifies mem, this`log, this`shape, this`contents
      ensures Valid() && p in old(shape).nodes && shape == WithEntry(old(shape), p, q, i)
      ensures i.name !in old(contents) && contents == old(contents)[i.name := i.value]
      ensures log == old(log) + [Seen(mem[..], shape, None)] && Shows(log[|old(log)|], contents)
    {
      hide WellFormed, Holds, Refines, Agree, Sub, Word, InfoIn, WordBytes, CanPublish, Shows;
      PublishFacts(shape, p, q, i);
      PropInBounds(mem[..], shape, p, q, i);
      StoreWord(DATA + p + LinkOffset(Prop), q, WithEntry(shape, p, q, i));
      PublishHolds(old(mem[..]), mem[..], shape, p, q, i);
      PublishKeepsWellFormed(shape, p, q, i);
      PublishRefines(shape, p, q, i, contents);
      WordAgrees(old(mem[..]), mem[..], DATA + p + LinkOffset(Prop), DATA + p + LinkOffset(Prop) + 4, 0);
      shape := WithEntry(shape, p, q, i);
      contents := contents[i.name := i.value];
      AreaShows(mem[..], shape, contents);
    }

    // -------------------------------------------------------------- add

    /** The walk of `Add`: finds or makes the nodes for all segments of a name, or runs out of room. */
    method EnsurePath(name: Str) returns (r: AreaResult<nat>)
      requires Valid() && 0 !in name && [] !in Segments(name)
      modifies mem, this`log, this`shape
      ensures Valid() && Logged(old(log), log, contents) && Extends(old(shape), shape)
      ensures 0 in old(shape).nodes && 0 in shape.nodes
      ensures r.Ok? ==> r.value in shape.nodes && Locate(shape, 0, Segments(name)) == Hit(r.value)
                          && shape.used == old(shape).used + Cost(old(shape), 0, Segments(name))
      ensures r.Err? ==> Cost(old(shape), 0, Segments(name)) > 0
                          && DATA + old(shape).used + Cost(old(shape), 0, Segments(name)) > mem.Length
      ensures FirstError(old(shape).used, PathSizes(old(shape), 0, Segments(name)), mem.Length)
           == if r.Ok? then None else Some(r.error)
      ensures shape.infos == old(shape).infos
      ensures if r.Ok? then Progress(old(shape), shape, Segments(name), Segments(name), r.value)
              else OnlyLink(old(shape), shape, Frontier(old(shape), Segments(name)).0, Frontier(old(shape), Segments(name)).1)
    {
      hide WellFormed, Holds, Refines, Logged, Extends, Ensured, Cost, Locate, Segments, NodeIn, Word, CleanName, Aligned,
           PathSizes, FirstError, Progress, OnlyLink, NodeSize;
      ExtendsSelf(shape);
      NothingLogged(log, contents);
      ghost var a := shape;
      RootIsThere(shape);
      var rest, current := name, 0;
      ghost var walked: seq<Str> := [];
      assert walked + Segments(rest) == Segments(name);
      assert Locate(shape, 0, walked) == Hit(current) by { NothingLeft(shape, 0); }
      NoProgress(shape, Segments(name));
      while true
        invariant Valid() && Logged(old(log), log, contents) && Extends(a, shape)
        invariant 0 in shape.nodes && current in shape.nodes && walked + Segments(rest) == Segments(name) && 0 !in rest
        invariant Locate(shape, 0, walked) == Hit(current)
        invariant shape.used + Cost(shape, current, Segments(rest)) == a.used + Cost(a, 0, Segments(name))
        invariant FirstError(shape.used, PathSizes(shape, current, Segments(rest)), mem.Length)
               == FirstError(a.used, PathSizes(a, 0, Segments(name)), mem.Length)
        invariant shape.infos == a.infos && Progress(a, shape, Segments(name), walked, current)
        decreases |rest|
      {
        var sep := IndexOf(rest, DOT);
        var sub := match sep case None => rest case Some(i) => rest[..i];
        FirstSegment(rest);
        SegmentIsClean(name, walked, rest, sub);
        ghost var b, l0, from := shape, log, current;
        ghost var more := Segments(rest)[1..];
        var next := EnsureSegment(current, sub);
        LoggedTrans(old(log), l0, log, contents);
        if next.Err? {
          NoRoomForSegment(b, from, Segments(rest), mem.Length);
          RoomOnlyShrinks(a, b);
          NoRoomError(b, from, Segments(rest), mem.Length);
          ProgressLinks(a, b, Segments(name), walked, from);
          return next;
        }
        current := next.value;
        SegmentStep(b, shape, from, sub, current, walked, more);
        SegmentSizes(b, shape, from, sub, current, more, mem.Length);
        ProgressStep(a, b, shape, Segments(name), walked, from, sub, current, more);
        ExtendsTrans(a, b, shape);
        walked := walked + [sub];
        assert walked + more == Segments(name);
        if sep.None? {
          NothingCosts(shape, current);
          assert more == [] && walked == Segments(name);
          assert PathSizes(shape, current, []) == [] && FirstError(shape.used, [], mem.Length) == None by {
            NothingToAllocate(shape, current, mem.Length);
          }
          return Ok(current);
        }
        rest := rest[sep.value + 1..];
      }
    }

    /** Adds a property unless it is there: the first value wins.  It succeeds exactly on legal names for
        which there is room; a failed call, which may have used up room, changes no lookup. */
    method Add(name: Str, value: Str) returns (r: AreaResult<()>)
      requires Valid() && 0 !in value
      modifies mem, this`log, this`shape, this`contents
      ensures Valid()
      ensures r.Ok? <==> 0 !in name && [] !in Segments(name)
                           && DATA + old(shape.used) + Need(old(shape), name, value) <= mem.Length
      ensures contents == if r.Ok? && name !in old(contents) then old(contents)[name := value] else old(contents)
      ensures 0 in old(shape).nodes && r == AddOutcome(old(shape), mem.Length, name, value)
      ensures var f := Frontier(old(shape), Segments(name));
              if r.Ok? && name !in old(contents) then Taken(old(shape), shape, f.0, f.1) else OnlyLink(old(shape), shape, f.0, f.1)
      ensures shape.infos == if r.Ok? && name !in old(contents)
                             then old(shape).infos[old(shape).used + Cost(old(shape), 0, Segments(name)) := InfoRec(name, value, 0)]
                             else old(shape).infos
      ensures Extends(old(shape), shape)
      ensures Continues(old(log), log, old(contents), contents) && NoUpdates(old(shape), shape)
    {
      hide WellFormed, Holds, Refines, Logged, Linearizes, Extends, Cost, Need, Locate, Segments, NodeIn, Word,
           InfoIn, Fresh, Aligned, ObjectAt, LinkAt, FindEntry, CanPublish, Shows, Chain, InfoExtent, PathSizes,
           FirstError, InfoSizes, Progress, Taken, OnlyLink;
      ExtendsSelf(shape);
      AreaShows(mem[..], shape, contents);
      NothingLogged(log, contents);
      LoggedLinearizes(log, log, contents);
      RootIsThere(shape);
      NothingTaken(shape, Segments(name));
      if 0 in name {
        return Err(AreaError.NulByte);
      }
      if [] in Segments(name) {
        return Err(BadName);
      }
      ghost var a, c := shape, contents;
      var node := EnsurePath(name);
      LoggedLinearizes(old(log), log, c);
      if node.Err? {
        NeedIsCost(a, name, value);
        OutcomeOfWalk(a, name, value, mem.Length);
        return Err(node.error);
      }
      var current := node.value;
      EndOfWalk(a, shape, current, name, value, c);
      assert NodesIn(mem[..], shape) by { AreaNodes(mem[..], shape); }
      NodeReads(mem[..], shape, current);
      OutcomeOfEntry(a, shape, name, value, mem.Length, c);
      ProgressLinks(a, shape, Segments(name), Segments(name), current);
      if LinkAt(mem[..], current, Prop) != 0 {
        return Ok(());
      }
      ghost var b, l0 := shape, log;
      var q := NewPropInfo(name, value);
      LoggedTrans(old(log), l0, log, c);
      LoggedLinearizes(old(log), log, c);
      RoomExtends(b, shape);
      ExtendsTrans(a, b, shape);
      SameNodesLinks(a, b, shape, Frontier(a, Segments(name)));
      if q.Err? {
        return Err(q.error);
      }
      ghost var i, b', l1 := InfoRec(name, value, 0), shape, log;
      ReadyToPublish(b, shape, current, q.value, i);
      UsedIsBig(b);
      StoreProp(current, q.value, i);
      PublishExtends(b', shape, current, q.value, i);
      ProgressTakes(a, b, shape, Segments(name), current, q.value, i);
      OneEntryMore(b', current, q.value, i);
      ExtendsTrans(a, b', shape);
      LastLinearizes(old(log), l1, log, c, contents);
      PublishIsOnward(l1[|l1| - 1], log[|l1|]);
      LastChained(old(log), l1, log, c);
      return Ok(());
    }

    // -------------------------------------------------------------- update

    /** Copies the entry's current value to the area's backup slot. */
    method SetDirtyBackupArea(value: Str) returns (r: AreaResult<()>)
      requires Valid()
      modifies mem, this`log
      ensures Valid()
      ensures r.Ok? <==> |value| + 1 <= PROP_VALUE_MAX
      ensures r.Ok? ==> Sub(mem[..], DATA + BACKUP, value + [0]) && Agree(old(mem[..]), mem[..], DATA + BACKUP, DATA + FIRST)
      ensures r.Err? ==> r.error == TooLong && mem[..] == old(mem[..])
      ensures r.Ok? ==> mem[..] == Poke(old(mem[..]), DATA + BACKUP, value + [0]) && |log| == |old(log)| + |value| + 1
                        && StoredBytes(log, |old(log)|, old(mem[..]), DATA + BACKUP, value + [0])
      ensures Logged(old(log), log, contents)
    {
      hide WellFormed, Holds, Refines, Agree, Logged, Sub, Word, StoredBytes, Poke;
      NothingLogged(log, contents);
      if |value| + 1 > PROP_VALUE_MAX {
        return Err(TooLong);
      }
      BackupIsUnpublished(shape, DATA + BACKUP + |value| + 1);
      StoreHidden(DATA + BACKUP, value + [0]);
      AgreeWiden(old(mem[..]), mem[..], DATA + BACKUP, DATA + BACKUP + |value| + 1, DATA + BACKUP, DATA + FIRST);
      return Ok(());
    }

    /** The entry's side of an update: dirty serial, value bytes, clean serial.  Readers see the old value
        until the last store and the new one from then on. */
    method ApplyWrite(q: nat, value: Str) returns (r: AreaResult<nat>)
      requires Valid() && IsIndex(shape, q) && 0 !in value
      requires Stored(shape.infos[q]) ==> BackedUp(mem[..], shape, q)
      modifies mem, this`log, this`shape, this`contents
      ensures Valid()
      ensures r.Ok? <==> Stored(old(shape).infos[q]) && |value| < PROP_VALUE_MAX
      ensures r.Ok? ==> shape == WithValue(old(shape), q, value) && contents == old(contents)[old(shape).infos[q].name := value]
      ensures r.Ok? ==> r.value == ShortSerial(|value|, old(shape).infos[q].updates + 1)
      ensures r.Err? ==> (r.error == if Stored(old(shape).infos[q]) then TooLong else LongEntry)
                          && shape == old(shape) && contents == old(contents) && mem[..] == old(mem[..])
      ensures r.Ok? ==> StoredWrite(log, |old(log)|, old(mem[..]), q, value)
      ensures Linearizes(old(log), log, old(contents), contents) && Chain(log, |old(log)| - 1)
    {
      hide WellFormed, Holds, Refines, Agree, Logged, Linearizes, Sub, Word, WordBytes, ShortSerial, NextSerial, Dirty,
           InfoIn, FindEntry, IsLong, Aligned, EntriesRead, HoldsBut, Onward, Chain, StoredBytes, Poke, StoredWrite;
      ghost var c, i, m := contents, shape.infos[q], mem[..];
      NothingLogged(log, c);
      LoggedLinearizes(log, log, c);
      InfoReads(m, shape, q);
      EntrySerial(m, q, i);
      var current := Word(mem[..], DATA + q);
      if IsLong(current) {
        return Err(LongEntry);
      }
      if |value| >= PROP_VALUE_MAX {
        return Err(TooLong);
      }
      var dirtySerial, newSerial := Dirty(current), NextSerial(current, |value|);
      InfoRange(shape, q);
      StoreWord(DATA + q, dirtySerial, shape, Some(q));
      ghost var m1, l1 := mem[..], log;
      AgreeWiden(m, m1, DATA + q, DATA + q + 4, DATA + q, DATA + q + INFO_HEADER);
      DirtyReads(m, m1, shape, q);
      GrowsSelf(shape);
      GrowthIsOnward(old(log)[|old(log)| - 1], l1[|old(log)|]);
      LoggedOneMore(old(log), l1, c);
      StoreBytes(DATA + q + 4, value + [0], shape, Some(q));
      ghost var m2, l2 := mem[..], log;
      DirtyBytes(m, m1, l2, |l1|, shape, q, |value| + 1, c);
      LoggedMore(l1, l2, c);
      LoggedTrans(old(log), l1, l2, c);
      AgreeWiden(m1, m2, DATA + q + 4, DATA + q + 4 + |value| + 1, DATA + q, DATA + q + INFO_HEADER);
      AgreeTrans(m, m1, m2, DATA + q, DATA + q + INFO_HEADER);
      StoreWord(DATA + q, newSerial, WithValue(shape, q, value));
      UpdateHolds(m, m2, mem[..], shape, q, value);
      UpdateKeepsWellFormed(shape, q, value);
      UpdateRefines(shape, q, value, c);
      AgreeWiden(m2, mem[..], DATA + q, DATA + q + 4, DATA + q, DATA + q + INFO_HEADER);
      AgreeTrans(m, m2, mem[..], DATA + q, DATA + q + INFO_HEADER);
      WordAgrees(m, mem[..], DATA + q, DATA + q + INFO_HEADER, 0);
      NextIsOneMoreUpdate(|i.value|, i.updates, |value|);
      shape := WithValue(shape, q, value);
      contents := contents[i.name := value];
      AreaShows(mem[..], shape, contents);
      LastLinearizes(old(log), l2, log, c, contents);
      UpdateIsOnward(l2[|l2| - 1], log[|l2|], q, value);
      LastChained(old(log), l2, log, c);
      WriteStored(old(log), l1, l2, log, m, m1, m2, q, value);
      return Ok(newSerial);
    }

    /** Backup and write, fused. */
    method BackupAndApplyWrite(q: nat, backup: Str, value: Str) returns (r: AreaResult<()>)
      requires Valid() && IsIndex(shape, q)
      requires Stored(shape.infos[q]) && backup == shape.infos[q].value && 0 !in value
      modifies mem, this`log, this`shape, this`contents
      ensures Valid()
      ensures r.Ok? <==> |value| < PROP_VALUE_MAX
      ensures r.Ok? ==> shape == WithValue(old(shape), q, value) && contents == old(contents)[old(shape).infos[q].name := value]
      ensures r.Err? ==> r.error == TooLong && shape == old(shape) && contents == old(contents)
      ensures r.Ok? ==> StoredUpdate(log, |old(log)|, old(mem[..]), q, backup, value)
      ensures Linearizes(old(log), log, old(contents), contents) && Chain(log, |old(log)| - 1)
    {
      hide WellFormed, Holds, Refines, Agree, Logged, Linearizes, Sub, FindEntry, StoredBytes, Poke, StoredWrite;
      // The current value is short, so its backup always fits.
      var backedUp := SetDirtyBackupArea(backup);
      ghost var l1 := log;
      var serial := ApplyWrite(q, value);
      LinearizesAfter(old(log), l1, log, old(contents), contents);
      StoredBytesStay(l1, log, |old(log)|, old(mem[..]), DATA + BACKUP, backup + [0]);
      return if serial.Err? then Err(serial.error) else Ok(());
    }
  }

  /** Raising the high-water mark is invisible. */
  lemma {:induction false} UsedStays(m: Str, m': Str, sh: Shape, contents: map<Str, Str>, used: nat)
    requires WellFormed(sh) && Holds(m, sh) && Refines(sh, contents)
    requires Agree(m, m', 0, 4) && Sub(m', 0, WordBytes(used))
    requires sh.used <= used && DATA + used <= |m| <= U32_MAX && exists size :: used == sh.used + Align4(size)
    ensures var sh' := WithUsed(sh, used);
            WellFormed(sh') && Holds(m', sh') && Refines(sh', contents) && Word(m', 0) == used && Fresh(sh', sh.used)
            && Shows(Seen(m', sh', None), contents)
  {
    hide WellFormed, NodeIn, InfoIn, Refines, Agree, Sub, Align4, Fresh, HoldsBut;
    var sh' := WithUsed(sh, used);
    SubOfWord(m', 0, used);
    assert Unpublished(sh, 0, 4);
    HoldsAgrees(m, m', 0, 4, sh);
    assert Aligned(used) by { UsedAligned(sh, used); }
    RoomKeepsWellFormed(sh, used);
    RoomRefines(sh, used, contents);
    SameLength(m, m', 0, 4);
    AreaShows(m', sh', contents);
  }

  lemma {:induction false} UsedGrows(sh: Shape, used: nat)
    requires sh.used <= used
    ensures Grows(sh, WithUsed(sh, used))
  {
  }

  lemma {:induction false} LinkGrows(sh: Shape, p: nat, link: Link, o: nat, n: NodeRec)
    requires CanLink(sh, p, link, o, n)
    ensures p in sh.nodes && Grows(sh, WithNode(sh, p, link, o, n))
  {
    hide CanLink, WellFormed, NodeGrows;
    CanLinkFacts(sh, p, link, o, n);
    LinkSet(sh.nodes[p], link, o);
    assert forall a :: a in sh.nodes && a != p ==> NodeGrows(sh.nodes[a], sh.nodes[a]) by { NodesGrowSelf(); }
  }

  lemma {:induction false} LinkSet(n: NodeRec, link: Link, o: nat)
    requires GetLink(n, link) == 0
    ensures NodeGrows(n, SetLink(n, link, o))
  {
  }

  lemma {:induction false} NodesGrowSelf()
    ensures forall n :: NodeGrows(n, n)
  {
  }

  lemma {:induction false} UsedAligned(sh: Shape, used: nat)
    requires WellFormed(sh) && exists size :: used == sh.used + Align4(size)
    ensures Aligned(used)
  {
    hide Packed, WellLinked;
    var size :| used == sh.used + Align4(size);
    AlignedSum(sh.used, Align4(size));
  }

  // ---------------------------------------------------------------- what a new node needs and gives

  lemma {:induction false} SizeFits(name: Str)
    ensures NODE_HEADER + |name| + 1 <= NodeSize(name)
  {
  }

  lemma {:induction false} UsedIsBig(sh: Shape)
    requires WellFormed(sh)
    ensures FIRST <= sh.used
  {
  }

  lemma {:induction false} FreshIsUnpublished(sh: Shape, o: nat, lo: nat, hi: nat)
    requires Fresh(sh, o) && DATA + o <= lo
    ensures Unpublished(sh, lo, hi)
  {
    hide EndOf;
  }

  lemma {:induction false} AreaNodes(m: Str, sh: Shape)
    requires Holds(m, sh)
    ensures NodesIn(m, sh)
  {
  }

  lemma {:induction false} NodeInside(m: Str, sh: Shape, o: nat)
    requires NodesIn(m, sh) && o in sh.nodes
    ensures DATA + o + NODE_HEADER <= |m|
  {
    hide Word, Sub;
    assert NodeIn(m, o, sh.nodes[o]);
  }

  lemma {:induction false} LinkInBounds(m: Str, sh: Shape, p: nat, link: Link, o: nat, n: NodeRec)
    requires Holds(m, sh) && CanLink(sh, p, link, o, n)
    ensures DATA + p + LinkOffset(link) + 4 <= |m| && DATA + o <= |m|
  {
    hide Word, Sub, NodeIn, WellFormed;
    NodeInside(m, sh, p);
  }

  lemma {:induction false} StartsBetween(sh: Shape, trie: nat, name: Str)
    requires trie in sh.nodes && sh.nodes[trie].lo == None && sh.nodes[trie].hi == None
    ensures Between(sh.nodes[trie].lo, name, sh.nodes[trie].hi)
  {
  }

  lemma {:induction false} TurnBetween(sh: Shape, o: nat, name: Str)
    requires o in sh.nodes && CompareName(name, NameOf(sh.nodes[o])) != Equal && Between(sh.nodes[o].lo, name, sh.nodes[o].hi)
    ensures var n, l := sh.nodes[o], Turn(name, NameOf(sh.nodes[o]));
            Between(if l == Left then n.lo else Some(NameOf(n)), name, if l == Left then Some(NameOf(n)) else n.hi)
  {
    hide CompareName;
    CompareNameTotalOrder(name, NameOf(sh.nodes[o]), name);
  }

  /** `name` has the node at `o` below `cur` in `b`, and if it had none in `a`, that node is new and `b`
      is larger by it. */
  ghost predicate Ensured(a: Shape, b: Shape, cur: nat, name: Str, o: nat)
  {
    cur in a.nodes && cur in b.nodes && o in b.nodes && o != 0 && Level(b, cur, name) == Hit(o)
    && Extends(a, b) && b.infos == a.infos
    && if Level(a, cur, name).Hit? then b == a
       else b.used == a.used + NodeSize(name) && b.nodes[o].children == 0 && o !in a.nodes
            && Taken(a, b, Level(a, cur, name).at, Level(a, cur, name).link)
  }

  lemma {:induction false} HitEnsures(sh: Shape, cur: nat, name: Str, o: nat)
    requires WellFormed(sh) && cur in sh.nodes && o in sh.nodes && o != 0 && Level(sh, cur, name) == Hit(o)
    ensures Ensured(sh, sh, cur, name, o)
  {
    hide WellFormed, Level, Locate;
  }

  /** The record of a new leaf for `name` at an empty link. */
  function LeafFor(sh: Shape, p: nat, link: Link, name: Str): NodeRec
    requires p in sh.nodes
  {
    var r := sh.nodes[p];
    match link
    case Left => Unlinked(Parent(r.path) + [name], r.lo, Some(NameOf(r)))
    case Right => Unlinked(Parent(r.path) + [name], Some(NameOf(r)), r.hi)
    case _ => Unlinked(r.path + [name], None, None)
  }

  /** What the search has established where it stops: the key belongs at this link. */
  predicate BelongsAt(sh: Shape, cur: nat, p: nat, link: Link, name: Str)
    requires cur in sh.nodes && p in sh.nodes
  {
    var r := sh.nodes[p];
    match link
    case Prop => false
    case Left => p != 0 && Parent(r.path) == sh.nodes[cur].path && Between(r.lo, name, Some(NameOf(r)))
    case Right => p != 0 && Parent(r.path) == sh.nodes[cur].path && Between(Some(NameOf(r)), name, r.hi)
    case Children => p == cur
  }

  lemma {:induction false} LeafCanLink(a: Shape, b: Shape, cur: nat, p: nat, link: Link, o: nat, name: Str)
    requires WellFormed(a) && WellFormed(b) && cur in a.nodes && p in a.nodes && CleanName(name)
    requires GetLink(a.nodes[p], link) == 0 && BelongsAt(a, cur, p, link, name)
    requires o == a.used && b == WithUsed(a, o + NodeSize(name)) && Fresh(b, o)
    ensures CanLink(b, p, link, o, LeafFor(a, p, link, name))
    ensures var n := LeafFor(a, p, link, name); NameOf(n) == name && n == Unlinked(n.path, n.lo, n.hi)
  {
    hide Packed, WellLinked, Fresh, Aligned, Align4, CompareName;
    var n := LeafFor(a, p, link, name);
    assert NameOf(n) == name;
    PathIsClean(a, cur);
    PathIsClean(a, p);
    assert Parent(n.path) == if link == Children then a.nodes[p].path else Parent(a.nodes[p].path);
    assert Between(n.lo, name, n.hi);
  }

  /** The new leaf is found at once, and nothing found before is lost. */
  lemma {:induction false} LeafEnsures(a: Shape, b: Shape, cur: nat, p: nat, link: Link, o: nat, name: Str)
    requires WellFormed(a) && cur in a.nodes && p in a.nodes && Level(a, cur, name) == Miss(p, link)
    requires o == a.used && b == WithUsed(a, o + NodeSize(name)) && Aligned(b.used)
    requires CanLink(b, p, link, o, LeafFor(a, p, link, name)) && NameOf(LeafFor(a, p, link, name)) == name
    ensures Ensured(a, WithNode(b, p, link, o, LeafFor(a, p, link, name)), cur, name, o)
  {
    hide WellFormed, CanLink, Level, Locate, Align4, CompareName, Search, Aligned, LeafFor, Taken;
    var n := LeafFor(a, p, link, name);
    var c := WithNode(b, p, link, o, n);
    CanLinkFacts(b, p, link, o, n);
    RoomKeepsLevel(a, b.used, cur, name);
    LevelGrown(b, p, link, o, n, cur, name);
    CompareNameTotalOrder(name, name, name);
    forall x: nat, parts: seq<Str> | x in a.nodes && Locate(a, x, parts).Hit?
      ensures x in c.nodes && Locate(c, x, parts) == Locate(a, x, parts)
    {
      RoomKeepsLocate(a, b.used, x, parts);
      LocateGrown(b, p, link, o, n, x, parts);
    }
    assert n.children == 0;
    assert p != o;
    LeafTakes(a, b, p, link, o, n);
  }

  lemma {:induction false} LeafTakes(a: Shape, b: Shape, p: nat, link: Link, o: nat, n: NodeRec)
    requires p in a.nodes && b.nodes == a.nodes && o !in a.nodes && o != 0 && GetLink(a.nodes[p], link) == 0
    ensures Taken(a, WithNode(b, p, link, o, n), p, link)
  {
  }

  lemma {:induction false} LeafLinks(a: Shape, b: Shape, cur: nat, p: nat, link: Link, o: nat, name: Str)
    requires WellFormed(a) && WellFormed(b) && cur in a.nodes && p in a.nodes && CleanName(name)
    requires Level(a, cur, name) == Miss(p, link) && GetLink(a.nodes[p], link) == 0 && BelongsAt(a, cur, p, link, name)
    requires o == a.used && b == WithUsed(a, o + NodeSize(name)) && Fresh(b, o)
    ensures CanLink(b, p, link, o, LeafFor(a, p, link, name))
    ensures var n := LeafFor(a, p, link, name); NameOf(n) == name && n == Unlinked(n.path, n.lo, n.hi)
    ensures Ensured(a, WithNode(b, p, link, o, LeafFor(a, p, link, name)), cur, name, o)
  {
    hide Packed, WellLinked, CanLink, Level, Fresh, Aligned, Align4, Ensured, LeafFor, BelongsAt;
    LeafCanLink(a, b, cur, p, link, o, name);
    LeafEnsures(a, b, cur, p, link, o, name);
  }

  lemma {:induction false} TurnBelongs(sh: Shape, cur: nat, o: nat, name: Str)
    requires cur in sh.nodes && o in sh.nodes && o != 0 && Parent(sh.nodes[o].path) == sh.nodes[cur].path
    requires CompareName(name, NameOf(sh.nodes[o])) != Equal && Between(sh.nodes[o].lo, name, sh.nodes[o].hi)
    ensures BelongsAt(sh, cur, o, Turn(name, NameOf(sh.nodes[o])), name)
  {
    hide Between, CompareName;
    TurnBetween(sh, o, name);
  }

  lemma {:induction false} CleanFacts(name: Str)
    requires CleanName(name)
    ensures 0 !in name && name != []
  {
  }

  lemma {:induction false} NothingLogged(log: seq<Seen>, contents: map<Str, Str>)
    requires log != []
    ensures Logged(log, log, contents)
  {
    hide Shows, Onward;
    SameIsOnward(log[|log| - 1], log[|log| - 1]);
  }

  lemma {:induction false} OutOfVisits(m: Str, sh: Shape, o: nat)
    requires Holds(m, sh) && o in sh.nodes
    ensures DATA + o + NODE_HEADER <= |m|
  {
    hide NodeIn, InfoIn;
    NodeInside(m, sh, o);
  }

  lemma {:induction false} UsedIsAligned(sh: Shape)
    requires WellFormed(sh)
    ensures Aligned(sh.used)
  {
  }

  lemma {:induction false} InfoFits(name: Str, value: Str)
    ensures INFO_HEADER + |name| + 1 <= InfoSize(name) && |value| + 1 <= Align4(|value| + 1)
    ensures |value| < PROP_VALUE_MAX ==> InfoExtent(name, value) == InfoSize(name)
    ensures |value| >= PROP_VALUE_MAX ==> InfoExtent(name, value) == InfoSize(name) + Align4(|value| + 1)
  {
    hide Align4;
  }

  lemma {:induction false} FreshStays(sh: Shape, used: nat, o: nat)
    requires Fresh(sh, o)
    ensures Fresh(WithUsed(sh, used), o)
  {
    hide NodeSize, InfoExtent;
    var sh' := WithUsed(sh, used);
    forall a: nat | IsObject(sh', a) ensures EndOf(sh', a) <= o {
      assert IsObject(sh, a) && EndOf(sh', a) == EndOf(sh, a);
    }
  }

  lemma {:induction false} PropInBounds(m: Str, sh: Shape, p: nat, q: nat, i: InfoRec)
    requires Holds(m, sh) && CanPublish(sh, p, q, i)
    ensures p in sh.nodes && DATA + p + NODE_HEADER <= |m| && DATA + q <= |m|
  {
    hide Word, Sub, NodeIn, WellFormed, Locate, Segments, Align4;
    NodeInside(m, sh, p);
  }

  /** Ensuring what is there already changes nothing more. */
  lemma {:induction false} EnsuredTwice(a: Shape, b: Shape, c: Shape, cur: nat, name: Str, o: nat, o': nat)
    requires Ensured(a, b, cur, name, o') && Ensured(b, c, cur, name, o)
    ensures c == b && o == o' && Ensured(a, c, cur, name, o)
  {
    hide Level, Extends;
  }

  lemma {:induction false} EnsuredRoot(a: Shape, b: Shape, c: Shape, cur: nat, o: nat, n: NodeRec, name: Str)
    requires cur in b.nodes && c == WithNode(b, cur, Children, o, n) && Ensured(a, c, cur, name, o) && o != cur
    ensures cur in c.nodes && c.nodes[cur].children == o && o != 0 && Level(c, cur, name).Hit?
  {
    hide Level, Extends;
  }

  // ---------------------------------------------------------------- which error comes, and which link is taken

  function Sum(sizes: seq<nat>): nat
  {
    if sizes == [] then 0 else sizes[0] + Sum(sizes[1..])
  }

  lemma {:induction false} NodesSum(parts: seq<Str>)
    ensures Sum(NodeSizes(parts)) == NodesCost(parts)
    decreases |parts|
  {
    hide NodeSize;
    if parts != [] {
      NodesSum(parts[1..]);
      assert NodeSizes(parts)[1..] == NodeSizes(parts[1..]);
    }
  }

  lemma {:induction false} PathSum(sh: Shape, cur: nat, parts: seq<Str>)
    requires cur in sh.nodes
    ensures Sum(PathSizes(sh, cur, parts)) == Cost(sh, cur, parts)
    decreases |parts|
  {
    hide NodeSize, Level;
    if parts != [] {
      match Level(sh, cur, parts[0])
      case Miss(_, _) => NodesSum(parts);
      case Hit(o) =>
        if o in sh.nodes {
          PathSum(sh, o, parts[1..]);
        }
    }
  }

  lemma {:induction false} ErrorOfBoth(used: nat, a: seq<nat>, b: seq<nat>, size: nat)
    ensures FirstError(used, a + b, size)
         == if FirstError(used, a, size).Some? then FirstError(used, a, size) else FirstError(used + Sum(a), b, size)
    decreases |a|
  {
    hide RoomError;
    if a == [] {
      assert a + b == b;
    } else {
      assert (a + b)[0] == a[0] && (a + b)[1..] == a[1..] + b;
      ErrorOfBoth(used + a[0], a[1..], b, size);
    }
  }

  lemma {:induction false} InfoError(used: nat, name: Str, value: Str, size: nat)
    ensures var long := Align4(|value| + 1);
            FirstError(used, InfoSizes(name, value), size)
            == if DATA + used + InfoSize(name) > size then Some(RoomError(used, InfoSize(name)))
               else if |value| >= PROP_VALUE_MAX && DATA + used + InfoSize(name) + long > size
               then Some(RoomError(used + InfoSize(name), long)) else None
  {
    hide Align4, RoomError, InfoSize;
    var more: seq<nat> := if |value| < PROP_VALUE_MAX then [] else [Align4(|value| + 1)];
    assert ([InfoSize(name)] + more)[1..] == more;
    assert FirstError(used + InfoSize(name), more, size)
        == if more == [] then None
           else if DATA + used + InfoSize(name) + more[0] > size then Some(RoomError(used + InfoSize(name), more[0])) else None by {
      if more != [] {
        assert more[1..] == [];
      }
    }
  }

  lemma {:induction false} NothingToAllocate(sh: Shape, cur: nat, size: nat)
    requires cur in sh.nodes
    ensures PathSizes(sh, cur, []) == [] && FirstError(sh.used, [], size) == None
  {
  }

  lemma {:induction false} NoRoomError(b: Shape, cur: nat, parts: seq<Str>, size: nat)
    requires cur in b.nodes && parts != [] && Level(b, cur, parts[0]).Miss? && DATA + b.used + NodeSize(parts[0]) > size
    ensures FirstError(b.used, PathSizes(b, cur, parts), size) == Some(RoomError(b.used, NodeSize(parts[0])))
  {
    hide Level, RoomError, NodeSize;
  }

  /** What was in the way of the allocations ahead still is, after one of them. */
  lemma {:induction false} SegmentSizes(a: Shape, b: Shape, cur: nat, sub: Str, o: nat, more: seq<Str>, size: nat)
    requires Ensured(a, b, cur, sub, o) && (Level(a, cur, sub).Hit? || DATA + a.used + NodeSize(sub) <= size)
    ensures FirstError(b.used, PathSizes(b, o, more), size) == FirstError(a.used, PathSizes(a, cur, [sub] + more), size)
  {
    hide Level, RoomError, NodeSize, Extends, Taken;
    var parts := [sub] + more;
    assert parts[0] == sub && parts[1..] == more;
    if Level(a, cur, sub).Miss? {
      if more != [] {
        LeafLevel(b, o, more[0]);
      }
      assert PathSizes(a, cur, parts) == NodeSizes(parts) == [NodeSize(sub)] + NodeSizes(more);
      assert PathSizes(b, o, more) == NodeSizes(more);
      assert NodeSizes(parts)[1..] == NodeSizes(more);
    }
  }

  lemma {:induction false} OutcomeOfWalk(a: Shape, name: Str, value: Str, size: nat)
    requires 0 in a.nodes && 0 !in name && [] !in Segments(name) && Cost(a, 0, Segments(name)) > 0
    requires FirstError(a.used, PathSizes(a, 0, Segments(name)), size).Some?
    ensures AddOutcome(a, size, name, value) == Err(FirstError(a.used, PathSizes(a, 0, Segments(name)), size).value)
  {
    hide Cost, Locate, InfoSizes, PathSizes, FirstError, Segments;
    if FindEntry(a, name).Some? {
      FoundCostsNothing(a, 0, Segments(name));
    }
    ErrorOfBoth(a.used, PathSizes(a, 0, Segments(name)), InfoSizes(name, value), size);
  }

  lemma {:induction false} OutcomeOfEntry(a: Shape, b: Shape, name: Str, value: Str, size: nat, c: map<Str, Str>)
    requires 0 in a.nodes && 0 !in name && [] !in Segments(name) && b.used == a.used + Cost(a, 0, Segments(name))
    requires FirstError(a.used, PathSizes(a, 0, Segments(name)), size) == None && WellFormed(a) && Refines(a, c)
    ensures AddOutcome(a, size, name, value)
         == if name in c then Ok(())
            else match FirstError(b.used, InfoSizes(name, value), size) case None => Ok(()) case Some(e) => Err(e)
  {
    hide Cost, Locate, InfoSizes, PathSizes, FirstError, Segments, WellFormed, FindEntry;
    assert Lookup(a, name) == At(c, name);
    EntryIsNamed(a, name);
    PathSum(a, 0, Segments(name));
    ErrorOfBoth(a.used, PathSizes(a, 0, Segments(name)), InfoSizes(name, value), size);
  }

  /** How far `Add` has got along `parts`: nothing is changed yet, or the one link is taken and the walk is
      among nodes that are new. */
  ghost predicate Progress(a: Shape, b: Shape, parts: seq<Str>, walked: seq<Str>, current: nat)
  {
    0 in a.nodes && current in b.nodes
    && if current in a.nodes then b == a && Locate(a, 0, walked) == Hit(current)
       else Locate(a, 0, parts).Miss? && Taken(a, b, Frontier(a, parts).0, Frontier(a, parts).1) && b.nodes[current].children == 0
  }

  lemma {:induction false} NoProgress(sh: Shape, parts: seq<Str>)
    requires 0 in sh.nodes
    ensures Progress(sh, sh, parts, [], 0)
  {
    hide Taken;
    NothingLeft(sh, 0);
  }

  lemma {:induction false} NothingTaken(sh: Shape, parts: seq<Str>)
    requires 0 in sh.nodes
    ensures OnlyLink(sh, sh, Frontier(sh, parts).0, Frontier(sh, parts).1)
  {
    hide Locate, GetLink;
  }

  lemma {:induction false} LocateMissed(sh: Shape, cur: nat, done: seq<Str>, more: seq<Str>)
    requires cur in sh.nodes && Locate(sh, cur, done).Miss?
    ensures Locate(sh, cur, done + more) == Locate(sh, cur, done)
    decreases |done|
  {
    hide Level;
    if done != [] {
      assert (done + more)[0] == done[0] && (done + more)[1..] == done[1..] + more;
      match Level(sh, cur, done[0])
      case Miss(_, _) =>
      case Hit(o) =>
        if o in sh.nodes {
          LocateMissed(sh, o, done[1..], more);
        }
    }
  }

  lemma {:induction false} TakenStays(a: Shape, b: Shape, c: Shape, p: nat, l: Link, cur: nat, k: Link)
    requires Taken(a, b, p, l) && OnlyLink(b, c, cur, k) && cur !in a.nodes
    ensures Taken(a, c, p, l)
  {
    LinkOfTaken(a, b, p, l);
  }

  lemma {:induction false} NodesKept(a: Shape, b: Shape, p: nat, l: Link)
    requires OnlyLink(a, b, p, l)
    ensures forall o :: o in a.nodes ==> o in b.nodes
  {
  }

  lemma {:induction false} ProgressStep(a: Shape, b: Shape, c: Shape, parts: seq<Str>, walked: seq<Str>, cur: nat, sub: Str, o: nat,
                                        more: seq<Str>)
    requires Progress(a, b, parts, walked, cur) && Ensured(b, c, cur, sub, o) && parts == walked + [sub] + more
    ensures Progress(a, c, parts, walked + [sub], o)
  {
    hide Level, Locate, Extends, NodeSize, Taken;
    if cur in a.nodes {
      LocateMore(a, 0, walked, sub);
      if Level(a, cur, sub).Miss? {
        LocateMissed(a, 0, walked + [sub], more);
      }
    } else {
      LeafLevel(b, cur, sub);
      var f := Frontier(a, parts);
      LinkOfTaken(b, c, cur, Children);
      TakenStays(a, b, c, f.0, f.1, cur, Children);
      LinkOfTaken(a, b, f.0, f.1);
      NodesKept(a, b, f.0, f.1);
    }
  }

  lemma {:induction false} LinkOfTaken(a: Shape, b: Shape, p: nat, l: Link)
    requires Taken(a, b, p, l)
    ensures OnlyLink(a, b, p, l)
  {
    hide OnlyLink;
  }

  lemma {:induction false} ProgressLinks(a: Shape, b: Shape, parts: seq<Str>, walked: seq<Str>, cur: nat)
    requires Progress(a, b, parts, walked, cur)
    ensures 0 in a.nodes && OnlyLink(a, b, Frontier(a, parts).0, Frontier(a, parts).1)
  {
    hide Locate, OnlyLink;
    if cur in a.nodes {
      NothingTaken(a, parts);
    }
  }

  lemma {:induction false} SameNodesLinks(a: Shape, b: Shape, c: Shape, f: (nat, Link))
    requires OnlyLink(a, b, f.0, f.1) && c.nodes == b.nodes
    ensures OnlyLink(a, c, f.0, f.1)
  {
  }

  lemma {:induction false} OneEntryMore(sh: Shape, p: nat, q: nat, i: InfoRec)
    requires CanPublish(sh, p, q, i) && i.updates == 0
    ensures p in sh.nodes && NoUpdates(sh, WithEntry(sh, p, q, i))
  {
    hide WellFormed, Locate, Segments, Aligned, Fresh, InfoExtent;
    FreshIsFree(sh, q);
  }

  /** The store that publishes takes the frontier's link itself, or comes after it is taken. */
  lemma {:induction false} ProgressTakes(a: Shape, b: Shape, c: Shape, parts: seq<Str>, cur: nat, q: nat, i: InfoRec)
    requires Progress(a, b, parts, parts, cur) && cur in b.nodes && b.nodes[cur].prop == 0 && q != 0
    requires c.nodes == b.nodes[cur := b.nodes[cur].(prop := q)]
    ensures 0 in a.nodes && Taken(a, c, Frontier(a, parts).0, Frontier(a, parts).1)
  {
    hide Locate;
    if cur !in a.nodes {
      NodesKept(a, b, Frontier(a, parts).0, Frontier(a, parts).1);
    }
  }

  // ---------------------------------------------------------------- how much room, in bytes

  /** A node takes its 20 bytes, its name and a NUL, an entry 96 bytes, its name and a NUL, a long value its
      bytes and a NUL, each rounded up to a multiple of four; a fresh area begins with a node without a name and
      92 bytes of backup. */
  lemma {:induction false} SizesInBytes(name: Str, value: Str)
    ensures NodeSize(name) == (|name| + 24) / 4 * 4
    ensures InfoSize(name) == (|name| + 100) / 4 * 4
    ensures InfoExtent(name, value) == (|name| + 100) / 4 * 4 + if |value| <= 91 then 0 else (|value| + 4) / 4 * 4
    ensures DATA == 128 && FIRST == 112
  {
    Align4ClosedForm(NODE_HEADER + |name| + 1);
    Align4ClosedForm(INFO_HEADER + |name| + 1);
    Align4ClosedForm(|value| + 1);
  }

  /** The bytes of new nodes for these segments. */
  function SegmentBytes(segments: seq<Str>): nat
  {
    if segments == [] then 0 else (|segments[0]| + 24) / 4 * 4 + SegmentBytes(segments[1..])
  }

  lemma {:induction false} NodesInBytes(parts: seq<Str>)
    ensures NodesCost(parts) == SegmentBytes(parts)
    decreases |parts|
  {
    hide NodeSize;
    if parts != [] {
      SizesInBytes(parts[0], []);
      NodesInBytes(parts[1..]);
    }
  }

  /** The first `k` segments have their nodes, and the next one has none. */
  predicate NodesThere(sh: Shape, parts: seq<Str>, k: nat)
    requires 0 in sh.nodes
  {
    k <= |parts| && Locate(sh, 0, parts[..k]).Hit? && (k < |parts| ==> Locate(sh, 0, parts[..k + 1]).Miss?)
  }

  /** For every name, some segments have their nodes and the rest have none. */
  lemma {:induction false} MissingFrom(sh: Shape, parts: seq<Str>) returns (k: nat)
    requires 0 in sh.nodes
    ensures NodesThere(sh, parts, k)
    decreases |parts|
  {
    hide Level;
    assert parts[..|parts|] == parts;
    if Locate(sh, 0, parts).Hit? {
      k := |parts|;
    } else {
      var front := parts[..|parts| - 1];
      k := MissingFrom(sh, front);
      assert front[..k] == parts[..k];
      if k < |front| {
        assert front[..k + 1] == parts[..k + 1];
      }
    }
  }

  lemma {:induction false} FewerBytes(parts: seq<Str>, k: nat)
    requires k <= |parts|
    ensures SegmentBytes(parts[k..]) <= SegmentBytes(parts)
    decreases k
  {
    if k == 0 {
      assert parts[0..] == parts;
    } else {
      assert parts[k..] == parts[1..][k - 1..];
      FewerBytes(parts[1..], k - 1);
    }
  }

  lemma {:induction false} LocateFirst(sh: Shape, cur: nat, parts: seq<Str>)
    requires cur in sh.nodes && parts != []
    ensures Locate(sh, cur, parts[..1])
         == match Level(sh, cur, parts[0])
            case Miss(p, l) => Miss(p, l)
            case Hit(o) => if o in sh.nodes then Hit(o) else Miss(cur, Children)
  {
    hide Level;
    LocateMore(sh, cur, [], parts[0]);
    assert [] + [parts[0]] == parts[..1];
  }

  lemma {:induction false} CostOfMissing(sh: Shape, cur: nat, parts: seq<Str>, k: nat)
    requires cur in sh.nodes && k <= |parts| && Locate(sh, cur, parts[..k]).Hit?
    requires k < |parts| ==> Locate(sh, cur, parts[..k + 1]).Miss?
    requires WellFormed(sh)
    ensures Cost(sh, cur, parts) == SegmentBytes(parts[k..])
    decreases k
  {
    hide Level, WellFormed, SegmentBytes, NodesCost;
    if parts == [] {
      NothingCosts(sh, cur);
      NodesInBytes([]);
      assert parts[k..] == parts == [];
    } else if k == 0 {
      LocateFirst(sh, cur, parts);
      assert parts[0..] == parts;
      LevelSpot(sh, cur, parts[0]);
      NodesInBytes(parts);
    } else {
      var o := Level(sh, cur, parts[0]).at;
      assert parts[..k][0] == parts[0] && parts[..k][1..] == parts[1..][..k - 1];
      if k < |parts| {
        assert parts[..k + 1][0] == parts[0] && parts[..k + 1][1..] == parts[1..][..k];
      }
      assert parts[k..] == parts[1..][k - 1..];
      CostOfMissing(sh, o, parts[1..], k - 1);
    }
  }

  /** `Add` succeeds exactly on names without NULs and empty segments that are there, or for which 128 bytes of
      header, what is used, the nodes of the missing segments and the entry fit the memory. */
  lemma {:induction false} AddFits(sh: Shape, size: nat, name: Str, value: Str, k: nat)
    requires WellFormed(sh) && 0 in sh.nodes && NodesThere(sh, Segments(name), k)
    ensures AddOutcome(sh, size, name, value).Ok? <==>
              0 !in name && [] !in Segments(name)
              && (FindEntry(sh, name).Some?
                  || 128 + sh.used + SegmentBytes(Segments(name)[k..]) + (|name| + 100) / 4 * 4
                     + (if |value| <= 91 then 0 else (|value| + 4) / 4 * 4) <= size)
  {
    hide WellFormed, Locate, Segments, FindEntry, SegmentBytes, PathSizes, InfoExtent;
    var parts := Segments(name);
    CostOfMissing(sh, 0, parts, k);
    SizesInBytes(name, value);
    PathSum(sh, 0, parts);
    InfoSum(name, value);
    SumOfBoth(PathSizes(sh, 0, parts), InfoSizes(name, value));
    NoErrorIfSumFits(sh.used, PathSizes(sh, 0, parts) + InfoSizes(name, value), size);
  }

  /** Room for nodes of all segments and for the entry is always enough. */
  lemma {:induction false} AddFitsPlainly(sh: Shape, size: nat, name: Str, value: Str)
    requires WellFormed(sh) && 0 in sh.nodes && 0 !in name && [] !in Segments(name)
    requires 128 + sh.used + SegmentBytes(Segments(name)) + (|name| + 100) / 4 * 4 + (if |value| <= 91 then 0 else (|value| + 4) / 4 * 4)
          <= size
    ensures AddOutcome(sh, size, name, value).Ok?
  {
    hide WellFormed, NodesThere, Segments, SegmentBytes, AddOutcome, FindEntry;
    var k := MissingFrom(sh, Segments(name));
    assert k <= |Segments(name)| by { NoFurther(sh, Segments(name), k); }
    AddFits(sh, size, name, value, k);
    FewerBytes(Segments(name), k);
  }

  lemma {:induction false} NoFurther(sh: Shape, parts: seq<Str>, k: nat)
    requires 0 in sh.nodes && NodesThere(sh, parts, k)
    ensures k <= |parts|
  {
  }

  lemma {:induction false} InfoSum(name: Str, value: Str)
    ensures Sum(InfoSizes(name, value)) == InfoExtent(name, value)
  {
    hide Align4, InfoSize;
    var more: seq<nat> := if |value| < PROP_VALUE_MAX then [] else [Align4(|value| + 1)];
    assert ([InfoSize(name)] + more)[1..] == more;
    assert Sum(more) == if more == [] then 0 else more[0] by {
      if more != [] {
        assert more[1..] == [];
      }
    }
  }

  lemma {:induction false} SumOfBoth(a: seq<nat>, b: seq<nat>)
    ensures Sum(a + b) == Sum(a) + Sum(b)
    decreases |a|
  {
    if a == [] {
      assert a + b == b;
    } else {
      assert (a + b)[0] == a[0] && (a + b)[1..] == a[1..] + b;
      SumOfBoth(a[1..], b);
    }
  }

  /** Allocations that are not none succeed exactly if they fit together. */
  lemma {:induction false} NoErrorIfSumFits(used: nat, sizes: seq<nat>, size: nat)
    ensures sizes != [] ==> (FirstError(used, sizes, size) == None <==> DATA + used + Sum(sizes) <= size)
    decreases |sizes|
  {
    hide RoomError;
    if |sizes| > 1 {
      NoErrorIfSumFits(used + sizes[0], sizes[1..], size);
    } else if |sizes| == 1 {
      assert sizes[1..] == [];
    }
  }

  // ---------------------------------------------------------------- the steps of add

  lemma {:induction false} ExtendsSelf(a: Shape)
    ensures Extends(a, a)
  {
    hide Locate;
  }

  lemma {:induction false} ExtendsTrans(a: Shape, b: Shape, c: Shape)
    requires Extends(a, b) && Extends(b, c)
    ensures Extends(a, c)
  {
    hide Locate, NodeGrows, Grows;
    GrowsTrans(a, b, c);
    NodesStay(a, b);
  }

  lemma {:induction false} NodesStay(a: Shape, b: Shape)
    requires Grows(a, b)
    ensures forall o :: o in a.nodes ==> o in b.nodes
  {
  }

  lemma {:induction false} LoggedLinearizes(before: seq<Seen>, log: seq<Seen>, c: map<Str, Str>)
    requires Logged(before, log, c)
    ensures Linearizes(before, log, c, c) && Chain(log, |before| - 1)
  {
    hide Shows, Chain;
  }

  lemma {:induction false} LastLinearizes(before: seq<Seen>, log: seq<Seen>, log': seq<Seen>, c: map<Str, Str>, c': map<Str, Str>)
    requires Logged(before, log, c) && |log'| == |log| + 1 && log <= log' && Shows(log'[|log|], c')
    ensures Linearizes(before, log', c, c')
  {
    hide Shows, Chain;
    forall i | |before| <= i < |log| ensures Shows(log'[i], c) {
      assert log'[i] == log[i];
    }
  }

  lemma {:induction false} PublishIsOnward(s: Seen, t: Seen)
    requires s.busy == None && |s.mem| == |t.mem| && Extends(s.shape, t.shape)
    ensures Onward(s, t)
  {
    hide KeepsHits, Grows, Onward;
    GrowthIsOnward(s, t);
  }

  lemma {:induction false} LastChained(before: seq<Seen>, log: seq<Seen>, log': seq<Seen>, c: map<Str, Str>)
    requires Logged(before, log, c) && |log'| == |log| + 1 && log <= log' && Onward(log[|log| - 1], log'[|log|])
    ensures Chain(log', |before| - 1)
  {
    hide Shows, Onward;
    SameIsOnward(log'[|log|], log'[|log|]);
    SameIsOnward(log'[|log| - 1], log'[|log| - 1]);
    ChainTrans(log, log', |before| - 1);
  }

  lemma {:induction false} NothingCosts(sh: Shape, cur: nat)
    requires cur in sh.nodes
    ensures Cost(sh, cur, []) == 0 && NodesCost([]) == 0
  {
  }

  lemma {:induction false} SegmentIsClean(name: Str, walked: seq<Str>, rest: Str, sub: Str)
    requires walked + Segments(rest) == Segments(name) && [] !in Segments(name) && 0 !in rest && Segments(rest)[0] == sub
    ensures CleanName(sub) && Segments(rest) == [sub] + Segments(rest)[1..]
  {
    SegmentsDotless(rest);
    var parts := Segments(rest);
    assert sub in parts;
    assert (walked + parts)[|walked|] == sub;
    match IndexOf(rest, DOT)
    case None =>
    case Some(i) => assert forall x :: x in rest[..i] ==> x in rest;
  }

  lemma {:induction false} LocateMore(sh: Shape, cur: nat, done: seq<Str>, s: Str)
    requires cur in sh.nodes && Locate(sh, cur, done).Hit? && Locate(sh, cur, done).at in sh.nodes
    ensures Locate(sh, cur, done + [s])
         == match Level(sh, Locate(sh, cur, done).at, s)
            case Miss(p, l) => Miss(p, l)
            case Hit(o) => if o in sh.nodes then Hit(o) else Miss(Locate(sh, cur, done).at, Children)
    decreases |done|
  {
    hide Level;
    if done == [] {
      assert done + [s] == [s];
    } else {
      assert (done + [s])[1..] == done[1..] + [s];
      LocateMore(sh, Level(sh, cur, done[0]).at, done[1..], s);
    }
  }

  /** One segment further: the walk so far still leads here, and the cost paid leaves the sum unchanged. */
  lemma {:induction false} SegmentStep(a: Shape, b: Shape, cur: nat, sub: Str, o: nat, walked: seq<Str>, more: seq<Str>)
    requires WellFormed(b) && Ensured(a, b, cur, sub, o) && 0 in a.nodes && Locate(a, 0, walked) == Hit(cur)
    ensures 0 in b.nodes && o in b.nodes && Locate(b, 0, walked + [sub]) == Hit(o)
    ensures b.used + Cost(b, o, more) == a.used + Cost(a, cur, [sub] + more)
    ensures Extends(a, b) && b.infos == a.infos
  {
    hide Level, WellFormed, Grows, NodeSize, Taken, Cost, Locate;
    assert KeepsHits(a, b);
    assert 0 in b.nodes && Locate(b, 0, walked) == Locate(a, 0, walked);
    LocateMore(b, 0, walked, sub);
    SegmentCost(a, b, cur, sub, o, more);
  }

  lemma {:induction false} SegmentCost(a: Shape, b: Shape, cur: nat, sub: Str, o: nat, more: seq<Str>)
    requires Ensured(a, b, cur, sub, o)
    ensures b.used + Cost(b, o, more) == a.used + Cost(a, cur, [sub] + more)
  {
    hide Level, Extends, NodeSize, Taken;
    var parts := [sub] + more;
    assert parts[0] == sub && parts[1..] == more;
    if Level(a, cur, sub).Miss? {
      if more != [] {
        LeafLevel(b, o, more[0]);
      }
      assert Cost(a, cur, parts) == NodesCost(parts) == NodeSize(sub) + NodesCost(more);
      assert Cost(b, o, more) == NodesCost(more);
    }
  }

  lemma {:induction false} LeafLevel(b: Shape, o: nat, k: Str)
    requires o in b.nodes && b.nodes[o].children == 0
    ensures Level(b, o, k) == Miss(o, Children)
  {
  }

  lemma {:induction false} NoRoomForSegment(b: Shape, cur: nat, parts: seq<Str>, size: nat)
    requires cur in b.nodes && parts != [] && Level(b, cur, parts[0]).Miss? && DATA + b.used + NodeSize(parts[0]) > size
    ensures DATA + b.used + Cost(b, cur, parts) > size && Cost(b, cur, parts) > 0
  {
    hide Level;
  }

  /** A walk that has to pay finds no entry: all of the cost is due. */
  lemma {:induction false} NeedIsCost(a: Shape, name: Str, value: Str)
    requires 0 in a.nodes && Cost(a, 0, Segments(name)) > 0
    ensures Need(a, name, value) == Cost(a, 0, Segments(name)) + InfoExtent(name, value)
  {
    hide Cost, Locate, InfoExtent;
    if FindEntry(a, name).Some? {
      FoundCostsNothing(a, 0, Segments(name));
    }
  }

  lemma {:induction false} RoomOnlyShrinks(a: Shape, b: Shape)
    requires Extends(a, b)
    ensures a.used <= b.used
  {
    hide KeepsHits;
  }

  /** The node for `name` is there: the entry is missing exactly when the map has none. */
  lemma {:induction false} EndOfWalk(a: Shape, b: Shape, cur: nat, name: Str, value: Str, c: map<Str, Str>)
    requires WellFormed(a) && WellFormed(b) && Refines(a, c) && Refines(b, c)
    requires 0 in b.nodes && Locate(b, 0, Segments(name)) == Hit(cur) && cur in b.nodes
    requires b.used == a.used + Cost(a, 0, Segments(name))
    ensures b.nodes[cur].prop == 0 <==> name !in c
    ensures 0 in a.nodes && Need(a, name, value) == if name in c then 0 else b.used - a.used + InfoExtent(name, value)
    ensures name in c ==> b.used == a.used
  {
    hide WellFormed, Locate, Segments, InfoExtent, Cost;
    EntryIsNamed(a, name);
    EntryIsNamed(b, name);
    assert Lookup(a, name) == At(c, name) && Lookup(b, name) == At(c, name);
    if name in c {
      FoundCostsNothing(a, 0, Segments(name));
    }
  }

  lemma {:induction false} RoomExtends(a: Shape, b: Shape)
    requires WellFormed(a) && b == WithUsed(a, b.used) && a.used <= b.used && Aligned(b.used)
    ensures Extends(a, b)
  {
    hide WellFormed, Locate, Aligned;
    forall c: nat, parts: seq<Str> | c in a.nodes && Locate(a, c, parts).Hit?
      ensures c in b.nodes && Locate(b, c, parts) == Locate(a, c, parts)
    {
      RoomKeepsLocate(a, b.used, c, parts);
    }
  }

  lemma {:induction false} ReadyToPublish(a: Shape, b: Shape, p: nat, q: nat, i: InfoRec)
    requires WellFormed(a) && WellFormed(b) && b == WithUsed(a, b.used) && a.used <= b.used
    requires 0 in a.nodes && Locate(a, 0, Segments(i.name)) == Hit(p) && p in a.nodes && a.nodes[p].prop == 0
    requires q == a.used && Fresh(b, q) && b.used == q + InfoExtent(i.name, i.value)
    requires 0 !in i.name && 0 !in i.value && [] !in Segments(i.name)
    ensures CanPublish(b, p, q, i)
  {
    hide Locate, Segments, InfoExtent, Packed, WellLinked, Fresh, Aligned;
    RoomKeepsLocate(a, b.used, 0, Segments(i.name));
  }

  lemma {:induction false} PublishExtends(a: Shape, b: Shape, p: nat, q: nat, i: InfoRec)
    requires CanPublish(a, p, q, i) && p in a.nodes && b == WithEntry(a, p, q, i)
    ensures Extends(a, b)
  {
    hide Locate, WellFormed, Segments, Aligned, Fresh, InfoExtent;
    FreshIsFree(a, q);
    forall c: nat, parts: seq<Str> | c in a.nodes && Locate(a, c, parts).Hit?
      ensures c in b.nodes && Locate(b, c, parts) == Locate(a, c, parts)
    {
      SameLocate(a, b, c, parts);
    }
  }

  /** An index once handed out keeps naming the same property. */
  lemma {:induction false} IndexIsStable(a: Shape, b: Shape, name: Str)
    requires WellFormed(a) && WellFormed(b) && Extends(a, b)
    ensures 0 in a.nodes && 0 in b.nodes && (FindEntry(a, name).Some? ==> FindEntry(b, name) == FindEntry(a, name))
  {
    hide WellFormed, Locate, Segments;
    RootIsThere(a);
    RootIsThere(b);
    LocateFindsPath(a, 0, Segments(name));
    var spot := Locate(a, 0, Segments(name));
    if spot.Hit? {
      assert NodeGrows(a.nodes[spot.at], b.nodes[spot.at]);
      assert GetLink(a.nodes[spot.at], Prop) != 0 ==> GetLink(b.nodes[spot.at], Prop) == GetLink(a.nodes[spot.at], Prop);
    }
  }

  // ---------------------------------------------------------------- the steps of update

  lemma {:induction false} BackupIsUnpublished(sh: Shape, hi: nat)
    requires WellFormed(sh) && hi <= DATA + FIRST
    ensures Unpublished(sh, DATA + BACKUP, hi)
  {
    hide Aligned, Between, CleanName, LeadsTo, PropOk, Align4;
    forall a: nat | IsObject(sh, a) ensures DATA + EndOf(sh, a) <= DATA + BACKUP || hi <= DATA + a {
      if a in sh.nodes {
        assert NodeOk(sh, a);
      } else {
        assert InfoOk(sh, a);
      }
    }
  }

  lemma {:induction false} EntrySerial(m: Str, q: nat, i: InfoRec)
    requires InfoIn(m, q, i) && DATA + q + INFO_HEADER <= |m|
    ensures IsLong(Word(m, DATA + q)) <==> !Stored(i)
    ensures Stored(i) ==> Word(m, DATA + q) == ShortSerial(|i.value|, i.updates)
  {
    hide Word, Sub, ShortSerial, IsLong;
    ShortSerialFields(|i.value|, i.updates);
    LongSerialFields();
  }

  /** The memories in which the value slot is half written show what the map was before the update. */
  lemma {:induction false} DirtyBytes(m: Str, m1: Str, log: seq<Seen>, from: nat, sh: Shape, q: nat, len: nat, c: map<Str, Str>)
    requires WellFormed(sh) && Holds(m, sh) && q in sh.infos && Stored(sh.infos[q]) && Refines(sh, c)
    requires BackedUp(m, sh, q)
    requires Agree(m, m1, DATA + q, DATA + q + INFO_HEADER) && len <= PROP_VALUE_MAX
    requires var i := sh.infos[q]; Sub(m1, DATA + q, WordBytes(Dirty(ShortSerial(|i.value|, i.updates))))
    requires AllAgree(log, from, m1, DATA + q + 4, DATA + q + 4 + len, sh, Some(q))
    ensures AllShow(log, from, c) && AllSame(log, from, Seen(m1, sh, Some(q)))
  {
    hide WellFormed, Holds, Refines, Agree, EntriesRead, HoldsBut, Sub, WordBytes, Dirty, ShortSerial;
    var i := sh.infos[q];
    forall k | from <= k < |log| ensures Shows(log[k], c) && |log[k].mem| == |m1| {
      var m' := log[k].mem;
      SameLength(m1, m', DATA + q + 4, DATA + q + 4 + len);
      SubAgrees(m1, m', DATA + q + 4, DATA + q + 4 + len, DATA + q, WordBytes(Dirty(ShortSerial(|i.value|, i.updates))));
      AgreeWiden(m1, m', DATA + q + 4, DATA + q + 4 + len, DATA + q, DATA + q + INFO_HEADER);
      AgreeTrans(m, m1, m', DATA + q, DATA + q + INFO_HEADER);
      DirtyReads(m, m', sh, q);
    }
  }

  lemma {:induction false} WriteStored(l0: seq<Seen>, l1: seq<Seen>, l2: seq<Seen>, log: seq<Seen>, m: Str, m1: Str, m2: Str,
                                        q: nat, value: Str)
    requires DATA + q + INFO_HEADER <= |m| && |value| < PROP_VALUE_MAX
    requires |l1| == |l0| + 1 && l1[|l0|].mem == m1 && m1 == Poke(m, DATA + q, WordBytes(Dirty(Word(m, DATA + q))))
    requires l1 <= l2 && |l2| == |l1| + |value| + 1 && StoredBytes(l2, |l1|, m1, DATA + q + 4, value + [0])
    requires m2 == Poke(m1, DATA + q + 4, value + [0]) && l2 <= log && |log| == |l2| + 1
    requires log[|l2|].mem == Poke(m2, DATA + q, WordBytes(NextSerial(Word(m, DATA + q), |value|)))
    ensures StoredWrite(log, |l0|, m, q, value)
  {
    hide Poke, StoredBytes, Word, WordBytes, Dirty, NextSerial;
    StoredBytesStay(l2, log, |l1|, m1, DATA + q + 4, value + [0]);
    assert log[|l0|] == l1[|l0|];
  }

  lemma {:induction false} LinearizesAfter(before: seq<Seen>, l1: seq<Seen>, log: seq<Seen>, c: map<Str, Str>, c': map<Str, Str>)
    requires Logged(before, l1, c) && Linearizes(l1, log, c, c') && Chain(log, |l1| - 1)
    ensures l1 <= log && Linearizes(before, log, c, c') && Chain(log, |before| - 1)
  {
    hide Shows, Chain;
    forall i | |before| <= i < |log| ensures Shows(log[i], c) || (i == |log| - 1 && Shows(log[i], c')) {
      if i < |l1| {
        assert log[i] == l1[i];
      }
    }
    ChainTrans(l1, log, |before| - 1);
  }

  lemma {:induction false} EntriesAreRead(m: Str, sh: Shape)
    requires WellFormed(sh) && Holds(m, sh)
    ensures EntriesRead(m, sh)
  {
    hide WellFormed, Holds, HoldsBut, EntriesRead;
    HoldsAll(m, sh);
    HoldsEntriesRead(m, sh, None);
  }

  // ---------------------------------------------------------------- a fresh area

  function EmptyArea(): Shape
  {
    Shape(map[0 := Unlinked([], None, None)], map[], FIRST)
  }

  lemma {:induction false} EmptyAreaHeld(m: Str)
    requires DATA + FIRST <= |m| && forall i :: DATA <= i < |m| ==> m[i] == 0
    ensures WellFormed(EmptyArea()) && Holds(m, EmptyArea()) && Refines(EmptyArea(), map[])
  {
    var sh := EmptyArea();
    AlignedTimes4(28);
    assert IsObject(sh, 0) && NodeOk(sh, 0);
    assert NodeIn(m, 0, sh.nodes[0]);
    forall n: Str ensures Lookup(sh, n) == None {
      NoEntry(n);
    }
  }

  lemma {:induction false} NoEntry(n: Str)
    ensures FindEntry(EmptyArea(), n) == None
  {
    hide Segments;
    LeafLevel(EmptyArea(), 0, Segments(n)[0]);
  }

  lemma {:induction false} HeaderWritten(m0: Str, m1: Str, m2: Str, m3: Str, m4: Str, m5: Str, m6: Str)
    requires forall i :: 0 <= i < |m0| ==> m0[i] == 0
    requires DATA <= |m0| && Agree(m0, m1, 4, 8) && Agree(m1, m2, 8, 12) && Sub(m2, 8, WordBytes(PROP_AREA_MAGIC))
    requires Agree(m2, m3, 12, 16) && Sub(m3, 12, WordBytes(PROP_AREA_VERSION))
    requires Agree(m3, m4, 16, DATA) && Agree(m4, m5, 0, 4) && Agree(m5, m6, 0, 4) && Sub(m6, 0, WordBytes(FIRST))
    ensures |m6| == |m0| && forall i :: DATA <= i < |m6| ==> m6[i] == 0
    ensures Word(m6, 0) == FIRST && Word(m6, 8) == PROP_AREA_MAGIC && Word(m6, 12) == PROP_AREA_VERSION
  {
    hide WordBytes, Word;
    SubOfWord(m6, 0, FIRST);
    SubOfWord(m2, 8, PROP_AREA_MAGIC);
    SubOfWord(m3, 12, PROP_AREA_VERSION);
    WordAgrees(m2, m3, 12, 16, 8);
    forall off: nat | off == 8 || off == 12 ensures Word(m6, off) == Word(m3, off) {
      WordAgrees(m3, m4, 16, DATA, off);
      WordAgrees(m4, m5, 0, 4, off);
      WordAgrees(m5, m6, 0, 4, off);
    }
  }

  /** What `find` finds is an index of the property asked for. */
  lemma {:induction false} FindIndexes(m: Str, sh: Shape, c: map<Str, Str>, name: Str)
    requires WellFormed(sh) && Holds(m, sh) && Refines(sh, c)
    ensures var r := FindFrom(m, 0, name);
            if name in c then r.Ok? && IsIndex(sh, r.value) && sh.infos[r.value].name == name && sh.infos[r.value].value == c[name]
            else if [] in Segments(name) then r == Err(MalformedError(sh, 0, Segments(name))) else r == Err(NotFound)
  {
    hide WellFormed, Holds, Locate, Segments, FindFrom;
    EntriesAreRead(m, sh);
    FindReads(m, sh, 0, name);
    EntryIsNamed(sh, name);
    assert Lookup(sh, name) == At(c, name);
    LocateFindsPath(sh, 0, Segments(name));
    assert [] + Segments(name) == Segments(name);
    if [] in Segments(name) && Locate(sh, 0, Segments(name)).Hit? {
      PathIsClean(sh, Locate(sh, 0, Segments(name)).at);
    }
  }

  lemma {:induction false} UpToNulStep(m: Str, off: nat, limit: nat)
    requires off + limit <= |m| && limit > 0
    ensures UpToNul(m, off, limit) == if m[off] == 0 then [] else [m[off]] + UpToNul(m, off + 1, limit - 1)
  {
  }

  lemma {:induction false} UpToNulEnd(m: Str, off: nat)
    requires off <= |m|
    ensures UpToNul(m, off, 0) == []
  {
  }

  /** What the memory says about an index: its name, its value, and that the map has it. */
  lemma {:induction false} IndexHeld(m: Str, sh: Shape, q: nat, c: map<Str, Str>)
    requires WellFormed(sh) && Holds(m, sh) && Refines(sh, c) && IsIndex(sh, q)
    ensures q in sh.infos && ObjectAt(m, q, INFO_HEADER) && DATA + q + INFO_HEADER <= |m| && InfoIn(m, q, sh.infos[q])
    ensures InfoName(m, q) == Ok(sh.infos[q].name) && ReadValue(m, q) == Ok(sh.infos[q].value)
    ensures sh.infos[q].name in c && c[sh.infos[q].name] == sh.infos[q].value
  {
    hide WellFormed, Holds, FindEntry, InfoName, ReadValue, InfoIn;
    InfoReads(m, sh, q);
    ValueReads(m, q, sh.infos[q]);
    assert Lookup(sh, sh.infos[q].name) == At(c, sh.infos[q].name);
  }

  // ---------------------------------------------------------------- which error an absent name gets

  lemma {:induction false} LocatePrefix(sh: Shape, cur: nat, parts: seq<Str>, k: nat)
    requires cur in sh.nodes && k <= |parts| && Locate(sh, cur, parts).Hit?
    ensures Locate(sh, cur, parts[..k]).Hit?
    decreases k
  {
    hide Level;
    if k > 0 {
      assert parts[..k][0] == parts[0] && parts[..k][1..] == parts[1..][..k - 1];
      LocatePrefix(sh, Level(sh, cur, parts[0]).at, parts[1..], k - 1);
    }
  }

  lemma {:induction false} EntryIsThere(sh: Shape, c: map<Str, Str>, name: Str)
    requires Refines(sh, c) && name in c
    ensures 0 in sh.nodes && Locate(sh, 0, Segments(name)).Hit?
  {
    hide Locate, Segments;
    assert Lookup(sh, name) == At(c, name);
  }

  /** A malformed name is called bad as soon as some property continues its leading segments. */
  lemma {:induction false} BadNextTo(m: Str, sh: Shape, c: map<Str, Str>, bad: Str, name: Str)
    requires WellFormed(sh) && Holds(m, sh) && Refines(sh, c) && name in c
    requires [] in Segments(bad) && Front(Segments(bad)) <= Segments(name)
    ensures FindFrom(m, 0, bad) == Err(BadName)
  {
    hide WellFormed, Holds, Locate, Segments, FindFrom, Refines, Front;
    EntriesAreRead(m, sh);
    EntryIsThere(sh, c, name);
    FindReads(m, sh, 0, bad);
    var front := Front(Segments(bad));
    assert Segments(name)[..|front|] == front;
    LocatePrefix(sh, 0, Segments(name), |front|);
  }

  /** The error for a malformed name can change: in a fresh area `a..b` is not found, and in one that has
      a property `a` it is a bad name. */
  lemma {:induction false} ErrorKindChanges(before: Str, after: Str, sh: Shape, c: map<Str, Str>)
    requires Holds(before, EmptyArea()) && Holds(after, sh) && WellFormed(sh) && Refines(sh, c) && Ascii("a") in c
    ensures FindFrom(before, 0, Ascii("a..b")) == Err(NotFound)
    ensures FindFrom(after, 0, Ascii("a..b")) == Err(BadName)
  {
    hide Holds, WellFormed, FindFrom, Locate, Refines;
    var bad := Ascii("a..b");
    DottedSegments(bad);
    assert WellFormed(EmptyArea()) by { EmptyAreaHeld(Zeros(DATA + FIRST)); }
    EntriesAreRead(before, EmptyArea());
    FindReads(before, EmptyArea(), 0, bad);
    NoFront(Front(Segments(bad)));
    SegmentsOfDotless(Ascii("a"));
    BadNextTo(after, sh, c, bad, Ascii("a"));
  }

  lemma {:induction false} NoFront(front: seq<Str>)
    requires front != []
    ensures Locate(EmptyArea(), 0, front).Miss?
  {
    LeafLevel(EmptyArea(), 0, front[0]);
  }

  lemma {:induction false} DottedSegments(bad: Str)
    requires bad == Ascii("a..b")
    ensures [] in Segments(bad) && Front(Segments(bad)) == [Ascii("a")]
  {
    assert bad == [0x61, DOT, DOT, 0x62] && Ascii("a") == [0x61];
    IndexOfUnique(bad, DOT, 1);
    var rest := bad[2..];
    assert rest == [DOT, 0x62] && bad[..1] == [0x61] && rest[..0] == [];
    IndexOfUnique(rest, DOT, 0);
    assert Segments(bad) == [[0x61]] + Segments(rest);
    assert Segments(rest)[0] == [];
    assert Front(Segments(rest)) == [];
    assert Segments(bad)[1..] == Segments(rest);
  }
}
