/** The property area as bytes: what the readers compute on any memory at all, and what they compute on a
    memory that holds a given area. */
module PropertyMemory {
  import opened Base
  import opened Order
  import opened TrieBuilder
  import opened PropertySerial
  import opened PropertyShape
  import opened PropertyMap

  datatype AreaError = NulByte | BadName | NotFound | AreaFull | FileSize | Corrupt | TooLong | LongEntry | ReadOnly

  type AreaResult<T> = Outcome<T, AreaError>

  // ---------------------------------------------------------------- reading any memory

  /** `to_object`: an object of `size` bytes at `o` is in bounds and aligned. */
  predicate ObjectAt(m: Str, o: nat, size: nat)
  {
    DATA + o + size <= |m| && Aligned(DATA + o)
  }

  /** `trie_node_name`: the C string in the `namelen + 1` bytes behind the node record. */
  function NodeName(m: Str, o: nat): AreaResult<Str>
    requires ObjectAt(m, o, NODE_HEADER)
  {
    var start, len := DATA + o + NODE_HEADER, Word(m, DATA + o);
    if start + len + 1 > |m| then Err(Corrupt)
    else
      match CStr(m[start..start + len + 1], 0)
      case None => Err(Corrupt)
      case Some(s) => Ok(s)
  }

  function LinkOffset(l: Link): nat
  {
    match l
    case Prop => 4
    case Left => 8
    case Right => 12
    case Children => 16
  }

  function LinkAt(m: Str, o: nat, l: Link): nat
    requires ObjectAt(m, o, NODE_HEADER)
  {
    Word(m, DATA + o + LinkOffset(l))
  }

  /** A walk down one level visits at most this many nodes, plus one, before it is taken for a cycle. */
  function MaxSteps(m: Str): nat
  {
    if |m| < DATA then 0 else (|m| - DATA) / NODE_HEADER
  }

  /** `find_prop_trie_node`, with the number of visits still allowed. */
  function FindInLevel(m: Str, o: nat, key: Str, visits: nat): AreaResult<nat>
    decreases visits
  {
    if visits == 0 || !ObjectAt(m, o, NODE_HEADER) then Err(Corrupt)
    else
      var name :- NodeName(m, o);
      if CompareName(key, name) == Equal then Ok(o)
      else
        var next := LinkAt(m, o, Turn(key, name));
        if next == 0 then Err(NotFound) else FindInLevel(m, next, key, visits - 1)
  }

  /** The end of `find`: the entry of the node reached. */
  function EntryAt(m: Str, o: nat): AreaResult<nat>
  {
    if !ObjectAt(m, o, NODE_HEADER) then Err(Corrupt)
    else
      var q := LinkAt(m, o, Prop);
      if q == 0 then Err(NotFound) else if !ObjectAt(m, q, INFO_HEADER) then Err(Corrupt) else Ok(q)
  }

  /** `PropertyAreaMap::find`, from the node at `cur` with the name that remains. */
  function FindFrom(m: Str, cur: nat, rest: Str): AreaResult<nat>
    decreases |rest|
  {
    var sep := IndexOf(rest, DOT);
    var sub := match sep case None => rest case Some(i) => rest[..i];
    if sub == [] then Err(BadName)
    else if !ObjectAt(m, cur, NODE_HEADER) then Err(Corrupt)
    else if LinkAt(m, cur, Children) == 0 then Err(NotFound)
    else
      var next :- FindInLevel(m, LinkAt(m, cur, Children), sub, MaxSteps(m) + 1);
      match sep
      case None => EntryAt(m, next)
      case Some(i) => FindFrom(m, next, rest[i + 1..])
  }

  /** `cstr_at`. */
  function CStrAt(m: Str, o: nat): AreaResult<Str>
  {
    match CStr(m, DATA + o)
    case None => Err(Corrupt)
    case Some(s) => Ok(s)
  }

  /** `property_info_name`. */
  function InfoName(m: Str, q: nat): AreaResult<Str>
  {
    if !ObjectAt(m, q, INFO_HEADER) then Err(Corrupt) else CStrAt(m, q + INFO_HEADER)
  }

  /** Where an entry keeps the offset of its out-of-line value. */
  const LONG_OFFSET: nat := 4 + 56

  /** `long_property_value`: an offset into the entry itself is rejected. */
  function LongValue(m: Str, q: nat): AreaResult<Str>
  {
    if !ObjectAt(m, q, INFO_HEADER) then Err(Corrupt)
    else
      var name :- InfoName(m, q);
      var rel := Word(m, DATA + q + LONG_OFFSET);
      if rel < InfoSize(name) then Err(Corrupt) else CStrAt(m, q + rel)
  }

  /** One pass of `read_with_callback` over a memory that does not change meanwhile.  Out-of-line bytes are
      resolved up front, and still a dirty serial sends the reader to the backup. */
  function ReadValue(m: Str, q: nat): AreaResult<Str>
  {
    if !ObjectAt(m, q, INFO_HEADER) then Err(Corrupt)
    else
      var serial := Word(m, DATA + q);
      if IsLong(serial) && LongValue(m, q).Err? then LongValue(m, q)
      else if IsDirty(serial) then
        var len := Min(LengthOf(serial), PROP_VALUE_MAX - 1);
        if DATA + BACKUP + len > |m| then Err(Corrupt) else Ok(m[DATA + BACKUP..DATA + BACKUP + len])
      else if IsLong(serial) then LongValue(m, q)
      else Ok(UpToNul(m, DATA + q + 4, PROP_VALUE_MAX))
  }

  /** `get_with_result`. */
  function Get(m: Str, name: Str): AreaResult<Str>
  {
    var q :- FindFrom(m, 0, name);
    ReadValue(m, q)
  }

  /** On any bytes at all a lookup ends, and what it finds lies within the memory. */
  lemma {:induction false} FoundInBounds(m: Str, cur: nat, rest: Str)
    ensures var r := FindFrom(m, cur, rest); r.Ok? ==> ObjectAt(m, r.value, INFO_HEADER)
    decreases |rest|
  {
    hide ObjectAt, LinkAt, FindInLevel, MaxSteps;
    var sep := IndexOf(rest, DOT);
    if sep.Some? && sep.value > 0 && ObjectAt(m, cur, NODE_HEADER) && LinkAt(m, cur, Children) != 0 {
      var next := FindInLevel(m, LinkAt(m, cur, Children), rest[..sep.value], MaxSteps(m) + 1);
      if next.Ok? {
        FoundInBounds(m, next.value, rest[sep.value + 1..]);
      }
    }
  }

  // ---------------------------------------------------------------- a memory that holds an area

  predicate NodeIn(m: Str, o: nat, n: NodeRec)
  {
    DATA + o + NODE_HEADER <= |m|
    && Word(m, DATA + o + 4) == n.prop && Word(m, DATA + o + 8) == n.left
    && Word(m, DATA + o + 12) == n.right && Word(m, DATA + o + 16) == n.children
    && (o != 0 ==> Word(m, DATA + o) == |NameOf(n)| && Sub(m, DATA + o + NODE_HEADER, NameOf(n) + [0]))
  }

  predicate InfoIn(m: Str, q: nat, i: InfoRec)
  {
    Sub(m, DATA + q + INFO_HEADER, i.name + [0])
    && if Stored(i)
       then Word(m, DATA + q) == ShortSerial(|i.value|, i.updates) && Sub(m, DATA + q + 4, i.value + [0])
       else Word(m, DATA + q) == LONG_SERIAL && Word(m, DATA + q + LONG_OFFSET) == InfoSize(i.name)
            && Sub(m, DATA + q + InfoSize(i.name), i.value + [0])
  }

  /** An entry while it is rewritten: the serial is odd, the backup slot has the value, and the value slot
      may hold anything. */
  predicate DirtyIn(m: Str, q: nat, i: InfoRec)
  {
    Stored(i) && Sub(m, DATA + q + INFO_HEADER, i.name + [0]) && Sub(m, DATA + BACKUP, i.value + [0])
    && Word(m, DATA + q) == Dirty(ShortSerial(|i.value|, i.updates))
  }

  /** The records in bytes, counted from the start of the memory: a node has the length of its name, its entry, its
      left and right neighbours and its children, then its name; an entry has its serial, 92 bytes for a value, or in
      the last of them the distance to a longer one, then its name.  The backup slot starts at byte 148. */
  lemma {:induction false} RecordsInBytes(m: Str, o: nat, n: NodeRec, i: InfoRec)
    ensures NodeIn(m, o, n) <==>
              o + 148 <= |m|
              && Word(m, o + 132) == n.prop && Word(m, o + 136) == n.left && Word(m, o + 140) == n.right && Word(m, o + 144) == n.children
              && (o != 0 ==> Word(m, o + 128) == |NameOf(n)| && Sub(m, o + 148, NameOf(n) + [0]))
    ensures InfoIn(m, o, i) <==>
              Sub(m, o + 224, i.name + [0])
              && if |i.value| <= 91
                 then Word(m, o + 128) == 16_777_216 * |i.value| + 2 * (i.updates % 32_768) && Sub(m, o + 132, i.value + [0])
                 else Word(m, o + 128) == 16_777_216 * 50 + 65_536 && Word(m, o + 188) == (|i.name| + 100) / 4 * 4
                      && Sub(m, o + 128 + (|i.name| + 100) / 4 * 4, i.value + [0])
    ensures DirtyIn(m, o, i) <==>
              |i.value| <= 91 && Sub(m, o + 224, i.name + [0]) && Sub(m, 148, i.value + [0])
              && Word(m, o + 128) == 16_777_216 * |i.value| + 2 * (i.updates % 32_768) + 1
  {
    hide Word, ShortSerial, Dirty;
    SerialInNumbers(|i.value|, i.updates);
    Align4ClosedForm(INFO_HEADER + |i.name| + 1);
  }

  ghost predicate NodesIn(m: Str, sh: Shape)
  {
    DATA + sh.used <= |m| && forall o :: o in sh.nodes ==> NodeIn(m, o, sh.nodes[o])
  }

  ghost predicate InfosIn(m: Str, sh: Shape)
  {
    forall q :: q in sh.infos ==> InfoIn(m, q, sh.infos[q])
  }

  ghost predicate Holds(m: Str, sh: Shape)
  {
    NodesIn(m, sh) && InfosIn(m, sh)
  }

  /** A memory that holds an area, but for the entry that is `busy` being rewritten. */
  ghost predicate HoldsBut(m: Str, sh: Shape, busy: Option<nat>)
  {
    NodesIn(m, sh) && (busy.Some? ==> busy.value in sh.infos)
    && forall q :: q in sh.infos ==> if busy == Some(q) then DirtyIn(m, q, sh.infos[q]) else InfoIn(m, q, sh.infos[q])
  }

  // ---------------------------------------------------------------- stores elsewhere

  /** The bytes `[lo, hi)` belong to no published object. */
  ghost predicate Unpublished(sh: Shape, lo: nat, hi: nat)
  {
    forall a: nat :: IsObject(sh, a) ==> DATA + EndOf(sh, a) <= lo || hi <= DATA + a
  }

  lemma {:induction false} NodeInAgrees(m: Str, m': Str, lo: nat, hi: nat, o: nat, n: NodeRec)
    requires NodeIn(m, o, n) && Agree(m, m', lo, hi)
    requires DATA + (if o == 0 then NODE_HEADER else o + NodeSize(NameOf(n))) <= lo || hi <= DATA + o
    ensures NodeIn(m', o, n)
  {
    hide Agree, Word, Sub;
    assert |m'| == |m| by { SameLength(m, m', lo, hi); }
    WordAgrees(m, m', lo, hi, DATA + o);
    WordAgrees(m, m', lo, hi, DATA + o + 4);
    WordAgrees(m, m', lo, hi, DATA + o + 8);
    WordAgrees(m, m', lo, hi, DATA + o + 12);
    WordAgrees(m, m', lo, hi, DATA + o + 16);
    if o != 0 {
      SubAgrees(m, m', lo, hi, DATA + o + NODE_HEADER, NameOf(n) + [0]);
    }
  }

  lemma {:induction false} SameLength(m: Str, m': Str, lo: int, hi: int)
    requires Agree(m, m', lo, hi)
    ensures |m'| == |m|
  {
  }

  lemma {:induction false} InfoInAgrees(m: Str, m': Str, lo: nat, hi: nat, q: nat, i: InfoRec)
    requires InfoIn(m, q, i) && Agree(m, m', lo, hi)
    requires DATA + q + InfoExtent(i.name, i.value) <= lo || hi <= DATA + q
    ensures InfoIn(m', q, i)
  {
    hide Agree, Word, Sub;
    assert |m'| == |m| by { SameLength(m, m', lo, hi); }
    SubBounds(m, DATA + q + INFO_HEADER, i.name + [0]);
    SubAgrees(m, m', lo, hi, DATA + q + INFO_HEADER, i.name + [0]);
    WordAgrees(m, m', lo, hi, DATA + q);
    if Stored(i) {
      SubAgrees(m, m', lo, hi, DATA + q + 4, i.value + [0]);
    } else {
      WordAgrees(m, m', lo, hi, DATA + q + LONG_OFFSET);
      SubAgrees(m, m', lo, hi, DATA + q + InfoSize(i.name), i.value + [0]);
    }
  }

  /** Stores outside the published objects are invisible. */
  lemma {:induction false} HoldsAgrees(m: Str, m': Str, lo: nat, hi: nat, sh: Shape)
    requires Holds(m, sh) && WellFormed(sh) && Agree(m, m', lo, hi) && Unpublished(sh, lo, hi)
    ensures Holds(m', sh)
  {
    hide Agree, NodeIn, InfoIn, NodeOk, InfoOk, Align4, Aligned;
    SameLength(m, m', lo, hi);
    forall o | o in sh.nodes ensures NodeIn(m', o, sh.nodes[o]) {
      assert IsObject(sh, o);
      NodeInAgrees(m, m', lo, hi, o, sh.nodes[o]);
    }
    forall q | q in sh.infos ensures InfoIn(m', q, sh.infos[q]) {
      assert IsObject(sh, q);
      assert InfoOk(sh, q);
      FirstIsNotZero(sh, q);
      InfoInAgrees(m, m', lo, hi, q, sh.infos[q]);
    }
  }

  lemma {:induction false} FirstIsNotZero(sh: Shape, q: nat)
    requires q in sh.infos && InfoOk(sh, q)
    ensures q != 0
  {
  }

  /** Stores inside one published object leave the others alone. */
  lemma {:induction false} OthersAgree(m: Str, m': Str, a: nat, sh: Shape)
    requires Holds(m, sh) && WellFormed(sh) && IsObject(sh, a) && Agree(m, m', DATA + a, DATA + EndOf(sh, a))
    ensures |m'| == |m|
    ensures forall o :: o in sh.nodes && o != a ==> NodeIn(m', o, sh.nodes[o])
    ensures forall q :: q in sh.infos && q != a ==> InfoIn(m', q, sh.infos[q])
  {
    hide Agree, NodeIn, InfoIn, NodeOk, InfoOk, Align4, Aligned;
    var lo, hi := DATA + a, DATA + EndOf(sh, a);
    SameLength(m, m', lo, hi);
    forall o | o in sh.nodes && o != a ensures NodeIn(m', o, sh.nodes[o]) {
      assert IsObject(sh, o);
      NodeInAgrees(m, m', lo, hi, o, sh.nodes[o]);
    }
    forall q | q in sh.infos && q != a ensures InfoIn(m', q, sh.infos[q]) {
      assert IsObject(sh, q);
      assert InfoOk(sh, q);
      FirstIsNotZero(sh, q);
      InfoInAgrees(m, m', lo, hi, q, sh.infos[q]);
    }
  }

  // ---------------------------------------------------------------- finding in a memory that holds an area

  lemma {:induction false} AlignedData(o: nat)
    ensures Aligned(DATA + o) <==> Aligned(o)
  {
    AlignedTimes4(32);
    AlignedSum(DATA, o);
  }

  lemma {:induction false} NodeReads(m: Str, sh: Shape, o: nat)
    requires NodesIn(m, sh) && WellFormed(sh) && o in sh.nodes
    ensures ObjectAt(m, o, NODE_HEADER) && NodeIn(m, o, sh.nodes[o])
    ensures forall l: Link :: LinkAt(m, o, l) == GetLink(sh.nodes[o], l)
    ensures o != 0 ==> NodeName(m, o) == Ok(NameOf(sh.nodes[o])) && FIRST <= o
  {
    hide WellFormed, Word, Sub, CStr;
    AlignedData(o);
    if o == 0 {
      AlignedData(0);
    } else {
      Placed(sh, o);
      var name := NameOf(sh.nodes[o]);
      var start := DATA + o + NODE_HEADER;
      SubBounds(m, start, name + [0]);
      NameSlice(m, start, name);
    }
  }

  lemma {:induction false} NameSlice(m: Str, start: nat, name: Str)
    requires Sub(m, start, name + [0]) && 0 !in name
    ensures start + |name| + 1 <= |m| && CStr(m[start..start + |name| + 1], 0) == Some(name)
  {
    hide CStr;
    var slice := m[start..start + |name| + 1];
    assert slice[0..|name| + 1] == slice == name + [0];
    CStrOf(slice, 0, name);
  }

  /** On an area the search visits no more nodes than fit: the limit is not reached. */
  lemma {:induction false} LevelReads(m: Str, sh: Shape, o: nat, key: Str, visits: nat)
    requires NodesIn(m, sh) && WellFormed(sh) && o in sh.nodes && o != 0
    requires NODE_HEADER * visits > |m| - DATA - o
    ensures FindInLevel(m, o, key, visits)
         == match Search(sh, o, key) case Hit(at) => Ok(at) case Miss(_, _) => Err(NotFound)
    decreases sh.used - o
  {
    hide WellFormed, CompareName, Search, NodeName, LinkAt, NodeIn, Align4;
    NodeReads(m, sh, o);
    SearchStep(sh, o, key);
    var name := NameOf(sh.nodes[o]);
    assert |m| - DATA - o > 0 && visits > 0;
    if CompareName(key, name) != Equal {
      var turn := Turn(key, name);
      var next := GetLink(sh.nodes[o], turn);
      assert LinkAt(m, o, turn) == next;
      if next != 0 {
        ObjectsApart(sh, o, next);
        LevelReads(m, sh, next, key, visits - 1);
      }
    }
  }

  /** Two nodes of an area lie at least a node record apart. */
  lemma {:induction false} ObjectsApart(sh: Shape, o: nat, next: nat)
    requires WellFormed(sh) && o in sh.nodes && next in sh.nodes && o < next
    ensures o + NODE_HEADER <= next
  {
    hide Aligned, WellLinked;
    assert IsObject(sh, o) && IsObject(sh, next);
  }

  lemma {:induction false} StepsSuffice(m: Str, o: nat)
    requires DATA <= |m| && o > 0
    ensures NODE_HEADER * (MaxSteps(m) + 1) > |m| - DATA - o
  {
  }

  /** What reading an absent name may give: only a name with an empty segment can be called bad. */
  predicate Absent<T>(r: AreaResult<T>, name: Str)
  {
    r == Err(NotFound) || (r == Err(BadName) && [] in Segments(name))
  }

  /** The segments ahead of the first empty one. */
  function Front(parts: seq<Str>): (front: seq<Str>)
    ensures front <= parts && [] !in front
  {
    if parts == [] || parts[0] == [] then [] else [parts[0]] + Front(parts[1..])
  }

  /** The error for a name with an empty segment: it is noticed only when the walk gets that far. */
  function MalformedError(sh: Shape, cur: nat, parts: seq<Str>): (e: AreaError)
    requires cur in sh.nodes
    ensures e == BadName || e == NotFound
  {
    if Locate(sh, cur, Front(parts)).Hit? then BadName else NotFound
  }

  /** A memory in which the nodes of an area are there and every entry reads as its value. */
  ghost predicate EntriesRead(m: Str, sh: Shape)
  {
    NodesIn(m, sh) && forall q :: q in sh.infos ==> EntryReads(m, q, sh.infos[q].value)
  }

  predicate EntryReads(m: Str, q: nat, value: Str)
  {
    ObjectAt(m, q, INFO_HEADER) && ReadValue(m, q) == Ok(value)
  }

  lemma {:induction false} EntryFound(m: Str, sh: Shape, o: nat)
    requires EntriesRead(m, sh) && WellFormed(sh) && o in sh.nodes
    ensures EntryAt(m, o) == if sh.nodes[o].prop == 0 then Err(NotFound) else Ok(sh.nodes[o].prop)
  {
    hide WellFormed, LinkAt, NodeIn, InfoIn, Word, Sub, Aligned, ReadValue;
    NodeReads(m, sh, o);
    assert LinkAt(m, o, Prop) == sh.nodes[o].prop;
    if sh.nodes[o].prop != 0 {
      PropLinked(sh, o);
      assert EntryReads(m, sh.nodes[o].prop, sh.infos[sh.nodes[o].prop].value);
    }
  }

  lemma {:induction false} PropLinked(sh: Shape, o: nat)
    requires WellFormed(sh) && o in sh.nodes && sh.nodes[o].prop != 0
    ensures sh.nodes[o].prop in sh.infos && Segments(sh.infos[sh.nodes[o].prop].name) == sh.nodes[o].path
  {
    hide Aligned, Between, CleanName, Segments, LeadsTo;
    Linked(sh, o);
  }

  lemma {:induction false} InfoReads(m: Str, sh: Shape, q: nat)
    requires Holds(m, sh) && WellFormed(sh) && q in sh.infos
    ensures ObjectAt(m, q, INFO_HEADER) && InfoIn(m, q, sh.infos[q]) && FIRST <= q
    ensures 0 !in sh.infos[q].name && 0 !in sh.infos[q].value && q < sh.used
  {
    hide NodeIn, InfoIn, Word, Aligned, NodeOk;
    AlignedData(q);
    assert InfoOk(sh, q);
    assert IsObject(sh, q);
    assert InfoIn(m, q, sh.infos[q]);
    InfoBounds(m, q, sh.infos[q]);
  }

  lemma {:induction false} InfoBounds(m: Str, q: nat, i: InfoRec)
    requires InfoIn(m, q, i)
    ensures DATA + q + INFO_HEADER <= |m|
  {
    hide Word;
  }

  lemma {:induction false} FirstSegment(rest: Str)
    ensures var sep := IndexOf(rest, DOT);
            Segments(rest) == match sep case None => [rest] case Some(i) => [rest[..i]] + Segments(rest[i + 1..])
    ensures [] in Segments(rest) <==>
              match IndexOf(rest, DOT) case None => rest == [] case Some(i) => i == 0 || [] in Segments(rest[i + 1..])
  {
  }

  lemma {:induction false} LocateStep(sh: Shape, cur: nat, sub: Str, more: seq<Str>)
    requires cur in sh.nodes
    ensures Locate(sh, cur, [sub] + more)
         == match Level(sh, cur, sub)
            case Miss(p, l) => Miss(p, l)
            case Hit(o) => if o in sh.nodes then Locate(sh, o, more) else Miss(cur, Children)
  {
    hide Level;
    assert ([sub] + more)[1..] == more;
  }

  lemma {:induction false} NothingLeft(sh: Shape, cur: nat)
    requires cur in sh.nodes
    ensures Locate(sh, cur, []) == Hit(cur)
  {
  }

  /** One level of `find` on a memory that holds an area. */
  lemma {:induction false} FindLevelReads(m: Str, sh: Shape, cur: nat, sub: Str)
    requires EntriesRead(m, sh) && WellFormed(sh) && cur in sh.nodes
    ensures ObjectAt(m, cur, NODE_HEADER)
    ensures var c := LinkAt(m, cur, Children);
            match Level(sh, cur, sub)
            case Miss(_, _) => c == 0 || FindInLevel(m, c, sub, MaxSteps(m) + 1) == Err(NotFound)
            case Hit(o) => c != 0 && o in sh.nodes && FindInLevel(m, c, sub, MaxSteps(m) + 1) == Ok(o)
  {
    hide WellFormed, LinkAt, NodeIn, Word, Aligned, Search, FindInLevel, CompareName, EntriesRead, MaxSteps;
    assert NodesIn(m, sh) by { ReadNodes(m, sh); }
    NodeReads(m, sh, cur);
    ChildrenLinked(sh, cur);
    var c := sh.nodes[cur].children;
    assert LinkAt(m, cur, Children) == c;
    if c != 0 {
      StepsSuffice(m, c);
      LevelReads(m, sh, c, sub, MaxSteps(m) + 1);
      SearchMisses(sh, c, sub);
    }
  }

  lemma {:induction false} MalformedStep(sh: Shape, cur: nat, sub: Str, more: seq<Str>)
    requires cur in sh.nodes
    ensures sub == [] ==> MalformedError(sh, cur, [sub] + more) == BadName
    ensures sub != [] && Level(sh, cur, sub).Miss? ==> MalformedError(sh, cur, [sub] + more) == NotFound
    ensures sub != [] && Level(sh, cur, sub).Hit? && Level(sh, cur, sub).at in sh.nodes ==>
              MalformedError(sh, cur, [sub] + more) == MalformedError(sh, Level(sh, cur, sub).at, more)
  {
    hide Level;
    assert ([sub] + more)[1..] == more;
    if sub != [] {
      LocateStep(sh, cur, sub, Front(more));
    }
  }

  /** `find` on a memory that holds an area finds what the area has, from any node on; and for a name with
      an empty segment it says which of the two errors comes. */
  lemma {:induction false} FindReads(m: Str, sh: Shape, cur: nat, rest: Str)
    requires EntriesRead(m, sh) && WellFormed(sh) && cur in sh.nodes
    ensures var r, spot := FindFrom(m, cur, rest), Locate(sh, cur, Segments(rest));
            if [] in Segments(rest) then r == Err(MalformedError(sh, cur, Segments(rest)))
            else match spot
                 case Miss(_, _) => r == Err(NotFound)
                 case Hit(o) => o in sh.nodes && r == if sh.nodes[o].prop == 0 then Err(NotFound) else Ok(sh.nodes[o].prop)
    decreases |rest|
  {
    hide WellFormed, LinkAt, Level, FindInLevel, EntryAt, EntriesRead, Locate, Segments, ObjectAt, MaxSteps, MalformedError;
    FirstSegment(rest);
    var sep := IndexOf(rest, DOT);
    var sub := match sep case None => rest case Some(i) => rest[..i];
    MalformedStep(sh, cur, sub, match sep case None => [] case Some(i) => Segments(rest[i + 1..]));
    FindLevelReads(m, sh, cur, sub);
    var spot := Level(sh, cur, sub);
    match sep {
      case None =>
        LocateStep(sh, cur, sub, []);
        assert [sub] + [] == [sub];
        if spot.Hit? {
          NothingLeft(sh, spot.at);
          EntryFound(m, sh, spot.at);
        }
      case Some(i) =>
        LocateStep(sh, cur, sub, Segments(rest[i + 1..]));
        if spot.Hit? {
          FindReads(m, sh, spot.at, rest[i + 1..]);
        }
    }
  }

  lemma {:induction false} ReadNodes(m: Str, sh: Shape)
    requires EntriesRead(m, sh)
    ensures NodesIn(m, sh)
  {
  }

  // ---------------------------------------------------------------- reading values

  lemma {:induction false} NameStaysPut(m: Str, m': Str, q: nat, i: InfoRec)
    requires ObjectAt(m, q, INFO_HEADER) && InfoIn(m, q, i) && 0 !in i.name
    requires Agree(m, m', DATA + q + LONG_OFFSET, DATA + q + LONG_OFFSET + 4)
    ensures ObjectAt(m', q, INFO_HEADER) && InfoName(m', q) == Ok(i.name)
  {
    hide Word, CStr, Sub, Aligned, Agree;
    SameLength(m, m', DATA + q + LONG_OFFSET, DATA + q + LONG_OFFSET + 4);
    SubAgrees(m, m', DATA + q + LONG_OFFSET, DATA + q + LONG_OFFSET + 4, DATA + q + INFO_HEADER, i.name + [0]);
    CStrOf(m', DATA + q + INFO_HEADER, i.name);
  }

  /** `m'` differs from `m` in the word of the long offset only, and holds too small an offset there. */
  predicate SmallerOffset(m: Str, m': Str, q: nat, name: Str)
  {
    Agree(m, m', DATA + q + LONG_OFFSET, DATA + q + LONG_OFFSET + 4)
    && DATA + q + LONG_OFFSET + 4 <= |m'| && Word(m', DATA + q + LONG_OFFSET) < InfoSize(name)
  }

  /** Of the offsets an entry could hold for its long value, all below its own size are rejected. */
  lemma {:induction false} SmallOffsetRejected(m: Str, q: nat, name: Str)
    requires ObjectAt(m, q, INFO_HEADER) && InfoName(m, q) == Ok(name)
    ensures Word(m, DATA + q + LONG_OFFSET) < InfoSize(name) ==> LongValue(m, q) == Err(Corrupt)
    ensures LongValue(m, q).Ok? ==> InfoSize(name) <= Word(m, DATA + q + LONG_OFFSET)
  {
  }

  /** Both value encodings read back whole, on either side of the 92-byte boundary.  The offset stored
      for a long value is the least one that `long_property_value` accepts: any other memory that differs
      in that word only, and holds a smaller offset there, gives an error. */
  lemma {:induction false} ValueReads(m: Str, q: nat, i: InfoRec)
    requires ObjectAt(m, q, INFO_HEADER) && InfoIn(m, q, i) && 0 !in i.name && 0 !in i.value
    ensures ReadValue(m, q) == Ok(i.value) && InfoName(m, q) == Ok(i.name)
    ensures !Stored(i) ==> LongValue(m, q) == Ok(i.value) && Word(m, DATA + q + LONG_OFFSET) == InfoSize(i.name)
    ensures forall m' :: SmallerOffset(m, m', q, i.name) ==> LongValue(m', q) == Err(Corrupt)
  {
    hide Word, CStr, Sub, Aligned, UpToNul, Align4, ShortSerial, Agree;
    forall m' | SmallerOffset(m, m', q, i.name) ensures LongValue(m', q) == Err(Corrupt) {
      NameStaysPut(m, m', q, i);
      SmallOffsetRejected(m', q, i.name);
    }
    CStrOf(m, DATA + q + INFO_HEADER, i.name);
    if Stored(i) {
      ShortSerialFields(|i.value|, i.updates);
      UpToNulReads(m, DATA + q + 4, PROP_VALUE_MAX, i.value);
    } else {
      LongSerialFields();
      CStrOf(m, DATA + q + InfoSize(i.name), i.value);
    }
  }

  /** Reading any name gives what the map holds. */
  ghost predicate Reads(m: Str, contents: map<Str, Str>)
  {
    forall n: Str :: if n in contents then Get(m, n) == Ok(contents[n]) else Absent(Get(m, n), n)
  }

  /** Whichever entry is being rewritten, every entry reads as its value. */
  lemma {:induction false} HoldsEntriesRead(m: Str, sh: Shape, busy: Option<nat>)
    requires HoldsBut(m, sh, busy) && WellFormed(sh)
    ensures EntriesRead(m, sh)
  {
    hide WellFormed, NodeIn, InfoIn, DirtyIn, ObjectAt, ReadValue;
    forall q | q in sh.infos ensures EntryReads(m, q, sh.infos[q].value) {
      if busy == Some(q) {
        BusyReads(m, sh, q);
      } else {
        CleanReads(m, sh, q);
      }
    }
  }

  lemma {:induction false} CleanReads(m: Str, sh: Shape, q: nat)
    requires WellFormed(sh) && q in sh.infos && InfoIn(m, q, sh.infos[q])
    ensures EntryReads(m, q, sh.infos[q].value)
  {
    hide InfoIn, Word, Aligned, NodeOk, ReadValue;
    AlignedData(q);
    assert InfoOk(sh, q);
    assert IsObject(sh, q);
    InfoBounds(m, q, sh.infos[q]);
    ValueReads(m, q, sh.infos[q]);
  }

  lemma {:induction false} BusyReads(m: Str, sh: Shape, q: nat)
    requires WellFormed(sh) && q in sh.infos && DirtyIn(m, q, sh.infos[q])
    ensures EntryReads(m, q, sh.infos[q].value)
  {
    hide Word, Aligned, NodeOk, ReadValue, ShortSerial, Dirty;
    AlignedData(q);
    assert InfoOk(sh, q);
    assert IsObject(sh, q);
    DirtyEntryReads(m, q, sh.infos[q]);
  }

  lemma {:induction false} HoldsAll(m: Str, sh: Shape)
    requires Holds(m, sh)
    ensures HoldsBut(m, sh, None)
  {
    hide InfoIn, NodeIn;
  }

  lemma {:induction false} PathIsClean(sh: Shape, o: nat)
    requires WellFormed(sh) && o in sh.nodes
    ensures [] !in sh.nodes[o].path
  {
    hide Between, CleanName, Segments, LeadsTo, PropOk;
    Linked(sh, o);
  }

  lemma {:induction false} GetReads(m: Str, sh: Shape, contents: map<Str, Str>, n: Str)
    requires EntriesRead(m, sh) && WellFormed(sh) && Refines(sh, contents)
    ensures if n in contents then Get(m, n) == Ok(contents[n]) else Absent(Get(m, n), n)
  {
    hide WellFormed, FindFrom, ReadValue, ObjectAt, Segments, Locate, NodesIn;
    FindReads(m, sh, 0, n);
    assert Lookup(sh, n) == At(contents, n);
    LocateFindsPath(sh, 0, Segments(n));
    assert [] + Segments(n) == Segments(n);
    if [] in Segments(n) && Locate(sh, 0, Segments(n)).Hit? {
      PathIsClean(sh, Locate(sh, 0, Segments(n)).at);
    }
    var q := FindEntry(sh, n);
    if q.Some? {
      EntryIsNamed(sh, n);
      assert EntryReads(m, q.value, sh.infos[q.value].value);
    }
  }

  /** A memory that holds an area reads, for every name, as the map the area refines. */
  lemma {:induction false} MemoryReads(m: Str, sh: Shape, contents: map<Str, Str>)
    requires EntriesRead(m, sh) && WellFormed(sh) && Refines(sh, contents)
    ensures Reads(m, contents)
  {
    hide EntriesRead, WellFormed, Refines, Get;
    forall n: Str ensures if n in contents then Get(m, n) == Ok(contents[n]) else Absent(Get(m, n), n) {
      GetReads(m, sh, contents, n);
    }
  }

  // ---------------------------------------------------------------- writing objects

  /** What a reader that does not know about long values finds in the slot of one, padded to 56 bytes. */
  const LONG_LEGACY_ERROR: Str := Ascii("Must use __system_property_read_callback() to read")

  lemma {:induction false} LegacyErrorLength()
    ensures |LONG_LEGACY_ERROR| == LONG_LEGACY_ERROR_LENGTH
  {
  }

  /** A node record as it stands before it is linked in. */
  function Unlinked(path: seq<Str>, lo: Option<Str>, hi: Option<Str>): NodeRec
  {
    NodeRec(path, lo, hi, 0, 0, 0, 0)
  }

  /** The bytes of a node depend on its name and links only. */
  lemma {:induction false} NodeBytesSame(m: Str, o: nat, name: Str, n: NodeRec)
    requires NodeIn(m, o, Unlinked([name], None, None)) && n == Unlinked(n.path, n.lo, n.hi) && NameOf(n) == name
    ensures NodeIn(m, o, n)
  {
    hide Word, Sub;
  }

  /** The stores that write a node, one after the other, add up to a node record. */
  lemma {:induction false} NodeWritten(o: nat, name: Str, m1: Str, m2: Str, m3: Str, m4: Str, m5: Str, m6: Str)
    requires o != 0 && |name| <= U32_MAX
    requires Sub(m1, DATA + o + 4, WordBytes(0))
    requires Agree(m1, m2, DATA + o + 8, DATA + o + 12) && Sub(m2, DATA + o + 8, WordBytes(0))
    requires Agree(m2, m3, DATA + o + 12, DATA + o + 16) && Sub(m3, DATA + o + 12, WordBytes(0))
    requires Agree(m3, m4, DATA + o + 16, DATA + o + 20) && Sub(m4, DATA + o + 16, WordBytes(0))
    requires Agree(m4, m5, DATA + o, DATA + o + 4) && Sub(m5, DATA + o, WordBytes(|name|))
    requires Agree(m5, m6, DATA + o + NODE_HEADER, DATA + o + NODE_HEADER + |name| + 1)
    requires Sub(m6, DATA + o + NODE_HEADER, name + [0])
    ensures NodeIn(m6, o, Unlinked([name], None, None))
  {
    hide Agree, Sub, Word, WordBytes;
    var at, z := DATA + o, WordBytes(0);
    SubAgrees(m1, m2, at + 8, at + 12, at + 4, z);
    SubAgrees(m2, m3, at + 12, at + 16, at + 4, z);
    SubAgrees(m2, m3, at + 12, at + 16, at + 8, z);
    SubAgrees(m3, m4, at + 16, at + 20, at + 4, z);
    SubAgrees(m3, m4, at + 16, at + 20, at + 8, z);
    SubAgrees(m3, m4, at + 16, at + 20, at + 12, z);
    forall l: Link ensures Sub(m6, at + LinkOffset(l), z) {
      SubAgrees(m4, m5, at, at + 4, at + LinkOffset(l), z);
      SubAgrees(m5, m6, at + NODE_HEADER, at + NODE_HEADER + |name| + 1, at + LinkOffset(l), z);
    }
    SubAgrees(m5, m6, at + NODE_HEADER, at + NODE_HEADER + |name| + 1, at, WordBytes(|name|));
    SubOfWord(m6, at, |name|);
    SubOfWord(m6, at + LinkOffset(Prop), 0);
    SubOfWord(m6, at + LinkOffset(Left), 0);
    SubOfWord(m6, at + LinkOffset(Right), 0);
    SubOfWord(m6, at + LinkOffset(Children), 0);
    SubBounds(m6, at + NODE_HEADER, name + [0]);
  }

  /** The stores that write a short entry. */
  lemma {:induction false} ShortWritten(q: nat, name: Str, value: Str, m1: Str, m2: Str, m3: Str)
    requires |value| < PROP_VALUE_MAX
    requires Sub(m1, DATA + q, WordBytes(InitialSerial(|value|)))
    requires Agree(m1, m2, DATA + q + 4, DATA + q + 4 + |value| + 1) && Sub(m2, DATA + q + 4, value + [0])
    requires Agree(m2, m3, DATA + q + INFO_HEADER, DATA + q + INFO_HEADER + |name| + 1)
    requires Sub(m3, DATA + q + INFO_HEADER, name + [0])
    ensures InfoIn(m3, q, InfoRec(name, value, 0))
  {
    hide Agree, Sub, Word, WordBytes;
    var at, w := DATA + q, WordBytes(InitialSerial(|value|));
    SubAgrees(m1, m2, at + 4, at + 4 + |value| + 1, at, w);
    SubAgrees(m2, m3, at + INFO_HEADER, at + INFO_HEADER + |name| + 1, at, w);
    SubAgrees(m2, m3, at + INFO_HEADER, at + INFO_HEADER + |name| + 1, at + 4, value + [0]);
    SubOfWord(m3, at, InitialSerial(|value|));
    InitialIsZeroUpdates(|value|);
  }

  /** The stores that write a long entry: the value, the serial, the legacy message, the offset, the name. */
  lemma {:induction false} LongWritten(q: nat, name: Str, value: Str, m1: Str, m2: Str, m3: Str, m4: Str, m5: Str)
    requires |value| >= PROP_VALUE_MAX && InfoSize(name) <= U32_MAX
    requires Sub(m1, DATA + q + InfoSize(name), value + [0])
    requires Agree(m1, m2, DATA + q, DATA + q + 4) && Sub(m2, DATA + q, WordBytes(LONG_SERIAL))
    requires Agree(m2, m3, DATA + q + 4, DATA + q + LONG_OFFSET)
    requires Agree(m3, m4, DATA + q + LONG_OFFSET, DATA + q + LONG_OFFSET + 4)
    requires Sub(m4, DATA + q + LONG_OFFSET, WordBytes(InfoSize(name)))
    requires Agree(m4, m5, DATA + q + INFO_HEADER, DATA + q + INFO_HEADER + |name| + 1)
    requires Sub(m5, DATA + q + INFO_HEADER, name + [0])
    ensures InfoIn(m5, q, InfoRec(name, value, 0))
  {
    hide Agree, Sub, Word, WordBytes;
    var at, v, long := DATA + q, value + [0], InfoSize(name);
    var w := WordBytes(LONG_SERIAL);
    SubAgrees(m1, m2, at, at + 4, at + long, v);
    SubAgrees(m2, m3, at + 4, at + LONG_OFFSET, at + long, v);
    SubAgrees(m3, m4, at + LONG_OFFSET, at + LONG_OFFSET + 4, at + long, v);
    SubAgrees(m4, m5, at + INFO_HEADER, at + INFO_HEADER + |name| + 1, at + long, v);
    SubAgrees(m2, m3, at + 4, at + LONG_OFFSET, at, w);
    SubAgrees(m3, m4, at + LONG_OFFSET, at + LONG_OFFSET + 4, at, w);
    SubAgrees(m4, m5, at + INFO_HEADER, at + INFO_HEADER + |name| + 1, at, w);
    SubAgrees(m4, m5, at + INFO_HEADER, at + INFO_HEADER + |name| + 1, at + LONG_OFFSET, WordBytes(long));
    LongSerialFields();
    SubOfWord(m5, at, LONG_SERIAL);
    SubOfWord(m5, at + LONG_OFFSET, long);
  }

  // ---------------------------------------------------------------- publishing stores

  /** Storing one link word changes that link and nothing else of the node. */
  lemma {:induction false} LinkStored(m: Str, m': Str, p: nat, n: NodeRec, link: Link, t: nat)
    requires NodeIn(m, p, n) && t <= U32_MAX
    requires Agree(m, m', DATA + p + LinkOffset(link), DATA + p + LinkOffset(link) + 4)
    requires Sub(m', DATA + p + LinkOffset(link), WordBytes(t))
    ensures NodeIn(m', p, SetLink(n, link, t))
  {
    hide Agree, Sub, Word, WordBytes;
    var lo, hi := DATA + p + LinkOffset(link), DATA + p + LinkOffset(link) + 4;
    SameLength(m, m', lo, hi);
    SubOfWord(m', lo, t);
    forall l: Link | l != link ensures Word(m', DATA + p + LinkOffset(l)) == Word(m, DATA + p + LinkOffset(l)) {
      WordAgrees(m, m', lo, hi, DATA + p + LinkOffset(l));
    }
    assert Word(m', DATA + p + LinkOffset(link)) == t;
    assert LinkOffset(Prop) == 4 && LinkOffset(Left) == 8 && LinkOffset(Right) == 12 && LinkOffset(Children) == 16;
    assert Word(m', DATA + p) == Word(m, DATA + p) by { WordAgrees(m, m', lo, hi, DATA + p); }
    if p != 0 {
      SubAgrees(m, m', lo, hi, DATA + p + NODE_HEADER, NameOf(n) + [0]);
    }
  }

  /** The link store that publishes a node. */
  lemma {:induction false} LinkHolds(m: Str, m': Str, sh: Shape, p: nat, link: Link, o: nat, n: NodeRec)
    requires Holds(m, sh) && CanLink(sh, p, link, o, n) && NodeIn(m, o, n) && o <= U32_MAX
    requires Agree(m, m', DATA + p + LinkOffset(link), DATA + p + LinkOffset(link) + 4)
    requires Sub(m', DATA + p + LinkOffset(link), WordBytes(o))
    ensures p in sh.nodes && Holds(m', WithNode(sh, p, link, o, n))
  {
    hide Agree, Sub, WordBytes, NodeIn, InfoIn, WellFormed, Align4, CanLink;
    CanLinkFacts(sh, p, link, o, n);
    KindsApart(sh);
    var lo, hi, sh' := DATA + p + LinkOffset(link), DATA + p + LinkOffset(link) + 4, WithNode(sh, p, link, o, n);
    NodeExtent(sh, p);
    EndsBefore(sh, p, link, o, n);
    AgreeWiden(m, m', lo, hi, DATA + p, DATA + EndOf(sh, p));
    OthersAgree(m, m', p, sh);
    LinkStored(m, m', p, sh.nodes[p], link, o);
    NodeInAgrees(m, m', lo, hi, o, n);
    forall a | a in sh'.nodes ensures NodeIn(m', a, sh'.nodes[a]) {
    }
    forall q | q in sh'.infos ensures InfoIn(m', q, sh'.infos[q]) {
    }
  }

  lemma {:induction false} NodeExtent(sh: Shape, p: nat)
    requires p in sh.nodes
    ensures p + NODE_HEADER <= EndOf(sh, p) && IsObject(sh, p)
  {
  }

  lemma {:induction false} EndsBefore(sh: Shape, p: nat, link: Link, o: nat, n: NodeRec)
    requires CanLink(sh, p, link, o, n)
    ensures p in sh.nodes && EndOf(sh, p) <= o
  {
    hide WellFormed, Align4, Aligned;
    assert IsObject(sh, p);
  }

  /** The one store that makes a property visible. */
  lemma {:induction false} PublishHolds(m: Str, m': Str, sh: Shape, p: nat, q: nat, i: InfoRec)
    requires Holds(m, sh) && CanPublish(sh, p, q, i) && InfoIn(m, q, i) && q <= U32_MAX
    requires Agree(m, m', DATA + p + LinkOffset(Prop), DATA + p + LinkOffset(Prop) + 4)
    requires Sub(m', DATA + p + LinkOffset(Prop), WordBytes(q))
    ensures p in sh.nodes && Holds(m', WithEntry(sh, p, q, i))
  {
    hide Agree, Sub, WordBytes, NodeIn, InfoIn, WellFormed, Align4, CanPublish;
    PublishFacts(sh, p, q, i);
    var lo, hi, sh' := DATA + p + LinkOffset(Prop), DATA + p + LinkOffset(Prop) + 4, WithEntry(sh, p, q, i);
    NodeExtent(sh, p);
    AgreeWiden(m, m', lo, hi, DATA + p, DATA + EndOf(sh, p));
    OthersAgree(m, m', p, sh);
    LinkStored(m, m', p, sh.nodes[p], Prop, q);
    InfoInAgrees(m, m', lo, hi, q, i);
    forall a | a in sh'.nodes ensures NodeIn(m', a, sh'.nodes[a]) {
    }
    forall a | a in sh'.infos ensures InfoIn(m', a, sh'.infos[a]) {
    }
  }

  lemma {:induction false} PublishFacts(sh: Shape, p: nat, q: nat, i: InfoRec)
    requires CanPublish(sh, p, q, i)
    ensures WellFormed(sh) && p in sh.nodes && EndOf(sh, p) <= q && p !in sh.infos && q !in sh.nodes
  {
    hide WellFormed, Align4, Aligned, Locate, Segments;
    FreshIsFree(sh, q);
    assert IsObject(sh, p);
    KindsApart(sh);
  }

  lemma {:induction false} KindsApart(sh: Shape)
    requires WellFormed(sh)
    ensures sh.nodes.Keys !! sh.infos.Keys
  {
  }

  // ---------------------------------------------------------------- updating in place

  /** The backup slot holds the value of the entry at `q`. */
  predicate BackedUp(m: Str, sh: Shape, q: nat)
    requires q in sh.infos
  {
    Sub(m, DATA + BACKUP, sh.infos[q].value + [0])
  }

  /** While an entry is being rewritten, its odd serial sends readers to the backup: the memory still holds
      the area from before the update, whatever the bytes of the value slot are. */
  lemma {:induction false} DirtyReads(m: Str, m': Str, sh: Shape, q: nat)
    requires WellFormed(sh) && Holds(m, sh) && q in sh.infos && Stored(sh.infos[q])
    requires BackedUp(m, sh, q)
    requires Agree(m, m', DATA + q, DATA + q + INFO_HEADER)
    requires var i := sh.infos[q]; Sub(m', DATA + q, WordBytes(Dirty(ShortSerial(|i.value|, i.updates))))
    ensures HoldsBut(m', sh, Some(q)) && EntriesRead(m', sh)
  {
    hide Agree, Sub, Word, WordBytes, NodeIn, InfoIn, WellFormed, Align4, ShortSerial, Dirty, EntriesRead;
    var i := sh.infos[q];
    InfoReads(m, sh, q);
    InfoRange(sh, q);
    SameLength(m, m', DATA + q, DATA + q + INFO_HEADER);
    AgreeWiden(m, m', DATA + q, DATA + q + INFO_HEADER, DATA + q, DATA + EndOf(sh, q));
    OthersAgree(m, m', q, sh);
    KindsApart(sh);
    SubAgrees(m, m', DATA + q, DATA + q + INFO_HEADER, DATA + BACKUP, i.value + [0]);
    NameIn(m, q, i);
    SubAgrees(m, m', DATA + q, DATA + q + INFO_HEADER, DATA + q + INFO_HEADER, i.name + [0]);
    DirtyWord(|i.value|, i.updates);
    SubOfWord(m', DATA + q, Dirty(ShortSerial(|i.value|, i.updates)));
    HoldsEntriesRead(m', sh, Some(q));
  }

  lemma {:induction false} NameIn(m: Str, q: nat, i: InfoRec)
    requires InfoIn(m, q, i)
    ensures Sub(m, DATA + q + INFO_HEADER, i.name + [0])
  {
  }

  lemma {:induction false} DirtyWord(len: nat, updates: nat)
    requires len < PROP_VALUE_MAX
    ensures Dirty(ShortSerial(len, updates)) <= U32_MAX
  {
    hide ShortSerial;
    ShortSerialFields(len, updates);
  }

  lemma {:induction false} InfoRange(sh: Shape, q: nat)
    requires WellFormed(sh) && q in sh.infos
    ensures IsObject(sh, q) && q + INFO_HEADER <= EndOf(sh, q) && FIRST <= q && q !in sh.nodes
  {
    hide Aligned;
    assert InfoOk(sh, q);
  }

  lemma {:induction false} DirtyEntryReads(m: Str, q: nat, i: InfoRec)
    requires ObjectAt(m, q, INFO_HEADER) && DirtyIn(m, q, i)
    ensures EntryReads(m, q, i.value)
  {
    hide Word, Aligned, ShortSerial, IsLong, IsDirty, Dirty, LengthOf, UpToNul, LongValue;
    var serial := ShortSerial(|i.value|, i.updates);
    ShortSerialFields(|i.value|, i.updates);
    DirtyIsDirty(serial);
    assert m[DATA + BACKUP..DATA + BACKUP + |i.value|] == (i.value + [0])[..|i.value|];
  }

  lemma {:induction false} DirtyIsDirty(serial: nat)
    ensures IsDirty(Dirty(serial))
  {
  }

  /** The clean serial completes the update. */
  lemma {:induction false} UpdateHolds(m: Str, m1: Str, m': Str, sh: Shape, q: nat, value: Str)
    requires WellFormed(sh) && Holds(m, sh) && q in sh.infos && Stored(sh.infos[q]) && |value| < PROP_VALUE_MAX
    requires Agree(m, m1, DATA + q, DATA + q + INFO_HEADER) && Sub(m1, DATA + q + 4, value + [0])
    requires Agree(m1, m', DATA + q, DATA + q + 4)
    requires var i := sh.infos[q]; Sub(m', DATA + q, WordBytes(NextSerial(ShortSerial(|i.value|, i.updates), |value|)))
    ensures Holds(m', WithValue(sh, q, value))
  {
    hide Agree, Sub, Word, WordBytes, NodeIn, WellFormed, Align4, ShortSerial, NextSerial;
    var i, sh' := sh.infos[q], WithValue(sh, q, value);
    assert InfoIn(m, q, i);
    InfoRange(sh, q);
    KindsApart(sh);
    AgreeWiden(m1, m', DATA + q, DATA + q + 4, DATA + q, DATA + q + INFO_HEADER);
    AgreeTrans(m, m1, m', DATA + q, DATA + q + INFO_HEADER);
    SameLength(m, m', DATA + q, DATA + q + INFO_HEADER);
    AgreeWiden(m, m', DATA + q, DATA + q + INFO_HEADER, DATA + q, DATA + EndOf(sh, q));
    OthersAgree(m, m', q, sh);
    NextIsOneMoreUpdate(|i.value|, i.updates, |value|);
    ShortSerialFields(|value|, i.updates + 1);
    SubOfWord(m', DATA + q, ShortSerial(|value|, i.updates + 1));
    SubAgrees(m1, m', DATA + q, DATA + q + 4, DATA + q + 4, value + [0]);
    SubAgrees(m, m', DATA + q, DATA + q + INFO_HEADER, DATA + q + INFO_HEADER, i.name + [0]);
    assert InfoIn(m', q, sh'.infos[q]);
    forall a | a in sh'.infos ensures InfoIn(m', a, sh'.infos[a]) {
    }
    forall a | a in sh'.nodes ensures NodeIn(m', a, sh'.nodes[a]) {
    }
  }
}
