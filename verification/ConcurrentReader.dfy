/** A reader in another process (`find` in property_area.rs, `read_with_callback` in system_properties.rs)
    while the store is written under it: each of its loads sees whatever memory is there at that moment.

    The name of a published node does not change, and neither does a long value, so these are loaded as a
    whole here.  Links, serials and the bytes of short values are loaded one by one. */
module ConcurrentReader {
  import opened Base
  import opened Order
  import opened TrieBuilder
  import opened PropertySerial
  import opened PropertyShape
  import opened PropertyMap
  import opened PropertyMemory
  import opened PropertyAreas
  import opened SystemProperty

  /** The result of a walk, and the number of its last load. */
  datatype Walk = Walk(result: AreaResult<nat>, last: nat)

  /** The search of one level from load number `t` on; `see(t)` is the memory that load `t` sees. */
  function LevelWalk(see: nat -> Seen, t: nat, o: nat, key: Str, visits: nat): Walk
    decreases visits
  {
    if visits == 0 || !ObjectAt(see(t).mem, o, NODE_HEADER) then Walk(Err(Corrupt), t)
    else
      match NodeName(see(t).mem, o)
      case Err(e) => Walk(Err(e), t)
      case Ok(name) =>
        if CompareName(key, name) == Equal then Walk(Ok(o), t)
        else if !ObjectAt(see(t + 1).mem, o, NODE_HEADER) then Walk(Err(Corrupt), t + 1)
        else
          var next := LinkAt(see(t + 1).mem, o, Turn(key, name));
          if next == 0 then Walk(Err(NotFound), t + 1) else LevelWalk(see, t + 2, next, key, visits - 1)
  }

  /** The whole search, from the node at `cur` with the name that remains. */
  function FindWalk(see: nat -> Seen, t: nat, cur: nat, rest: Str): Walk
    decreases |rest|
  {
    var sep := IndexOf(rest, DOT);
    var sub := match sep case None => rest case Some(i) => rest[..i];
    if sub == [] then Walk(Err(BadName), t)
    else if !ObjectAt(see(t).mem, cur, NODE_HEADER) then Walk(Err(Corrupt), t)
    else if LinkAt(see(t).mem, cur, Children) == 0 then Walk(Err(NotFound), t)
    else
      var level := LevelWalk(see, t + 1, LinkAt(see(t).mem, cur, Children), sub, MaxSteps(see(t).mem) + 1);
      match level.result
      case Err(e) => level
      case Ok(next) =>
        match sep
        case None => Walk(EntryAt(see(level.last + 1).mem, next), level.last + 1)
        case Some(i) => FindWalk(see, level.last + 1, next, rest[i + 1..])
  }

  /** How an attempt to read a value ends: it gives a result, or the serial has changed. */
  datatype Attempt =
    | Done(result: AreaResult<Str>, start: nat, last: nat)
    | Again(last: nat)

  /** Bytes loaded one by one, and the number of the next load. */
  datatype Copied = Copied(bytes: Str, next: nat)

  /** At most `limit` bytes from `off` on, the first of them with load number `t`; up to a NUL if asked. */
  function Copy(see: nat -> Seen, t: nat, off: nat, limit: nat, upToNul: bool): (c: Copied)
    ensures t <= c.next
    decreases limit
  {
    if limit == 0 || off >= |see(t).mem| then Copied([], t)
    else
      var b := see(t).mem[off];
      if upToNul && b == 0 then Copied([], t + 1)
      else
        var more := Copy(see, t + 1, off + 1, limit - 1, upToNul);
        Copied([b] + more.bytes, more.next)
  }

  /** The check at the end of an attempt. */
  function Recheck(see: nat -> Seen, start: nat, u: nat, q: nat, serial: nat, result: AreaResult<Str>): Attempt
  {
    if DATA + q + 4 <= |see(u).mem| && Word(see(u).mem, DATA + q) == serial then Done(result, start, u) else Again(u)
  }

  /** One pass of the reader's loop over the entry at `q`, from load number `t` on. */
  function AttemptFrom(see: nat -> Seen, t: nat, q: nat): (a: Attempt)
    ensures t <= a.last && (a.Done? ==> a.start == t)
  {
    if !ObjectAt(see(t).mem, q, INFO_HEADER) then Done(Err(Corrupt), t, t)
    else
      var serial := Word(see(t).mem, DATA + q);
      if IsLong(serial) && LongValue(see(t).mem, q).Err? then Done(LongValue(see(t).mem, q), t, t)
      else if IsDirty(serial) then
        var len := Min(LengthOf(serial), PROP_VALUE_MAX - 1);
        if DATA + BACKUP + len > |see(t).mem| then Done(Err(Corrupt), t, t)
        else
          var copied := Copy(see, t + 1, DATA + BACKUP, len, false);
          Recheck(see, t, copied.next, q, serial, Ok(copied.bytes))
      else if IsLong(serial) then Recheck(see, t, t + 1, q, serial, LongValue(see(t).mem, q))
      else
        var copied := Copy(see, t + 1, DATA + q + 4, PROP_VALUE_MAX, true);
        Recheck(see, t, copied.next, q, serial, Ok(copied.bytes))
  }

  /** The loop, given up after some number of repetitions. */
  function ReadFrom(see: nat -> Seen, t: nat, q: nat, repeats: nat): Attempt
    decreases repeats
  {
    var attempt := AttemptFrom(see, t, q);
    match attempt
    case Done(_, _, _) => attempt
    case Again(last) => if repeats == 0 then attempt else ReadFrom(see, last + 1, q, repeats - 1)
  }

  /** Finding and then reading a property. */
  function GetWalk(see: nat -> Seen, name: Str, repeats: nat): Attempt
  {
    var found := FindWalk(see, 0, 0, name);
    match found.result
    case Err(e) => Done(Err(e), found.last, found.last)
    case Ok(q) => ReadFrom(see, found.last + 1, q, repeats)
  }

  // ---------------------------------------------------------------- while the store is written

  /** What the loads see are areas, each of which keeps what the ones before it have. */
  ghost predicate Steady(see: nat -> Seen)
  {
    (forall t: nat :: WellFormed(see(t).shape) && HoldsBut(see(t).mem, see(t).shape, see(t).busy))
    && forall t: nat, u: nat :: t <= u ==> Onward(see(t), see(u))
  }

  lemma {:induction false} At(see: nat -> Seen, t: nat)
    requires Steady(see)
    ensures WellFormed(see(t).shape) && HoldsBut(see(t).mem, see(t).shape, see(t).busy)
    ensures EntriesRead(see(t).mem, see(t).shape) && NodesIn(see(t).mem, see(t).shape)
  {
    hide WellFormed, Onward, EntriesRead, NodeIn, InfoIn, DirtyIn;
    HoldsEntriesRead(see(t).mem, see(t).shape, see(t).busy);
  }

  /** A node stays, with its name and the links that it has. */
  lemma {:induction false} NodeStays(see: nat -> Seen, t: nat, u: nat, o: nat)
    requires Steady(see) && t <= u && o in see(t).shape.nodes
    ensures |see(t).mem| == |see(u).mem| && o in see(u).shape.nodes
    ensures var n, n' := see(t).shape.nodes[o], see(u).shape.nodes[o];
            n'.path == n.path && forall l: Link :: GetLink(n, l) != 0 ==> GetLink(n', l) == GetLink(n, l)
  {
    hide WellFormed, HoldsBut, EntryOnward;
    assert Onward(see(t), see(u));
    assert NodeGrows(see(t).shape.nodes[o], see(u).shape.nodes[o]);
  }

  /** A level's walk gives what the search gives in the memory that its last load sees. */
  lemma {:induction false} LevelWalkReads(see: nat -> Seen, t: nat, o: nat, key: Str, visits: nat)
    requires Steady(see) && o in see(t).shape.nodes && o != 0
    requires NODE_HEADER * visits > |see(t).mem| - DATA - o
    ensures var w := LevelWalk(see, t, o, key, visits);
            t <= w.last && o in see(w.last).shape.nodes
            && w.result == match Search(see(w.last).shape, o, key) case Hit(at) => Ok(at) case Miss(_, _) => Err(NotFound)
    decreases visits
  {
    hide Steady, WellFormed, EntriesRead, HoldsBut, CompareName, Search, NodeName, LinkAt, ObjectAt, Aligned, NodesIn;
    At(see, t);
    At(see, t + 1);
    NodeReads(see(t).mem, see(t).shape, o);
    NodeStays(see, t, t + 1, o);
    NodeReads(see(t + 1).mem, see(t + 1).shape, o);
    SearchStep(see(t).shape, o, key);
    SearchStep(see(t + 1).shape, o, key);
    var name := NameOf(see(t).shape.nodes[o]);
    NodeFits(see(t).mem, see(t).shape, o);
    if CompareName(key, name) != Equal {
      var turn := Turn(key, name);
      var next := GetLink(see(t + 1).shape.nodes[o], turn);
      if next != 0 {
        NodeStays(see, t + 1, t + 2, next);
        ObjectsApart(see(t + 1).shape, o, next);
        LevelWalkReads(see, t + 2, next, key, visits - 1);
        var last := LevelWalk(see, t + 2, next, key, visits - 1).last;
        NodeStays(see, t + 1, last, o);
        At(see, last);
        SearchStep(see(last).shape, o, key);
      }
    }
  }

  lemma {:induction false} NodeFits(m: Str, sh: Shape, o: nat)
    requires NodesIn(m, sh) && o in sh.nodes
    ensures |m| - DATA - o > 0
  {
    hide Word, Sub;
    assert NodeIn(m, o, sh.nodes[o]);
  }

  /** What a search has found it finds again. */
  lemma {:induction false} HitStays(see: nat -> Seen, t: nat, u: nat, o: nat, key: Str)
    requires Steady(see) && t <= u && o in see(t).shape.nodes && o != 0 && Search(see(t).shape, o, key).Hit?
    ensures o in see(u).shape.nodes && Search(see(u).shape, o, key) == Search(see(t).shape, o, key)
    decreases see(t).shape.used - o
  {
    hide Steady, WellFormed, EntriesRead, HoldsBut, CompareName, Search, NodesIn;
    At(see, t);
    At(see, u);
    NodeStays(see, t, u, o);
    SearchStep(see(t).shape, o, key);
    SearchStep(see(u).shape, o, key);
    var name := NameOf(see(t).shape.nodes[o]);
    if CompareName(key, name) != Equal {
      HitStays(see, t, u, GetLink(see(t).shape.nodes[o], Turn(key, name)), key);
    }
  }

  /** One level of the search in one memory. */
  lemma {:induction false} LevelInMemory(see: nat -> Seen, t: nat, u: nat, cur: nat, sub: Str)
    requires Steady(see) && t <= u && cur in see(t).shape.nodes && see(t).shape.nodes[cur].children != 0
    ensures ObjectAt(see(u).mem, cur, NODE_HEADER)
    ensures var root := see(t).shape.nodes[cur].children;
            LinkAt(see(u).mem, cur, Children) == root && root in see(u).shape.nodes
            && FindInLevel(see(u).mem, root, sub, MaxSteps(see(u).mem) + 1)
            == match Search(see(u).shape, root, sub) case Hit(at) => Ok(at) case Miss(_, _) => Err(NotFound)
  {
    hide Steady, WellFormed, EntriesRead, HoldsBut, Search, NodesIn, LinkAt, ObjectAt, FindInLevel, MaxSteps;
    At(see, u);
    NodeStays(see, t, u, cur);
    NodeReads(see(u).mem, see(u).shape, cur);
    ChildrenLinked(see(u).shape, cur);
    var root := see(t).shape.nodes[cur].children;
    assert GetLink(see(t).shape.nodes[cur], Children) == root;
    assert LinkAt(see(u).mem, cur, Children) == GetLink(see(u).shape.nodes[cur], Children);
    StepsSuffice(see(u).mem, root);
    LevelReads(see(u).mem, see(u).shape, root, sub, MaxSteps(see(u).mem) + 1);
  }

  /** One level of the search in one memory. */
  lemma {:induction false} FindFromStep(m: Str, cur: nat, rest: Str, root: nat, sub: Str, level: AreaResult<nat>)
    requires sub == (match IndexOf(rest, DOT) case None => rest case Some(i) => rest[..i]) && sub != []
    requires ObjectAt(m, cur, NODE_HEADER) && LinkAt(m, cur, Children) == root && root != 0
    requires level == FindInLevel(m, root, sub, MaxSteps(m) + 1)
    ensures FindFrom(m, cur, rest)
         == if level.Err? then level
            else match IndexOf(rest, DOT)
                 case None => EntryAt(m, level.value)
                 case Some(i) => FindFrom(m, level.value, rest[i + 1..])
  {
    hide IndexOf, ObjectAt, LinkAt, FindInLevel, MaxSteps, EntryAt;
  }

  lemma {:induction false} FindWalkStep(see: nat -> Seen, t: nat, cur: nat, rest: Str, root: nat, sub: Str, level: Walk)
    requires sub == (match IndexOf(rest, DOT) case None => rest case Some(i) => rest[..i]) && sub != []
    requires ObjectAt(see(t).mem, cur, NODE_HEADER) && LinkAt(see(t).mem, cur, Children) == root && root != 0
    requires level == LevelWalk(see, t + 1, root, sub, MaxSteps(see(t).mem) + 1)
    ensures FindWalk(see, t, cur, rest)
         == if level.result.Err? then level
            else match IndexOf(rest, DOT)
                 case None => Walk(EntryAt(see(level.last + 1).mem, level.result.value), level.last + 1)
                 case Some(i) => FindWalk(see, level.last + 1, level.result.value, rest[i + 1..])
  {
    hide IndexOf, ObjectAt, LinkAt, LevelWalk, MaxSteps, EntryAt;
  }

  /** A search through moving memory gives what a search gives in the one memory that its last load sees. */
  lemma {:induction false} FindWalkReads(see: nat -> Seen, t: nat, cur: nat, rest: Str)
    requires Steady(see) && cur in see(t).shape.nodes
    ensures var w := FindWalk(see, t, cur, rest); t <= w.last && w.result == FindFrom(see(w.last).mem, cur, rest)
    decreases |rest|, 1
  {
    hide Steady, WellFormed, EntriesRead, HoldsBut, Search, NodesIn, LinkAt, ObjectAt, FindInLevel, MaxSteps, LevelWalk, EntryAt,
         IndexOf, FindWalk, FindFrom;
    At(see, t);
    NodeReads(see(t).mem, see(t).shape, cur);
    var root := see(t).shape.nodes[cur].children;
    assert LinkAt(see(t).mem, cur, Children) == GetLink(see(t).shape.nodes[cur], Children) == root;
    var sub := match IndexOf(rest, DOT) case None => rest case Some(i) => rest[..i];
    if sub == [] || root == 0 {
      NoLevel(see, t, cur, rest);
    } else {
      StartLevel(see, t, cur, sub);
      var level := LevelWalk(see, t + 1, root, sub, MaxSteps(see(t).mem) + 1);
      FindWalkStep(see, t, cur, rest, root, sub, level);
      if level.result.Err? {
        LevelInMemory(see, t, level.last, cur, sub);
        FindFromStep(see(level.last).mem, cur, rest, root, sub, level.result);
      } else {
        FindWalkOn(see, t, cur, rest, root, sub, level);
      }
    }
  }

  /** The search from the level found on. */
  lemma {:induction false} FindWalkOn(see: nat -> Seen, t: nat, cur: nat, rest: Str, root: nat, sub: Str, level: Walk)
    requires Steady(see) && cur in see(t).shape.nodes && root == see(t).shape.nodes[cur].children && root != 0
    requires sub == (match IndexOf(rest, DOT) case None => rest case Some(i) => rest[..i]) && sub != []
    requires t < level.last && root in see(level.last).shape.nodes && level.result.Ok?
    requires Search(see(level.last).shape, root, sub) == Hit(level.result.value)
    requires FindWalk(see, t, cur, rest)
          == match IndexOf(rest, DOT)
             case None => Walk(EntryAt(see(level.last + 1).mem, level.result.value), level.last + 1)
             case Some(i) => FindWalk(see, level.last + 1, level.result.value, rest[i + 1..])
    ensures var w := FindWalk(see, t, cur, rest); t <= w.last && w.result == FindFrom(see(w.last).mem, cur, rest)
    decreases |rest|, 0
  {
    hide Steady, WellFormed, EntriesRead, HoldsBut, Search, NodesIn, LinkAt, ObjectAt, FindInLevel, MaxSteps, LevelWalk, EntryAt,
         IndexOf, FindWalk, FindFrom;
    var next, u := level.result.value, level.last + 1;
    LevelFound(see, t, level.last, u, cur, sub);
    match IndexOf(rest, DOT)
    case None => FindFromStep(see(u).mem, cur, rest, root, sub, level.result);
    case Some(i) =>
      FindWalkReads(see, u, next, rest[i + 1..]);
      var last := FindWalk(see, u, next, rest[i + 1..]).last;
      LevelFound(see, t, level.last, last, cur, sub);
      FindFromStep(see(last).mem, cur, rest, root, sub, level.result);
  }

  lemma {:induction false} NoLevel(see: nat -> Seen, t: nat, cur: nat, rest: Str)
    requires ObjectAt(see(t).mem, cur, NODE_HEADER)
    requires (match IndexOf(rest, DOT) case None => rest case Some(i) => rest[..i]) == [] || LinkAt(see(t).mem, cur, Children) == 0
    ensures FindWalk(see, t, cur, rest) == Walk(FindFrom(see(t).mem, cur, rest), t)
  {
    hide IndexOf, ObjectAt, LinkAt, LevelWalk, FindInLevel, MaxSteps, EntryAt;
  }

  lemma {:induction false} StartLevel(see: nat -> Seen, t: nat, cur: nat, sub: Str)
    requires Steady(see) && cur in see(t).shape.nodes && see(t).shape.nodes[cur].children != 0
    ensures var root := see(t).shape.nodes[cur].children;
            var w := LevelWalk(see, t + 1, root, sub, MaxSteps(see(t).mem) + 1);
            root != 0 && t < w.last && root in see(w.last).shape.nodes
            && w.result == match Search(see(w.last).shape, root, sub) case Hit(at) => Ok(at) case Miss(_, _) => Err(NotFound)
  {
    hide Steady, WellFormed, EntriesRead, HoldsBut, Search, NodesIn, MaxSteps, LevelWalk;
    At(see, t);
    ChildrenLinked(see(t).shape, cur);
    var root := see(t).shape.nodes[cur].children;
    NodeStays(see, t, t + 1, root);
    assert DATA <= |see(t).mem| by { NodeFits(see(t).mem, see(t).shape, root); }
    StepsSuffice(see(t).mem, root);
    LevelWalkReads(see, t + 1, root, sub, MaxSteps(see(t).mem) + 1);
  }

  /** What a level's search has found, it finds in every later memory. */
  lemma {:induction false} LevelFound(see: nat -> Seen, t: nat, l: nat, u: nat, cur: nat, sub: Str)
    requires Steady(see) && t <= l <= u && cur in see(t).shape.nodes && see(t).shape.nodes[cur].children != 0
    requires var root := see(t).shape.nodes[cur].children;
             root in see(l).shape.nodes && Search(see(l).shape, root, sub).Hit?
    ensures ObjectAt(see(u).mem, cur, NODE_HEADER)
    ensures var root := see(t).shape.nodes[cur].children;
            var next := Search(see(l).shape, root, sub).at;
            LinkAt(see(u).mem, cur, Children) == root && next in see(u).shape.nodes
            && FindInLevel(see(u).mem, root, sub, MaxSteps(see(u).mem) + 1) == Ok(next)
  {
    hide Steady, WellFormed, EntriesRead, HoldsBut, Search, NodesIn, LinkAt, ObjectAt, FindInLevel, MaxSteps;
    var root := see(t).shape.nodes[cur].children;
    LevelInMemory(see, t, u, cur, sub);
    HitStays(see, l, u, root, sub);
    At(see, u);
    SearchMisses(see(u).shape, root, sub);
  }

  // ---------------------------------------------------------------- one attempt

  /** The serial of an entry that is, or is not, being rewritten. */
  function SerialNow(i: InfoRec, rewriting: bool): nat
  {
    if !Stored(i) then LONG_SERIAL
    else if rewriting then Dirty(ShortSerial(|i.value|, i.updates)) else ShortSerial(|i.value|, i.updates)
  }

  lemma {:induction false} SerialHeld(m: Str, sh: Shape, busy: Option<nat>, q: nat)
    requires WellFormed(sh) && HoldsBut(m, sh, busy) && q in sh.infos
    ensures ObjectAt(m, q, INFO_HEADER) && DATA + q + INFO_HEADER <= |m|
    ensures Word(m, DATA + q) == SerialNow(sh.infos[q], busy == Some(q)) && (busy == Some(q) ==> Stored(sh.infos[q]))
  {
    hide Word, Aligned, NodeOk, ShortSerial, Dirty, NodesIn;
    AlignedData(q);
    assert InfoOk(sh, q);
    assert IsObject(sh, q);
    if busy != Some(q) {
      InfoBounds(m, q, sh.infos[q]);
    } else {
      SubBounds(m, DATA + q + INFO_HEADER, sh.infos[q].name + [0]);
    }
  }

  /** Within less than a period of updates, an unchanged serial means an unchanged entry. */
  lemma {:induction false} SameSerial(i: InfoRec, r: bool, i': InfoRec, r': bool)
    requires EntryOnward(i, r, i', r') && i'.updates - i.updates < COUNTER_PERIOD && (r ==> Stored(i)) && (r' ==> Stored(i'))
    requires SerialNow(i, r) == SerialNow(i', r')
    ensures i' == i && r' == r
  {
    hide ShortSerial, Dirty, IsLong, IsDirty, LengthOf;
    if Stored(i) {
      ShortSerialFields(|i.value|, i.updates);
      ShortSerialFields(|i'.value|, i'.updates);
      LongSerialFields();
      OddIsDirty(ShortSerial(|i.value|, i.updates));
      OddIsDirty(ShortSerial(|i'.value|, i'.updates));
      SerialsCoincide(|i.value|, i.updates, |i'.value|, i'.updates);
    }
  }

  /** From load `t` to load `u` the entry at `q` stays as it is, being rewritten all the time or never. */
  ghost predicate Unchanged(see: nat -> Seen, t: nat, u: nat, q: nat)
  {
    q in see(t).shape.infos
    && forall v: nat :: t <= v <= u ==>
         q in see(v).shape.infos && see(v).shape.infos[q] == see(t).shape.infos[q]
         && (see(v).busy == Some(q) <==> see(t).busy == Some(q))
  }

  lemma {:induction false} EntryKept(see: nat -> Seen, t: nat, u: nat, q: nat)
    requires Steady(see) && t <= u && q in see(t).shape.infos
    ensures q in see(u).shape.infos
    ensures EntryOnward(see(t).shape.infos[q], see(t).busy == Some(q), see(u).shape.infos[q], see(u).busy == Some(q))
  {
    hide WellFormed, HoldsBut, EntryOnward, NodeGrows;
    assert Onward(see(t), see(u));
  }

  lemma {:induction false} UnchangedBetween(see: nat -> Seen, t: nat, u: nat, q: nat)
    requires Steady(see) && t <= u && q in see(t).shape.infos && q in see(u).shape.infos
    requires see(u).shape.infos[q] == see(t).shape.infos[q] && (see(u).busy == Some(q) <==> see(t).busy == Some(q))
    ensures Unchanged(see, t, u, q)
  {
    hide Steady;
    forall v: nat | t <= v <= u
      ensures q in see(v).shape.infos && see(v).shape.infos[q] == see(t).shape.infos[q]
              && (see(v).busy == Some(q) <==> see(t).busy == Some(q))
    {
      EntryKept(see, t, v, q);
      EntryKept(see, v, u, q);
    }
  }

  /** An unchanged serial at the end of an attempt: the entry has not changed within it. */
  lemma {:induction false} SerialTells(see: nat -> Seen, t: nat, u: nat, q: nat)
    requires Steady(see) && t <= u && q in see(t).shape.infos && q in see(u).shape.infos
    requires see(u).shape.infos[q].updates - see(t).shape.infos[q].updates < COUNTER_PERIOD
    requires DATA + q + 4 <= |see(t).mem| && DATA + q + 4 <= |see(u).mem| && Word(see(t).mem, DATA + q) == Word(see(u).mem, DATA + q)
    ensures Unchanged(see, t, u, q)
  {
    hide Steady, WellFormed, HoldsBut, EntryOnward, SerialNow, Word, Unchanged, EntriesRead, NodesIn;
    At(see, t);
    At(see, u);
    SerialHeld(see(t).mem, see(t).shape, see(t).busy, q);
    SerialHeld(see(u).mem, see(u).shape, see(u).busy, q);
    EntryKept(see, t, u, q);
    SameSerial(see(t).shape.infos[q], see(t).busy == Some(q), see(u).shape.infos[q], see(u).busy == Some(q));
    UnchangedBetween(see, t, u, q);
  }

  lemma {:induction false} ByteHeld(m: Str, off: nat, v: Str, k: nat)
    requires Sub(m, off, v + [0]) && k <= |v|
    ensures off + k < |m| && m[off + k] == (v + [0])[k]
  {
    assert m[off..off + |v| + 1][k] == m[off + k];
  }

  /** The bytes copied from the slot of an entry that does not change meanwhile are its value. */
  lemma {:induction false} SlotCopied(see: nat -> Seen, t: nat, v: nat, q: nat, k: nat)
    requires Steady(see) && t <= v && q in see(t).shape.infos && see(t).busy != Some(q) && Stored(see(t).shape.infos[q])
    requires k <= |see(t).shape.infos[q].value|
    requires Unchanged(see, t, Copy(see, v, DATA + q + 4 + k, PROP_VALUE_MAX - k, true).next, q)
    ensures Copy(see, v, DATA + q + 4 + k, PROP_VALUE_MAX - k, true).bytes == see(t).shape.infos[q].value[k..]
    decreases PROP_VALUE_MAX - k
  {
    hide Steady, WellFormed, HoldsBut, EntryOnward, Word, EntriesRead, NodesIn, Unchanged;
    var i := see(t).shape.infos[q];
    UnchangedAt(see, t, v, Copy(see, v, DATA + q + 4 + k, PROP_VALUE_MAX - k, true).next, q);
    SlotHeld(see, v, q);
    ByteHeld(see(v).mem, DATA + q + 4, i.value, k);
    if k < |i.value| {
      assert i.value[k] in i.value;
      SlotCopied(see, t, v + 1, q, k + 1);
      assert i.value[k..] == [i.value[k]] + i.value[k + 1..];
    }
  }

  lemma {:induction false} UnchangedAt(see: nat -> Seen, t: nat, v: nat, u: nat, q: nat)
    requires Unchanged(see, t, u, q) && t <= v <= u
    ensures q in see(v).shape.infos && see(v).shape.infos[q] == see(t).shape.infos[q]
    ensures see(v).busy == Some(q) <==> see(t).busy == Some(q)
  {
  }

  lemma {:induction false} SlotHeld(see: nat -> Seen, v: nat, q: nat)
    requires Steady(see) && q in see(v).shape.infos && see(v).busy != Some(q) && Stored(see(v).shape.infos[q])
    ensures Sub(see(v).mem, DATA + q + 4, see(v).shape.infos[q].value + [0]) && 0 !in see(v).shape.infos[q].value
  {
    hide Steady, Word, EntriesRead, NodesIn, Aligned, Sub, ShortSerial, NodeOk;
    At(see, v);
    assert InfoOk(see(v).shape, q);
  }

  lemma {:induction false} BackupHeld(see: nat -> Seen, v: nat, q: nat)
    requires Steady(see) && q in see(v).shape.infos && see(v).busy == Some(q)
    ensures Stored(see(v).shape.infos[q]) && Sub(see(v).mem, DATA + BACKUP, see(v).shape.infos[q].value + [0])
  {
    hide Steady, Word, EntriesRead, NodesIn, Aligned, Sub, ShortSerial, WellFormed, Dirty;
    At(see, v);
  }

  /** The bytes copied from the backup while an entry is being rewritten are its value. */
  lemma {:induction false} BackupCopied(see: nat -> Seen, t: nat, v: nat, q: nat, k: nat)
    requires Steady(see) && t <= v && q in see(t).shape.infos && see(t).busy == Some(q)
    requires k <= |see(t).shape.infos[q].value|
    requires Unchanged(see, t, Copy(see, v, DATA + BACKUP + k, |see(t).shape.infos[q].value| - k, false).next, q)
    ensures Copy(see, v, DATA + BACKUP + k, |see(t).shape.infos[q].value| - k, false).bytes == see(t).shape.infos[q].value[k..]
    decreases |see(t).shape.infos[q].value| - k
  {
    hide Steady, WellFormed, HoldsBut, EntryOnward, Word, EntriesRead, NodesIn, Unchanged;
    var i := see(t).shape.infos[q];
    UnchangedAt(see, t, v, Copy(see, v, DATA + BACKUP + k, |i.value| - k, false).next, q);
    BackupHeld(see, v, q);
    ByteHeld(see(v).mem, DATA + BACKUP, i.value, k);
    if k < |i.value| {
      BackupCopied(see, t, v + 1, q, k + 1);
      assert i.value[k..] == [i.value[k]] + i.value[k + 1..];
    }
  }

  /** Less than a period of updates of the entry complete from load `t` to load `u`. */
  ghost predicate FewUpdates(see: nat -> Seen, t: nat, u: nat, q: nat)
  {
    q in see(t).shape.infos && q in see(u).shape.infos
    && see(u).shape.infos[q].updates - see(t).shape.infos[q].updates < COUNTER_PERIOD
  }

  /** What an attempt starts from: the serial, and the value where it is not copied byte by byte. */
  lemma {:induction false} AttemptStarts(see: nat -> Seen, t: nat, q: nat)
    requires Steady(see) && q in see(t).shape.infos
    ensures ObjectAt(see(t).mem, q, INFO_HEADER) && DATA + q + 4 <= |see(t).mem| && DATA + FIRST <= |see(t).mem|
    ensures var i, serial := see(t).shape.infos[q], Word(see(t).mem, DATA + q);
            (IsLong(serial) <==> !Stored(i)) && (IsDirty(serial) <==> see(t).busy == Some(q))
            && (see(t).busy == Some(q) ==> Stored(i))
            && (Stored(i) ==> LengthOf(serial) == |i.value|)
            && (!Stored(i) ==> LongValue(see(t).mem, q) == Ok(i.value))
  {
    hide Steady, WellFormed, HoldsBut, Word, EntriesRead, NodesIn, ShortSerial, Dirty, IsLong, IsDirty, LengthOf, LongValue, Aligned;
    var i := see(t).shape.infos[q];
    At(see, t);
    SerialHeld(see(t).mem, see(t).shape, see(t).busy, q);
    InfoRange(see(t).shape, q);
    ShortSerialFields(|i.value|, i.updates);
    OddIsDirty(ShortSerial(|i.value|, i.updates));
    LongSerialFields();
    if !Stored(i) {
      LongHeld(see(t).mem, see(t).shape, see(t).busy, q);
    }
  }

  lemma {:induction false} LongHeld(m: Str, sh: Shape, busy: Option<nat>, q: nat)
    requires WellFormed(sh) && HoldsBut(m, sh, busy) && q in sh.infos && !Stored(sh.infos[q]) && ObjectAt(m, q, INFO_HEADER)
    ensures LongValue(m, q) == Ok(sh.infos[q].value)
  {
    hide Word, NodesIn, ShortSerial, Dirty, LongValue, Aligned, NodeOk, Sub;
    assert InfoOk(sh, q);
    ValueReads(m, q, sh.infos[q]);
  }

  /** An attempt that ends with a result has read the value of its entry, which did not change meanwhile, if
      less than a period of updates was completed within it. */
  lemma {:induction false} AttemptReads(see: nat -> Seen, t: nat, q: nat)
    requires Steady(see) && q in see(t).shape.infos && AttemptFrom(see, t, q).Done?
    requires FewUpdates(see, t, AttemptFrom(see, t, q).last, q)
    ensures AttemptFrom(see, t, q).result == Ok(see(t).shape.infos[q].value)
    ensures Unchanged(see, t, AttemptFrom(see, t, q).last, q)
  {
    hide Steady, Word, IsLong, IsDirty, LengthOf, LongValue, Copy, Unchanged, ObjectAt;
    AttemptStarts(see, t, q);
    SerialTells(see, t, AttemptFrom(see, t, q).last, q);
    var i := see(t).shape.infos[q];
    if see(t).busy == Some(q) {
      BackupCopied(see, t, t + 1, q, 0);
      assert i.value[0..] == i.value;
    } else if Stored(i) {
      SlotCopied(see, t, t + 1, q, 0);
      assert i.value[0..] == i.value;
    }
  }

  /** An attempt during which the entry does not change ends with a result. */
  lemma {:induction false} AttemptSucceeds(see: nat -> Seen, t: nat, q: nat)
    requires Steady(see) && q in see(t).shape.infos && Unchanged(see, t, AttemptFrom(see, t, q).last, q)
    ensures AttemptFrom(see, t, q).Done?
  {
    hide Steady, Word, IsLong, IsDirty, LengthOf, LongValue, Copy, Unchanged, ObjectAt, SerialNow, WellFormed, HoldsBut, EntriesRead,
         NodesIn;
    AttemptStarts(see, t, q);
    var u := AttemptFrom(see, t, q).last;
    UnchangedAt(see, t, u, u, q);
    At(see, t);
    At(see, u);
    SerialHeld(see(t).mem, see(t).shape, see(t).busy, q);
    SerialHeld(see(u).mem, see(u).shape, see(u).busy, q);
  }

  /** So does the loop, from its last attempt on. */
  lemma {:induction false} LoopReads(see: nat -> Seen, t: nat, q: nat, repeats: nat)
    requires Steady(see) && q in see(t).shape.infos
    ensures var w := ReadFrom(see, t, q, repeats);
            w.Done? ==> t <= w.start <= w.last && q in see(w.start).shape.infos
                        && (FewUpdates(see, w.start, w.last, q) ==> w.result == Ok(see(w.start).shape.infos[q].value))
    decreases repeats
  {
    hide Steady, AttemptFrom, FewUpdates, Unchanged;
    var a := AttemptFrom(see, t, q);
    match a
    case Done(_, _, _) =>
      if FewUpdates(see, t, a.last, q) {
        AttemptReads(see, t, q);
      }
    case Again(last) =>
      if repeats > 0 {
        EntryKept(see, t, last + 1, q);
        LoopReads(see, last + 1, q, repeats - 1);
      }
  }

  // ---------------------------------------------------------------- finding and reading

  /** What a walk has found it finds again. */
  lemma {:induction false} LocateStays(see: nat -> Seen, t: nat, u: nat, cur: nat, parts: seq<Str>)
    requires Steady(see) && t <= u && cur in see(t).shape.nodes && Locate(see(t).shape, cur, parts).Hit?
    ensures cur in see(u).shape.nodes && Locate(see(u).shape, cur, parts) == Locate(see(t).shape, cur, parts)
    decreases |parts|
  {
    hide Steady, WellFormed, HoldsBut, EntriesRead, NodesIn, Search;
    NodeStays(see, t, u, cur);
    if parts != [] {
      At(see, t);
      At(see, u);
      ChildrenLinked(see(t).shape, cur);
      ChildrenLinked(see(u).shape, cur);
      var root := see(t).shape.nodes[cur].children;
      assert GetLink(see(t).shape.nodes[cur], Children) == root;
      assert GetLink(see(u).shape.nodes[cur], Children) == see(u).shape.nodes[cur].children;
      HitStays(see, t, u, root, parts[0]);
      NextLevel(see, t, root, parts[0]);
      NextLevel(see, u, root, parts[0]);
      LocateStays(see, t, u, Search(see(t).shape, root, parts[0]).at, parts[1..]);
    }
  }

  lemma {:induction false} NextLevel(see: nat -> Seen, t: nat, root: nat, sub: Str)
    requires Steady(see) && root in see(t).shape.nodes && root != 0 && Search(see(t).shape, root, sub).Hit?
    ensures Search(see(t).shape, root, sub).at in see(t).shape.nodes
  {
    hide Steady, WellFormed, EntriesRead, HoldsBut, Search, NodesIn;
    At(see, t);
    SearchMisses(see(t).shape, root, sub);
  }

  /** An index found is found in every later memory. */
  lemma {:induction false} FoundStays(see: nat -> Seen, t: nat, u: nat, name: Str)
    requires Steady(see) && t <= u && FindFrom(see(t).mem, 0, name).Ok?
    ensures FindFrom(see(u).mem, 0, name) == FindFrom(see(t).mem, 0, name)
    ensures FindFrom(see(t).mem, 0, name).value in see(t).shape.infos
    ensures var q := FindFrom(see(t).mem, 0, name).value; q in see(u).shape.infos && see(u).shape.infos[q].name == name
  {
    hide Steady, WellFormed, HoldsBut, EntriesRead, NodesIn, Locate, Segments, FindFrom;
    At(see, t);
    At(see, u);
    RootIsThere(see(t).shape);
    RootIsThere(see(u).shape);
    FindReads(see(t).mem, see(t).shape, 0, name);
    FindReads(see(u).mem, see(u).shape, 0, name);
    LocateStays(see, t, u, 0, Segments(name));
    var o := Locate(see(t).shape, 0, Segments(name)).at;
    NodeStays(see, t, u, o);
    PropLinked(see(t).shape, o);
    assert GetLink(see(t).shape.nodes[o], Prop) != 0 && GetLink(see(u).shape.nodes[o], Prop) == see(u).shape.nodes[o].prop;
    EntryIsNamed(see(u).shape, name);
  }

  /** Less than a period of updates of the property completes from load `t` to load `u`. */
  ghost predicate UpdatesWithin(see: nat -> Seen, t: nat, u: nat, name: Str)
  {
    forall q :: q in see(t).shape.infos && see(t).shape.infos[q].name == name ==> FewUpdates(see, t, u, q)
  }

  /** A read through changing memory, if it ends with a result, gives what a read gives in the one memory that
      the first load of its last attempt sees: it takes effect at that moment. */
  lemma {:induction false} GetWalkReads(see: nat -> Seen, name: Str, repeats: nat)
    requires Steady(see)
    ensures var w := GetWalk(see, name, repeats);
            w.Done? ==> w.start <= w.last
                        && (UpdatesWithin(see, w.start, w.last, name) ==> w.result == PropertyMemory.Get(see(w.start).mem, name))
  {
    hide Steady, WellFormed, HoldsBut, EntriesRead, FindFrom, ReadValue, FindWalk, NodesIn, ReadFrom, FewUpdates, ObjectAt;
    At(see, 0);
    RootIsThere(see(0).shape);
    FindWalkReads(see, 0, 0, name);
    var found := FindWalk(see, 0, 0, name);
    if found.result.Ok? {
      var q := found.result.value;
      FoundStays(see, found.last, found.last + 1, name);
      EntryKept(see, found.last, found.last + 1, q);
      LoopReads(see, found.last + 1, q, repeats);
      var w := ReadFrom(see, found.last + 1, q, repeats);
      if w.Done? && UpdatesWithin(see, w.start, w.last, name) {
        FoundStays(see, found.last, w.start, name);
        EntryValue(see, w.start, q);
      }
    }
  }

  lemma {:induction false} EntryValue(see: nat -> Seen, t: nat, q: nat)
    requires Steady(see) && q in see(t).shape.infos
    ensures ReadValue(see(t).mem, q) == Ok(see(t).shape.infos[q].value)
  {
    hide Steady, WellFormed, HoldsBut, NodesIn, ReadValue, ObjectAt;
    At(see, t);
    assert EntryReads(see(t).mem, q, see(t).shape.infos[q].value);
  }

  // ---------------------------------------------------------------- during calls of the store

  /** `r` is what the map has for `name`. */
  predicate Answers(r: AreaResult<Str>, contents: map<Str, Str>, name: Str)
  {
    if name in contents then r == Ok(contents[name]) else Absent(r, name)
  }

  lemma {:induction false} ShowsAnswer(seen: Seen, c: map<Str, Str>, name: Str)
    requires Shows(seen, c)
    ensures Answers(PropertyMemory.Get(seen.mem, name), c, name)
  {
    hide Shows, PropertyMemory.Get;
    ShowsReads(seen, c);
  }

  /** Which memory of the log each load sees: the one before the calls or later ones, never going back. */
  ghost predicate Schedule(at: nat -> nat, from: nat, n: nat)
  {
    (forall t: nat :: from <= at(t) < n) && forall t: nat, u: nat :: t <= u ==> at(t) <= at(u)
  }

  function Views(log: seq<Seen>, at: nat -> nat): nat -> Seen
    requires log != []
  {
    (t: nat) => log[if at(t) < |log| then at(t) else |log| - 1]
  }

  /** The memory shows the map after some number of the calls. */
  ghost predicate ShowsAfter(seen: Seen, l: Ledger, calls: seq<Call>, outcomes: seq<bool>)
    requires |calls| == |outcomes|
  {
    exists k: nat :: k <= |calls| && Shows(seen, Fold(l, calls[..k], outcomes[..k]).contents)
  }

  lemma {:induction false} FoldFirst(l: Ledger, calls: seq<Call>, outcomes: seq<bool>, k: nat)
    requires |calls| == |outcomes| && calls != []
    ensures Fold(l, calls[..0], outcomes[..0]) == l
    ensures k < |calls| ==>
              Fold(l, calls[..k + 1], outcomes[..k + 1]) == Fold(After(l, calls[0], outcomes[0]), calls[1..][..k], outcomes[1..][..k])
  {
    hide After;
    if k < |calls| {
      assert calls[..k + 1][1..] == calls[1..][..k] && outcomes[..k + 1][1..] == outcomes[1..][..k];
    }
  }

  lemma {:induction false} LaterShows(seen: Seen, l: Ledger, calls: seq<Call>, outcomes: seq<bool>)
    requires |calls| == |outcomes| && calls != []
    requires ShowsAfter(seen, After(l, calls[0], outcomes[0]), calls[1..], outcomes[1..])
    ensures ShowsAfter(seen, l, calls, outcomes)
  {
    hide After, Shows, Fold;
    var k: nat :| k <= |calls[1..]| && Shows(seen, Fold(After(l, calls[0], outcomes[0]), calls[1..][..k], outcomes[1..][..k]).contents);
    FoldFirst(l, calls, outcomes, k);
    assert k + 1 <= |calls| && Shows(seen, Fold(l, calls[..k + 1], outcomes[..k + 1]).contents);
  }

  lemma {:induction false} FirstShows(seen: Seen, l: Ledger, calls: seq<Call>, outcomes: seq<bool>)
    requires |calls| == |outcomes| && calls != []
    requires Shows(seen, l.contents) || Shows(seen, After(l, calls[0], outcomes[0]).contents)
    ensures ShowsAfter(seen, l, calls, outcomes)
  {
    hide After, Shows, Fold;
    FoldFirst(l, calls, outcomes, 0);
    if Shows(seen, l.contents) {
      assert Shows(seen, Fold(l, calls[..0], outcomes[..0]).contents);
    } else {
      FoldNothing(After(l, calls[0], outcomes[0]));
      assert calls[1..][..0] == [] && outcomes[1..][..0] == [];
      assert 1 <= |calls| && Shows(seen, Fold(l, calls[..1], outcomes[..1]).contents);
    }
  }

  lemma {:induction false} FoldNothing(l: Ledger)
    ensures Fold(l, [], []) == l
  {
  }

  /** Every memory seen during a run shows the map after some number of its calls, and keeps what the ones
      before have. */
  lemma {:induction false} RunShows(before: seq<Seen>, log: seq<Seen>, l: Ledger, calls: seq<Call>, outcomes: seq<bool>)
    requires |calls| == |outcomes| && before != [] && RunLog(before, log, l, calls, outcomes)
    ensures before <= log && Chain(log, |before| - 1)
    ensures forall i :: |before| <= i < |log| ==> ShowsAfter(log[i], l, calls, outcomes)
    decreases |calls|
  {
    hide After, Shows, Fold, Onward, ShowsAfter;
    if calls == [] {
      SameIsOnward(log[|log| - 1], log[|log| - 1]);
    } else {
      var next := After(l, calls[0], outcomes[0]);
      var middle :| Continues(before, middle, l.contents, next.contents) && RunLog(middle, log, next, calls[1..], outcomes[1..]);
      RunShows(middle, log, next, calls[1..], outcomes[1..]);
      ChainTrans(middle, log, |before| - 1);
      forall i | |before| <= i < |log| ensures ShowsAfter(log[i], l, calls, outcomes) {
        if i < |middle| {
          assert log[i] == middle[i];
          FirstShows(log[i], l, calls, outcomes);
        } else {
          LaterShows(log[i], l, calls, outcomes);
        }
      }
    }
  }

  /** What the loads of a reader see during a run is steady. */
  lemma {:induction false} RunIsSteady(before: seq<Seen>, log: seq<Seen>, l: Ledger, calls: seq<Call>, outcomes: seq<bool>, at: nat -> nat)
    requires |calls| == |outcomes| && before != [] && Shows(before[|before| - 1], l.contents)
    requires RunLog(before, log, l, calls, outcomes) && Schedule(at, |before| - 1, |log|)
    ensures log != [] && Steady(Views(log, at))
    ensures forall t: nat :: ShowsAfter(Views(log, at)(t), l, calls, outcomes)
  {
    hide WellFormed, HoldsBut, Refines, Onward, Fold, RunLog;
    RunShows(before, log, l, calls, outcomes);
    var see := Views(log, at);
    forall t: nat
      ensures ShowsAfter(see(t), l, calls, outcomes)
              && WellFormed(see(t).shape) && HoldsBut(see(t).mem, see(t).shape, see(t).busy)
    {
      assert see(t) == log[at(t)];
      if at(t) < |before| {
        assert log[at(t)] == before[|before| - 1];
        NoCallsYet(see(t), l, calls, outcomes);
      }
    }
    forall t: nat, u: nat | t <= u ensures Onward(see(t), see(u)) {
      assert see(t) == log[at(t)] && see(u) == log[at(u)];
    }
  }

  lemma {:induction false} NoCallsYet(seen: Seen, l: Ledger, calls: seq<Call>, outcomes: seq<bool>)
    requires |calls| == |outcomes| && Shows(seen, l.contents)
    ensures ShowsAfter(seen, l, calls, outcomes)
  {
    hide Shows;
    assert calls[..0] == [] && outcomes[..0] == [];
    assert Shows(seen, Fold(l, calls[..0], outcomes[..0]).contents);
  }

  /** A reader whose loads are spread in any way over a run of calls, adds and updates alike, answers as the
      map after some number of the calls, unless a whole period of updates of the property completes within one attempt. */
  lemma {:induction false} AnswersDuringRun(before: seq<Seen>, log: seq<Seen>, l: Ledger, calls: seq<Call>, outcomes: seq<bool>,
                                            at: nat -> nat, name: Str, repeats: nat)
    requires |calls| == |outcomes| && before != [] && Shows(before[|before| - 1], l.contents)
    requires RunLog(before, log, l, calls, outcomes) && Schedule(at, |before| - 1, |log|)
    ensures log != []
    ensures var see := Views(log, at);
            var w := GetWalk(see, name, repeats);
            w.Done? && UpdatesWithin(see, w.start, w.last, name) ==>
              exists k: nat :: k <= |calls| && Answers(w.result, Fold(l, calls[..k], outcomes[..k]).contents, name)
  {
    hide Shows, RunLog, GetWalk, PropertyMemory.Get, Absent, Reads, Steady, Fold, UpdatesWithin, Answers;
    RunIsSteady(before, log, l, calls, outcomes, at);
    var see := Views(log, at);
    GetWalkReads(see, name, repeats);
    var w := GetWalk(see, name, repeats);
    if w.Done? && UpdatesWithin(see, w.start, w.last, name) {
      assert ShowsAfter(see(w.start), l, calls, outcomes);
      var k: nat :| k <= |calls| && Shows(see(w.start), Fold(l, calls[..k], outcomes[..k]).contents);
      ShowsAnswer(see(w.start), Fold(l, calls[..k], outcomes[..k]).contents, name);
    }
  }

  // ---------------------------------------------------------------- while a property is added

  lemma {:induction false} NeverBusy(before: seq<Seen>, log: seq<Seen>, at: nat -> nat, t: nat, q: nat)
    requires before != [] && before <= log && Chain(log, |before| - 1) && Schedule(at, |before| - 1, |log|)
    requires NoUpdates(before[|before| - 1].shape, log[|log| - 1].shape) && log[|log| - 1].busy == None
    requires q in log[at(t)].shape.infos
    ensures q in log[|log| - 1].shape.infos && log[at(t)].shape.infos[q] == log[|log| - 1].shape.infos[q] && log[at(t)].busy != Some(q)
  {
    hide NodeGrows, Stored;
    var first, last := log[|before| - 1], log[|log| - 1];
    assert first == before[|before| - 1];
    assert Onward(log[at(t)], last);
    if q in first.shape.infos {
      assert Onward(first, log[at(t)]);
    }
  }

  lemma {:induction false} AddIsUnchanged(before: seq<Seen>, log: seq<Seen>, at: nat -> nat, t: nat, u: nat, q: nat)
    requires before != [] && before <= log && Chain(log, |before| - 1) && Schedule(at, |before| - 1, |log|)
    requires NoUpdates(before[|before| - 1].shape, log[|log| - 1].shape) && log[|log| - 1].busy == None
    requires Steady(Views(log, at)) && t <= u && q in Views(log, at)(t).shape.infos
    ensures Unchanged(Views(log, at), t, u, q) && FewUpdates(Views(log, at), t, u, q)
  {
    hide Onward, Steady, NoUpdates, Chain;
    var see := Views(log, at);
    forall v: nat | t <= v ensures q in see(v).shape.infos && see(v).shape.infos[q] == see(t).shape.infos[q]
                                   && see(v).busy != Some(q) && see(t).busy != Some(q) {
      EntryKept(see, t, v, q);
      assert see(v) == log[at(v)] && see(t) == log[at(t)];
      NeverBusy(before, log, at, t, q);
      NeverBusy(before, log, at, v, q);
    }
    assert see(u).shape.infos[q] == see(t).shape.infos[q];
  }

  lemma {:induction false} AddIsSteady(before: seq<Seen>, log: seq<Seen>, was: map<Str, Str>, now: map<Str, Str>, at: nat -> nat)
    requires Continues(before, log, was, now) && Schedule(at, |before| - 1, |log|)
    ensures log != [] && Steady(Views(log, at))
    ensures forall t: nat :: Shows(Views(log, at)(t), was) || Shows(Views(log, at)(t), now)
  {
    hide WellFormed, HoldsBut, Refines, Onward;
    var see := Views(log, at);
    forall t: nat ensures Shows(see(t), was) || Shows(see(t), now) {
      assert see(t) == log[at(t)];
      if at(t) < |before| {
        assert log[at(t)] == before[|before| - 1];
      }
    }
    forall t: nat, u: nat | t <= u ensures Onward(see(t), see(u)) {
      assert see(t) == log[at(t)] && see(u) == log[at(u)];
    }
    forall t: nat ensures WellFormed(see(t).shape) && HoldsBut(see(t).mem, see(t).shape, see(t).busy) {
      assert Shows(see(t), was) || Shows(see(t), now);
    }
  }

  /** A reader whose loads are spread over a running `add` never has to repeat, and answers as before the call
      or as after it. */
  lemma {:induction false} AnswersBeforeOrAfter(before: seq<Seen>, log: seq<Seen>, was: map<Str, Str>, now: map<Str, Str>,
                                                at: nat -> nat, name: Str)
    requires Continues(before, log, was, now) && Schedule(at, |before| - 1, |log|) && log != []
    requires NoUpdates(before[|before| - 1].shape, log[|log| - 1].shape) && log[|log| - 1].busy == None
    ensures var w := GetWalk(Views(log, at), name, 0); w.Done? && (Answers(w.result, was, name) || Answers(w.result, now, name))
  {
    hide Shows, Chain, PropertyMemory.Get, Absent, Reads, Steady, Answers, FindWalk, FindFrom, AttemptFrom, FewUpdates, Unchanged,
         NoUpdates, Schedule, WellFormed, HoldsBut, EntriesRead, NodesIn;
    AddIsSteady(before, log, was, now, at);
    var see := Views(log, at);
    At(see, 0);
    RootIsThere(see(0).shape);
    FindWalkReads(see, 0, 0, name);
    var found := FindWalk(see, 0, 0, name);
    if found.result.Ok? {
      var q, t := found.result.value, found.last + 1;
      FoundStays(see, found.last, t, name);
      EntryKept(see, found.last, t, q);
      AddIsUnchanged(before, log, at, t, AttemptFrom(see, t, q).last, q);
      AttemptSucceeds(see, t, q);
    }
    GetWalkReads(see, name, 0);
    var w := GetWalk(see, name, 0);
    forall q | q in see(w.start).shape.infos && see(w.start).shape.infos[q].name == name ensures FewUpdates(see, w.start, w.last, q) {
      AddIsUnchanged(before, log, at, w.start, w.last, q);
    }
    if Shows(see(w.start), was) {
      ShowsAnswer(see(w.start), was, name);
    } else {
      ShowsAnswer(see(w.start), now, name);
    }
  }
}
