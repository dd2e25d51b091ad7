/** The property area as a map from names to values, and what adding and updating do to it. */
module PropertyMap {
  import opened Base
  import opened Order
  import opened TrieBuilder
  import opened PropertySerial
  import opened PropertyShape

  /** The value a lookup of `name` reads. */
  function Lookup(sh: Shape, name: Str): Option<Str>
    requires 0 in sh.nodes
  {
    match FindEntry(sh, name)
    case None => None
    case Some(q) => if q in sh.infos then Some(sh.infos[q].value) else None
  }

  function At(contents: map<Str, Str>, name: Str): Option<Str>
  {
    if name in contents then Some(contents[name]) else None
  }

  /** Looking up any name whatever in the area gives what the map holds. */
  ghost predicate Refines(sh: Shape, contents: map<Str, Str>)
  {
    0 in sh.nodes && forall n: Str :: Lookup(sh, n) == At(contents, n)
  }

  // ---------------------------------------------------------------- publishing an entry

  /** The entry at `q` is published through the node at `p`. */
  function WithEntry(sh: Shape, p: nat, q: nat, i: InfoRec): Shape
    requires p in sh.nodes
  {
    sh.(nodes := sh.nodes[p := sh.nodes[p].(prop := q)], infos := sh.infos[q := i])
  }

  ghost predicate CanPublish(sh: Shape, p: nat, q: nat, i: InfoRec)
  {
    WellFormed(sh) && Locate(sh, 0, Segments(i.name)) == Hit(p) && p in sh.nodes && sh.nodes[p].prop == 0
    && FIRST <= q && Aligned(q) && Fresh(sh, q) && q + InfoExtent(i.name, i.value) <= sh.used
    && 0 !in i.name && 0 !in i.value && [] !in Segments(i.name)
  }

  lemma {:induction false} PublishKeepsPacked(sh: Shape, p: nat, q: nat, i: InfoRec)
    requires CanPublish(sh, p, q, i)
    ensures Packed(WithEntry(sh, p, q, i))
  {
    hide Aligned, Align4, WellLinked, CleanName, Locate, Segments;
    FreshIsFree(sh, q);
    var sh' := WithEntry(sh, p, q, i);
    forall a: nat | IsObject(sh', a) ensures a == q || (IsObject(sh, a) && EndOf(sh', a) == EndOf(sh, a)) {
    }
  }

  lemma {:induction false} PublishKeepsLeads(sh: Shape, p: nat, q: nat, i: InfoRec, a: nat)
    requires p in sh.nodes
    ensures forall t: nat, parent: seq<Str>, lo: Option<Str>, hi: Option<Str> ::
              LeadsTo(WithEntry(sh, p, q, i), a, t, parent, lo, hi) <==> LeadsTo(sh, a, t, parent, lo, hi)
  {
  }

  lemma {:induction false} PublishKeepsNode(sh: Shape, p: nat, q: nat, i: InfoRec, a: nat)
    requires CanPublish(sh, p, q, i) && a in sh.nodes
    ensures NodeOk(WithEntry(sh, p, q, i), a)
  {
    hide Aligned, Align4, Packed, CleanName, Locate, Segments, Between, WellLinked, LeadsTo;
    FreshIsFree(sh, q);
    assert NodeOk(sh, a) by { Linked(sh, a); }
    PublishKeepsLeads(sh, p, q, i, a);
    RootIsThere(sh);
    LocateFindsPath(sh, 0, Segments(i.name));
    assert [] + Segments(i.name) == Segments(i.name);
  }

  lemma {:induction false} PublishKeepsWellFormed(sh: Shape, p: nat, q: nat, i: InfoRec)
    requires CanPublish(sh, p, q, i)
    ensures WellFormed(WithEntry(sh, p, q, i))
  {
    hide Aligned, Align4, CleanName, Locate, Segments, Between, NodeOk, Packed;
    var sh' := WithEntry(sh, p, q, i);
    PublishKeepsPacked(sh, p, q, i);
    forall a | a in sh'.nodes ensures NodeOk(sh', a) {
      PublishKeepsNode(sh, p, q, i, a);
    }
    forall a | a in sh'.infos ensures InfoOk(sh', a) {
      assert a != q ==> InfoOk(sh, a);
    }
  }

  /** Walks depend on names and tree links only. */
  ghost predicate SameTrie(a: Shape, b: Shape)
  {
    a.used == b.used && a.nodes.Keys == b.nodes.Keys
    && forall o :: o in a.nodes ==> a.nodes[o].(prop := 0) == b.nodes[o].(prop := 0)
  }

  lemma {:induction false} SameSearch(a: Shape, b: Shape, r: nat, k: Str)
    requires SameTrie(a, b) && r in a.nodes
    ensures Search(a, r, k) == Search(b, r, k)
    decreases if r < a.used then a.used - r else 0
  {
    hide CompareName;
    var name := NameOf(a.nodes[r]);
    assert a.nodes[r].(prop := 0) == b.nodes[r].(prop := 0);
    if CompareName(k, name) != Equal {
      var next := GetLink(a.nodes[r], Turn(k, name));
      if next in a.nodes && r < next < a.used {
        SameSearch(a, b, next, k);
      }
    }
  }

  lemma {:induction false} SameLocate(a: Shape, b: Shape, cur: nat, parts: seq<Str>)
    requires SameTrie(a, b) && cur in a.nodes
    ensures Locate(a, cur, parts) == Locate(b, cur, parts)
    decreases |parts|
  {
    hide Search;
    assert a.nodes[cur].(prop := 0) == b.nodes[cur].(prop := 0);
    if parts != [] {
      var root := a.nodes[cur].children;
      if root in a.nodes && root != 0 {
        SameSearch(a, b, root, parts[0]);
      }
      var spot := Level(a, cur, parts[0]);
      if spot.Hit? && spot.at in a.nodes {
        SameLocate(a, b, spot.at, parts[1..]);
      }
    }
  }

  /** Publishing an entry changes the lookup of its own name and no other. */
  lemma {:induction false} PublishAddsOne(sh: Shape, p: nat, q: nat, i: InfoRec, name: Str)
    requires CanPublish(sh, p, q, i)
    ensures 0 in sh.nodes
    ensures FindEntry(WithEntry(sh, p, q, i), name) == if name == i.name then Some(q) else FindEntry(sh, name)
    ensures Lookup(WithEntry(sh, p, q, i), name) == if name == i.name then Some(i.value) else Lookup(sh, name)
    ensures Lookup(sh, i.name) == None
  {
    hide WellFormed, Locate, Segments, Fresh, Aligned, Align4;
    var sh' := WithEntry(sh, p, q, i);
    RootIsThere(sh);
    FreshIsFree(sh, q);
    SameLocate(sh, sh', 0, Segments(name));
    LocateFindsPath(sh, 0, Segments(name));
    LocateFindsPath(sh, 0, Segments(i.name));
    assert [] + Segments(name) == Segments(name) && [] + Segments(i.name) == Segments(i.name);
    if Locate(sh, 0, Segments(name)) == Hit(p) {
      SegmentsInjective(name, i.name);
    }
    EntryIsNamed(sh, name);
  }

  lemma {:induction false} PublishRefines(sh: Shape, p: nat, q: nat, i: InfoRec, contents: map<Str, Str>)
    requires CanPublish(sh, p, q, i) && Refines(sh, contents)
    ensures i.name !in contents && Refines(WithEntry(sh, p, q, i), contents[i.name := i.value])
  {
    hide CanPublish, Lookup;
    PublishedThrough(sh, p, q, i);
    PublishAddsOne(sh, p, q, i, i.name);
    assert Lookup(sh, i.name) == At(contents, i.name);
    forall n: Str ensures Lookup(WithEntry(sh, p, q, i), n) == At(contents[i.name := i.value], n) {
      PublishAddsOne(sh, p, q, i, n);
    }
  }

  lemma {:induction false} PublishedThrough(sh: Shape, p: nat, q: nat, i: InfoRec)
    requires CanPublish(sh, p, q, i)
    ensures p in sh.nodes
  {
  }

  lemma {:induction false} LinkRefines(sh: Shape, p: nat, link: Link, o: nat, n: NodeRec, contents: map<Str, Str>)
    requires CanLink(sh, p, link, o, n) && Refines(sh, contents)
    ensures p in sh.nodes && Refines(WithNode(sh, p, link, o, n), contents)
  {
    hide CanLink, FindEntry;
    CanLinkFacts(sh, p, link, o, n);
    var sh' := WithNode(sh, p, link, o, n);
    forall name: Str ensures Lookup(sh', name) == At(contents, name) {
      LinkKeepsEntries(sh, p, link, o, n, name);
      assert Lookup(sh, name) == At(contents, name);
    }
  }

  // ---------------------------------------------------------------- updating a value, taking room

  /** `q` is an index that a lookup gives out. */
  predicate IsIndex(sh: Shape, q: nat)
  {
    0 in sh.nodes && q in sh.infos && FindEntry(sh, sh.infos[q].name) == Some(q)
  }

  /** The value of the entry at `q` is replaced in place. */
  function WithValue(sh: Shape, q: nat, value: Str): Shape
    requires q in sh.infos
  {
    sh.(infos := sh.infos[q := sh.infos[q].(value := value, updates := sh.infos[q].updates + 1)])
  }

  lemma {:induction false} UpdateKeepsWellFormed(sh: Shape, q: nat, value: Str)
    requires WellFormed(sh) && q in sh.infos && Stored(sh.infos[q]) && |value| < PROP_VALUE_MAX && 0 !in value
    ensures WellFormed(WithValue(sh, q, value))
  {
    hide Aligned, Align4, CleanName, Segments, Between, LeadsTo;
    var sh' := WithValue(sh, q, value);
    forall a: nat | IsObject(sh', a) ensures IsObject(sh, a) && EndOf(sh', a) == EndOf(sh, a) {
    }
    forall a | a in sh'.nodes ensures NodeOk(sh', a) {
      assert NodeOk(sh, a);
      SameLeads(sh, sh', a);
    }
    forall a | a in sh'.infos ensures InfoOk(sh', a) {
      assert InfoOk(sh, a);
    }
  }

  lemma {:induction false} SameLeads(a: Shape, b: Shape, o: nat)
    requires a.nodes == b.nodes && o in a.nodes
    ensures forall t: nat, parent: seq<Str>, lo: Option<Str>, hi: Option<Str> ::
              LeadsTo(a, o, t, parent, lo, hi) <==> LeadsTo(b, o, t, parent, lo, hi)
  {
  }

  lemma {:induction false} UpdateRefines(sh: Shape, q: nat, value: Str, contents: map<Str, Str>)
    requires WellFormed(sh) && Refines(sh, contents) && IsIndex(sh, q)
    ensures Refines(WithValue(sh, q, value), contents[sh.infos[q].name := value])
  {
    hide WellFormed, Locate, Segments;
    var sh', name := WithValue(sh, q, value), sh.infos[q].name;
    forall n: Str ensures Lookup(sh', n) == At(contents[name := value], n) {
      SameLocate(sh, sh', 0, Segments(n));
      EntryIsNamed(sh, n);
      assert Lookup(sh, n) == At(contents, n);
    }
  }

  function WithUsed(sh: Shape, used: nat): Shape
  {
    sh.(used := used)
  }

  lemma {:induction false} RoomKeepsWellFormed(sh: Shape, used: nat)
    requires WellFormed(sh) && sh.used <= used && Aligned(used)
    ensures WellFormed(WithUsed(sh, used)) && Fresh(WithUsed(sh, used), sh.used)
  {
    hide Aligned, Align4, CleanName, Segments, Between, LeadsTo;
    var sh' := WithUsed(sh, used);
    forall a: nat | IsObject(sh', a) ensures IsObject(sh, a) && EndOf(sh', a) == EndOf(sh, a) {
    }
    forall a | a in sh'.nodes ensures NodeOk(sh', a) {
      assert NodeOk(sh, a);
      SameLeads(sh, sh', a);
    }
    forall a | a in sh'.infos ensures InfoOk(sh', a) {
      assert InfoOk(sh, a);
    }
  }

  lemma {:induction false} RoomKeepsSearch(sh: Shape, used: nat, r: nat, k: Str)
    requires WellFormed(sh) && sh.used <= used && Aligned(used) && r in sh.nodes && r != 0
    ensures Search(WithUsed(sh, used), r, k) == Search(sh, r, k)
    decreases sh.used - r
  {
    hide WellFormed, CompareName, Aligned, Search;
    RoomKeepsWellFormed(sh, used);
    SearchStep(sh, r, k);
    SearchStep(WithUsed(sh, used), r, k);
    var name := NameOf(sh.nodes[r]);
    if CompareName(k, name) != Equal {
      var next := GetLink(sh.nodes[r], Turn(k, name));
      if next != 0 {
        RoomKeepsSearch(sh, used, next, k);
      }
    }
  }

  lemma {:induction false} RoomKeepsLevel(sh: Shape, used: nat, c: nat, k: Str)
    requires WellFormed(sh) && sh.used <= used && Aligned(used) && c in sh.nodes
    ensures Level(WithUsed(sh, used), c, k) == Level(sh, c, k)
  {
    hide WellFormed, Aligned, Search;
    var root := sh.nodes[c].children;
    if root in sh.nodes && root != 0 {
      RoomKeepsSearch(sh, used, root, k);
    }
  }

  lemma {:induction false} RoomKeepsLocate(sh: Shape, used: nat, cur: nat, parts: seq<Str>)
    requires WellFormed(sh) && sh.used <= used && Aligned(used) && cur in sh.nodes
    ensures Locate(WithUsed(sh, used), cur, parts) == Locate(sh, cur, parts)
    decreases |parts|
  {
    hide WellFormed, Aligned, Level;
    if parts != [] {
      RoomKeepsLevel(sh, used, cur, parts[0]);
      LevelSpot(sh, cur, parts[0]);
      var spot := Level(sh, cur, parts[0]);
      if spot.Hit? {
        RoomKeepsLocate(sh, used, spot.at, parts[1..]);
      }
    }
  }

  /** Taking room changes no lookup. */
  lemma {:induction false} RoomRefines(sh: Shape, used: nat, contents: map<Str, Str>)
    requires WellFormed(sh) && sh.used <= used && Aligned(used) && Refines(sh, contents)
    ensures Refines(WithUsed(sh, used), contents)
  {
    hide WellFormed, Aligned, Locate;
    forall n: Str ensures Lookup(WithUsed(sh, used), n) == At(contents, n) {
      RoomKeepsLocate(sh, used, 0, Segments(n));
      assert Lookup(sh, n) == At(contents, n);
    }
  }

  // ---------------------------------------------------------------- the cost of adding

  function NodesCost(parts: seq<Str>): nat
  {
    if parts == [] then 0 else NodeSize(parts[0]) + NodesCost(parts[1..])
  }

  /** Bytes of new nodes that a walk along `parts` takes. */
  function Cost(sh: Shape, cur: nat, parts: seq<Str>): nat
    requires cur in sh.nodes
    decreases |parts|
  {
    if parts == [] then 0
    else
      match Level(sh, cur, parts[0])
      case Miss(_, _) => NodesCost(parts)
      case Hit(o) => if o in sh.nodes then Cost(sh, o, parts[1..]) else 0
  }

  /** Bytes that adding `name` takes: none when it is there already. */
  function Need(sh: Shape, name: Str, value: Str): nat
    requires 0 in sh.nodes
  {
    if FindEntry(sh, name).Some? then 0 else Cost(sh, 0, Segments(name)) + InfoExtent(name, value)
  }

  lemma {:induction false} FoundCostsNothing(sh: Shape, cur: nat, parts: seq<Str>)
    requires cur in sh.nodes && Locate(sh, cur, parts).Hit?
    ensures Cost(sh, cur, parts) == 0
    decreases |parts|
  {
    hide Level;
    if parts != [] {
      var spot := Level(sh, cur, parts[0]);
      if spot.Hit? && spot.at in sh.nodes {
        FoundCostsNothing(sh, spot.at, parts[1..]);
      }
    }
  }

  // ---------------------------------------------------------------- each level is a search tree

  /** The names of a level, left to right. */
  function InOrder(sh: Shape, o: nat): seq<Str>
    requires o in sh.nodes
    decreases if o < sh.used then sh.used - o else 0
  {
    var n := sh.nodes[o];
    (if n.left in sh.nodes && o < n.left < sh.used then InOrder(sh, n.left) else [])
    + [NameOf(n)]
    + (if n.right in sh.nodes && o < n.right < sh.used then InOrder(sh, n.right) else [])
  }

  ghost predicate Ascending(names: seq<Str>, lo: Option<Str>, hi: Option<Str>)
  {
    (forall i :: 0 <= i < |names| ==> Between(lo, names[i], hi))
    && forall i, j :: 0 <= i < j < |names| ==> CompareName(names[i], names[j]) == Less
  }

  lemma {:induction false} AscendingJoin(a: seq<Str>, x: Str, b: seq<Str>, lo: Option<Str>, hi: Option<Str>)
    requires Ascending(a, lo, Some(x)) && Ascending(b, Some(x), hi) && Between(lo, x, hi)
    ensures Ascending(a + [x] + b, lo, hi)
  {
    hide CompareName;
    var s := a + [x] + b;
    forall i | 0 <= i < |s| ensures Between(lo, s[i], hi) {
      if i < |a| && hi.Some? {
        CompareNameTotalOrder(s[i], x, hi.value);
      } else if i > |a| && lo.Some? {
        CompareNameTotalOrder(lo.value, x, s[i]);
      }
    }
    forall i, j | 0 <= i < j < |s| ensures CompareName(s[i], s[j]) == Less {
      if i < |a| < j {
        assert CompareName(a[i], x) == Less && CompareName(x, b[j - |a| - 1]) == Less;
        CompareNameTotalOrder(s[i], x, s[j]);
      }
    }
  }

  /** Every level is a search tree under the length-then-bytes order: left to right, its names ascend. */
  lemma {:induction false} LevelsAscend(sh: Shape, o: nat)
    requires WellFormed(sh) && o in sh.nodes && o != 0
    ensures Ascending(InOrder(sh, o), sh.nodes[o].lo, sh.nodes[o].hi)
    decreases sh.used - o
  {
    hide WellFormed, Ascending, Between;
    var n := sh.nodes[o];
    var a := if n.left in sh.nodes && o < n.left < sh.used then InOrder(sh, n.left) else [];
    var b := if n.right in sh.nodes && o < n.right < sh.used then InOrder(sh, n.right) else [];
    Placed(sh, o);
    NothingAscends(n.lo, Some(NameOf(n)));
    NothingAscends(Some(NameOf(n)), n.hi);
    if n.left != 0 {
      SiblingLinked(sh, o, Left);
      Bounded(sh, n.left);
      LevelsAscend(sh, n.left);
    }
    if n.right != 0 {
      SiblingLinked(sh, o, Right);
      Bounded(sh, n.right);
      LevelsAscend(sh, n.right);
    }
    AscendingJoin(a, NameOf(n), b, n.lo, n.hi);
  }

  lemma {:induction false} Placed(sh: Shape, o: nat)
    requires WellFormed(sh) && o in sh.nodes && o != 0
    ensures Between(sh.nodes[o].lo, NameOf(sh.nodes[o]), sh.nodes[o].hi)
    ensures CleanName(NameOf(sh.nodes[o])) && FIRST <= o && Aligned(o)
  {
    hide Between, CleanName, Segments, LeadsTo;
    Linked(sh, o);
  }

  lemma {:induction false} NothingAscends(lo: Option<Str>, hi: Option<Str>)
    ensures Ascending([], lo, hi)
  {
  }
}
