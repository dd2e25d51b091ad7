/** The property area as a value: which objects lie where, how they are linked, and what a lookup finds.

    An area is a trie.  Each level of it, one per dot-separated segment, is a binary search tree ordered
    by `cmp_prop_name`; every node of it may carry a property entry.  Offsets count from the end of the
    128-byte header. */
module PropertyShape {
  import opened Base
  import opened Order
  import opened TrieBuilder
  import opened PropertySerial

  /** Size of the area header; object offsets are relative to its end. */
  const DATA: nat := 128
  const NODE_HEADER: nat := 20
  const INFO_HEADER: nat := 96
  const BACKUP: nat := NODE_HEADER
  /** Where the first object goes: past the root node and the backup slot. */
  const FIRST: nat := BACKUP + PROP_VALUE_MAX

  /** A published trie node.  `path` is the list of segments that lead to it, `lo` and `hi` the names of
      the closest ancestors of its level to its left and right. */
  datatype NodeRec = NodeRec(path: seq<Str>, lo: Option<Str>, hi: Option<Str>,
                             prop: nat, left: nat, right: nat, children: nat)

  /** A published property entry. */
  datatype InfoRec = InfoRec(name: Str, value: Str, updates: nat)

  datatype Shape = Shape(nodes: map<nat, NodeRec>, infos: map<nat, InfoRec>, used: nat)

  datatype Link = Prop | Left | Right | Children

  function NameOf(n: NodeRec): Str
  {
    if n.path == [] then [] else n.path[|n.path| - 1]
  }

  function Parent(path: seq<Str>): seq<Str>
  {
    if path == [] then [] else path[..|path| - 1]
  }

  predicate Stored(i: InfoRec)
  {
    |i.value| < PROP_VALUE_MAX
  }

  function NodeSize(name: Str): nat
  {
    Align4(NODE_HEADER + |name| + 1)
  }

  function InfoSize(name: Str): nat
  {
    Align4(INFO_HEADER + |name| + 1)
  }

  /** Bytes an entry takes, its out-of-line value included. */
  function InfoExtent(name: Str, value: Str): nat
  {
    InfoSize(name) + if |value| < PROP_VALUE_MAX then 0 else Align4(|value| + 1)
  }

  function GetLink(n: NodeRec, l: Link): nat
  {
    match l
    case Prop => n.prop
    case Left => n.left
    case Right => n.right
    case Children => n.children
  }

  function SetLink(n: NodeRec, l: Link, t: nat): NodeRec
  {
    match l
    case Prop => n.(prop := t)
    case Left => n.(left := t)
    case Right => n.(right := t)
    case Children => n.(children := t)
  }

  // ---------------------------------------------------------------- well-formed areas

  predicate Between(lo: Option<Str>, name: Str, hi: Option<Str>)
  {
    (lo.Some? ==> CompareName(lo.value, name) == Less) && (hi.Some? ==> CompareName(name, hi.value) == Less)
  }

  /** A link of the node at `o` is zero or leads to a later node with the given place in the trie. */
  predicate LeadsTo(sh: Shape, o: nat, t: nat, parent: seq<Str>, lo: Option<Str>, hi: Option<Str>)
  {
    t == 0 || (o < t && t in sh.nodes && Parent(sh.nodes[t].path) == parent && sh.nodes[t].lo == lo && sh.nodes[t].hi == hi)
  }

  predicate PropOk(sh: Shape, n: NodeRec)
  {
    n.prop == 0 || (n.prop in sh.infos && Segments(sh.infos[n.prop].name) == n.path)
  }

  predicate NodeOk(sh: Shape, o: nat)
    requires o in sh.nodes
  {
    var n := sh.nodes[o];
    (if o == 0 then n.path == [] && n.left == 0 && n.right == 0
     else FIRST <= o && Aligned(o) && n.path != [] && [] !in n.path && CleanName(NameOf(n)) && Between(n.lo, NameOf(n), n.hi))
    && LeadsTo(sh, o, n.left, Parent(n.path), n.lo, Some(NameOf(n)))
    && LeadsTo(sh, o, n.right, Parent(n.path), Some(NameOf(n)), n.hi)
    && LeadsTo(sh, o, n.children, n.path, None, None)
    && PropOk(sh, n)
  }

  predicate InfoOk(sh: Shape, o: nat)
    requires o in sh.infos
  {
    FIRST <= o && Aligned(o) && 0 !in sh.infos[o].name && 0 !in sh.infos[o].value
  }

  predicate IsObject(sh: Shape, o: nat)
  {
    o in sh.nodes || o in sh.infos
  }

  /** Where the object at `o` ends. */
  function EndOf(sh: Shape, o: nat): nat
    requires IsObject(sh, o)
  {
    if o == 0 then NODE_HEADER
    else if o in sh.nodes then o + NodeSize(NameOf(sh.nodes[o]))
    else o + InfoExtent(sh.infos[o].name, sh.infos[o].value)
  }

  /** Objects do not overlap and lie below the high-water mark. */
  ghost predicate Packed(sh: Shape)
  {
    (forall o: nat :: IsObject(sh, o) ==> EndOf(sh, o) <= sh.used)
    && (forall a: nat, b: nat :: IsObject(sh, a) && IsObject(sh, b) && a < b ==> EndOf(sh, a) <= b)
    && sh.nodes.Keys !! sh.infos.Keys
  }

  ghost predicate WellLinked(sh: Shape)
  {
    0 in sh.nodes && (forall o :: o in sh.nodes ==> NodeOk(sh, o)) && forall o :: o in sh.infos ==> InfoOk(sh, o)
  }

  ghost predicate WellFormed(sh: Shape)
  {
    FIRST <= sh.used && Aligned(sh.used) && Packed(sh) && WellLinked(sh)
  }

  // ---------------------------------------------------------------- lookups

  /** Where a walk ends: at a node, or at the empty link where a new node would go. */
  datatype Spot = Hit(at: nat) | Miss(at: nat, link: Link)

  function Turn(key: Str, name: Str): Link
    requires CompareName(key, name) != Equal
  {
    if CompareName(key, name) == Less then Left else Right
  }

  /** The search for one segment in a level, from the node at `o` down. */
  function Search(sh: Shape, o: nat, key: Str): Spot
    requires o in sh.nodes
    decreases if o < sh.used then sh.used - o else 0
  {
    var name := NameOf(sh.nodes[o]);
    if CompareName(key, name) == Equal then Hit(o)
    else
      var next := GetLink(sh.nodes[o], Turn(key, name));
      if next in sh.nodes && o < next < sh.used then Search(sh, next, key) else Miss(o, Turn(key, name))
  }

  /** The search for one segment below the node at `cur`. */
  function Level(sh: Shape, cur: nat, key: Str): Spot
    requires cur in sh.nodes
  {
    var root := sh.nodes[cur].children;
    if root in sh.nodes && root != 0 then Search(sh, root, key) else Miss(cur, Children)
  }

  /** The walk along the segments `parts` from the node at `cur`. */
  function Locate(sh: Shape, cur: nat, parts: seq<Str>): Spot
    requires cur in sh.nodes
    decreases |parts|
  {
    if parts == [] then Hit(cur)
    else
      match Level(sh, cur, parts[0])
      case Miss(p, l) => Miss(p, l)
      case Hit(o) => if o in sh.nodes then Locate(sh, o, parts[1..]) else Miss(cur, Children)
  }

  /** The entry for `name`, if there is one. */
  function FindEntry(sh: Shape, name: Str): Option<nat>
    requires 0 in sh.nodes
  {
    match Locate(sh, 0, Segments(name))
    case Miss(_, _) => None
    case Hit(o) => if o in sh.nodes && sh.nodes[o].prop != 0 then Some(sh.nodes[o].prop) else None
  }

  // ---------------------------------------------------------------- linking a new node

  /** The node at `o` is linked in at `link` of the node at `p`. */
  function WithNode(sh: Shape, p: nat, link: Link, o: nat, n: NodeRec): Shape
    requires p in sh.nodes
  {
    sh.(nodes := sh.nodes[p := SetLink(sh.nodes[p], link, o)][o := n])
  }

  /** Nothing is published from `o` on. */
  ghost predicate Fresh(sh: Shape, o: nat)
  {
    forall a: nat :: IsObject(sh, a) ==> EndOf(sh, a) <= o
  }

  /** An unlinked node with room of its own, and the empty link it is about to take. */
  ghost predicate CanLink(sh: Shape, p: nat, link: Link, o: nat, n: NodeRec)
  {
    WellFormed(sh) && p in sh.nodes && link != Prop && GetLink(sh.nodes[p], link) == 0
    && FIRST <= o && Aligned(o) && Fresh(sh, o) && o + NodeSize(NameOf(n)) <= sh.used
    && n.prop == 0 && n.left == 0 && n.right == 0 && n.children == 0
    && n.path != [] && [] !in n.path && CleanName(NameOf(n)) && Between(n.lo, NameOf(n), n.hi)
    && (p == 0 ==> link == Children)
    && match link
       case Left => Parent(n.path) == Parent(sh.nodes[p].path) && n.lo == sh.nodes[p].lo && n.hi == Some(NameOf(sh.nodes[p]))
       case Right => Parent(n.path) == Parent(sh.nodes[p].path) && n.lo == Some(NameOf(sh.nodes[p])) && n.hi == sh.nodes[p].hi
       case _ => Parent(n.path) == sh.nodes[p].path && n.lo == None && n.hi == None
  }

  lemma {:induction false} FreshIsFree(sh: Shape, o: nat)
    requires Fresh(sh, o) && WellFormed(sh)
    ensures o !in sh.nodes && o !in sh.infos && forall a: nat :: IsObject(sh, a) ==> a < o
  {
    hide Aligned, NodeOk, InfoOk;
    forall a: nat | IsObject(sh, a) ensures a < o {
      assert a < EndOf(sh, a);
    }
    assert !IsObject(sh, o);
  }

  lemma {:induction false} LinkKeepsPacked(sh: Shape, p: nat, link: Link, o: nat, n: NodeRec)
    requires CanLink(sh, p, link, o, n)
    ensures Packed(WithNode(sh, p, link, o, n))
  {
    hide Aligned, Between, Align4, WellLinked, CleanName;
    FreshIsFree(sh, o);
    var sh' := WithNode(sh, p, link, o, n);
    forall a: nat | IsObject(sh', a) ensures a == o || (IsObject(sh, a) && EndOf(sh', a) == EndOf(sh, a)) {
    }
  }

  lemma {:induction false} LinkKeepsLeadsTo(sh: Shape, p: nat, link: Link, o: nat, n: NodeRec,
                                            a: nat, t: nat, parent: seq<Str>, lo: Option<Str>, hi: Option<Str>)
    requires p in sh.nodes && o !in sh.nodes && LeadsTo(sh, a, t, parent, lo, hi)
    ensures LeadsTo(WithNode(sh, p, link, o, n), a, t, parent, lo, hi)
  {
  }

  lemma {:induction false} LinkKeepsNode(sh: Shape, p: nat, link: Link, o: nat, n: NodeRec, a: nat)
    requires CanLink(sh, p, link, o, n) && a in sh.nodes
    ensures NodeOk(WithNode(sh, p, link, o, n), a)
  {
    hide Aligned, Between, Align4, Packed, CleanName, Segments, LeadsTo, WellLinked, NodeSize;
    FreshIsFree(sh, o);
    assert NodeOk(sh, a) by { Linked(sh, a); }
    assert IsObject(sh, p);
    var sh', r := WithNode(sh, p, link, o, n), sh.nodes[a];
    LinkKeepsLeadsTo(sh, p, link, o, n, a, r.left, Parent(r.path), r.lo, Some(NameOf(r)));
    LinkKeepsLeadsTo(sh, p, link, o, n, a, r.right, Parent(r.path), Some(NameOf(r)), r.hi);
    LinkKeepsLeadsTo(sh, p, link, o, n, a, r.children, r.path, None, None);
    if a == p {
      NewLinkLeads(sh, p, link, o, n);
    }
  }

  lemma {:induction false} Linked(sh: Shape, a: nat)
    requires WellFormed(sh) && a in sh.nodes
    ensures NodeOk(sh, a)
  {
  }

  lemma {:induction false} NewLinkLeads(sh: Shape, p: nat, link: Link, o: nat, n: NodeRec)
    requires CanLink(sh, p, link, o, n)
    ensures var r, sh' := sh.nodes[p], WithNode(sh, p, link, o, n);
            match link
            case Left => LeadsTo(sh', p, o, Parent(r.path), r.lo, Some(NameOf(r)))
            case Right => LeadsTo(sh', p, o, Parent(r.path), Some(NameOf(r)), r.hi)
            case _ => LeadsTo(sh', p, o, r.path, None, None)
  {
    hide Aligned, Between, Align4, Packed, CleanName, Segments, WellLinked;
    FreshIsFree(sh, o);
    assert IsObject(sh, p);
  }

  lemma {:induction false} LinkKeepsWellFormed(sh: Shape, p: nat, link: Link, o: nat, n: NodeRec)
    requires CanLink(sh, p, link, o, n)
    ensures WellFormed(WithNode(sh, p, link, o, n))
  {
    hide Aligned, Between, Align4, CleanName, Segments;
    FreshIsFree(sh, o);
    var sh' := WithNode(sh, p, link, o, n);
    LinkKeepsPacked(sh, p, link, o, n);
    assert NodeOk(sh', o);
    forall a | a in sh'.nodes ensures NodeOk(sh', a) {
      if a != o {
        LinkKeepsNode(sh, p, link, o, n, a);
      }
    }
    forall a | a in sh'.infos ensures InfoOk(sh', a) {
      assert InfoOk(sh, a);
    }
  }

  // ---------------------------------------------------------------- what a new node does to lookups

  /** The next step of a search, in a well-formed area. */
  lemma {:induction false} SearchStep(sh: Shape, o: nat, key: Str)
    requires WellFormed(sh) && o in sh.nodes && o != 0
    ensures var name := NameOf(sh.nodes[o]);
            if CompareName(key, name) == Equal then Search(sh, o, key) == Hit(o)
            else var next := GetLink(sh.nodes[o], Turn(key, name));
                 if next == 0 then Search(sh, o, key) == Miss(o, Turn(key, name))
                 else o < next < sh.used && next in sh.nodes && next != 0 && Search(sh, o, key) == Search(sh, next, key)
  {
    hide CompareName, Aligned, Between, CleanName, Segments, PropOk;
    Linked(sh, o);
    var name := NameOf(sh.nodes[o]);
    if CompareName(key, name) != Equal {
      var next := GetLink(sh.nodes[o], Turn(key, name));
      if next != 0 {
        Bounded(sh, next);
      }
    }
  }

  lemma {:induction false} Bounded(sh: Shape, o: nat)
    requires WellFormed(sh) && o in sh.nodes
    ensures o < sh.used && EndOf(sh, o) <= sh.used
  {
    hide WellLinked, Aligned;
    assert IsObject(sh, o);
  }

  /** Where a search for `k` ends once it is sent on to the leaf `n` at `o`. */
  function AtLeaf(o: nat, n: NodeRec, k: Str): Spot
  {
    if CompareName(k, NameOf(n)) == Equal then Hit(o) else Miss(o, Turn(k, NameOf(n)))
  }

  /** Linking in a node changes exactly the searches that ended at the link it takes. */
  lemma {:induction false} SearchGrown(sh: Shape, p: nat, link: Link, o: nat, n: NodeRec, r: nat, k: Str)
    requires CanLink(sh, p, link, o, n) && r in sh.nodes && r != 0
    ensures Search(WithNode(sh, p, link, o, n), r, k)
         == if Search(sh, r, k) == Miss(p, link) then AtLeaf(o, n, k) else Search(sh, r, k)
    decreases sh.used - r
  {
    hide CompareName, WellFormed, CanLink, Fresh, Search;
    assert WellFormed(sh) && p in sh.nodes && link != Prop && GetLink(sh.nodes[p], link) == 0 && o !in sh.nodes && o != 0 by {
      CanLinkFacts(sh, p, link, o, n);
    }
    var sh' := WithNode(sh, p, link, o, n);
    LinkKeepsWellFormed(sh, p, link, o, n);
    SearchStep(sh, r, k);
    SearchStep(sh', r, k);
    SearchStep(sh', o, k);
    CompareNameTotalOrder(k, NameOf(n), k);
    var name := NameOf(sh.nodes[r]);
    assert n.left == 0 && n.right == 0 by { CanLinkFacts(sh, p, link, o, n); }
    assert NameOf(sh'.nodes[r]) == name;
    if CompareName(k, name) != Equal {
      var next := GetLink(sh.nodes[r], Turn(k, name));
      if next != 0 {
        SearchGrown(sh, p, link, o, n, next, k);
      }
    }
  }

  lemma {:induction false} CanLinkFacts(sh: Shape, p: nat, link: Link, o: nat, n: NodeRec)
    requires CanLink(sh, p, link, o, n)
    ensures WellFormed(sh) && p in sh.nodes && link != Prop && GetLink(sh.nodes[p], link) == 0 && o != 0
    ensures o !in sh.nodes && o !in sh.infos && p < o && (p == 0 ==> link == Children)
    ensures n.prop == 0 && n.left == 0 && n.right == 0 && n.children == 0
  {
    hide WellFormed, Packed, WellLinked, EndOf;
    FreshIsFree(sh, o);
    assert IsObject(sh, p);
  }

  lemma {:induction false} LevelGrown(sh: Shape, p: nat, link: Link, o: nat, n: NodeRec, c: nat, k: Str)
    requires CanLink(sh, p, link, o, n) && c in sh.nodes
    ensures Level(WithNode(sh, p, link, o, n), c, k)
         == if Level(sh, c, k) == Miss(p, link) then AtLeaf(o, n, k) else Level(sh, c, k)
    ensures Level(WithNode(sh, p, link, o, n), o, k) == Miss(o, Children)
  {
    hide CompareName, WellFormed, CanLink, Search;
    CanLinkFacts(sh, p, link, o, n);
    var sh' := WithNode(sh, p, link, o, n);
    LinkKeepsWellFormed(sh, p, link, o, n);
    CompareNameTotalOrder(k, NameOf(n), k);
    ChildrenLinked(sh, c);
    ChildrenLinked(sh', o);
    var root := sh.nodes[c].children;
    if root != 0 {
      SearchGrown(sh, p, link, o, n, root, k);
      SearchMisses(sh, root, k);
    }
    SearchStep(sh', o, k);
  }

  lemma {:induction false} ChildrenLinked(sh: Shape, c: nat)
    requires WellFormed(sh) && c in sh.nodes
    ensures var root := sh.nodes[c].children;
            root == 0 || (c < root && root in sh.nodes && Parent(sh.nodes[root].path) == sh.nodes[c].path
                          && sh.nodes[root].lo == None && sh.nodes[root].hi == None)
  {
    hide Aligned, Between, CleanName, Segments, PropOk;
    Linked(sh, c);
  }

  /** A search that misses stops at an empty left or right link. */
  lemma {:induction false} SearchMisses(sh: Shape, r: nat, k: Str)
    requires WellFormed(sh) && r in sh.nodes && r != 0
    ensures match Search(sh, r, k)
            case Hit(o) => o in sh.nodes && o != 0 && NameOf(sh.nodes[o]) == k && Parent(sh.nodes[o].path) == Parent(sh.nodes[r].path)
            case Miss(p, l) => p in sh.nodes && p != 0 && (l == Left || l == Right) && GetLink(sh.nodes[p], l) == 0
                               && Parent(sh.nodes[p].path) == Parent(sh.nodes[r].path)
    decreases sh.used - r
  {
    hide CompareName, WellFormed, Search;
    SearchStep(sh, r, k);
    var name := NameOf(sh.nodes[r]);
    CompareNameTotalOrder(k, name, k);
    if CompareName(k, name) != Equal {
      var next := GetLink(sh.nodes[r], Turn(k, name));
      if next != 0 {
        SearchMisses(sh, next, k);
        SiblingLinked(sh, r, Turn(k, name));
      }
    }
  }

  lemma {:induction false} SiblingLinked(sh: Shape, r: nat, l: Link)
    requires WellFormed(sh) && r in sh.nodes && (l == Left || l == Right) && GetLink(sh.nodes[r], l) != 0
    ensures var next := GetLink(sh.nodes[r], l);
            r < next && next in sh.nodes && Parent(sh.nodes[next].path) == Parent(sh.nodes[r].path)
            && if l == Left then sh.nodes[next].lo == sh.nodes[r].lo && sh.nodes[next].hi == Some(NameOf(sh.nodes[r]))
               else sh.nodes[next].lo == Some(NameOf(sh.nodes[r])) && sh.nodes[next].hi == sh.nodes[r].hi
  {
    hide Aligned, Between, CleanName, Segments, PropOk;
    Linked(sh, r);
  }

  /** The node a walk ends at has the path that was walked. */
  lemma {:induction false} LocateFindsPath(sh: Shape, cur: nat, parts: seq<Str>)
    requires WellFormed(sh) && cur in sh.nodes
    ensures var spot := Locate(sh, cur, parts);
            spot.Hit? ==> spot.at in sh.nodes && sh.nodes[spot.at].path == sh.nodes[cur].path + parts
    decreases |parts|
  {
    hide WellFormed, Search;
    if parts != [] {
      ChildrenLinked(sh, cur);
      var root := sh.nodes[cur].children;
      if root != 0 {
        SearchMisses(sh, root, parts[0]);
        var spot := Search(sh, root, parts[0]);
        if spot.Hit? {
          LocateFindsPath(sh, spot.at, parts[1..]);
          PathSplit(sh, spot.at);
          assert parts == [parts[0]] + parts[1..];
        }
      }
    } else {
      assert sh.nodes[cur].path + parts == sh.nodes[cur].path;
    }
  }

  lemma {:induction false} PathSplit(sh: Shape, o: nat)
    requires WellFormed(sh) && o in sh.nodes && o != 0
    ensures sh.nodes[o].path == Parent(sh.nodes[o].path) + [NameOf(sh.nodes[o])]
  {
    hide Aligned, Between, CleanName, Segments, PropOk, LeadsTo;
    Linked(sh, o);
  }

  /** The entry found for a name is named so. */
  lemma {:induction false} EntryIsNamed(sh: Shape, name: Str)
    requires WellFormed(sh)
    ensures var q := FindEntry(sh, name); q.Some? ==> q.value in sh.infos && sh.infos[q.value].name == name
  {
    hide Aligned, Between, CleanName, LeadsTo, Locate, Segments;
    LocateFindsPath(sh, 0, Segments(name));
    var spot := Locate(sh, 0, Segments(name));
    Linked(sh, 0);
    if spot.Hit? {
      assert [] + Segments(name) == Segments(name);
      Linked(sh, spot.at);
      if sh.nodes[spot.at].prop != 0 {
        SegmentsInjective(sh.infos[sh.nodes[spot.at].prop].name, name);
      }
    }
  }

  /** A walk is not disturbed by a new node; where it missed, it now gets at most to that node. */
  lemma {:induction false} LocateGrown(sh: Shape, p: nat, link: Link, o: nat, n: NodeRec, cur: nat, parts: seq<Str>)
    requires CanLink(sh, p, link, o, n) && cur in sh.nodes
    ensures var spot, spot' := Locate(sh, cur, parts), Locate(WithNode(sh, p, link, o, n), cur, parts);
            if spot.Hit? then spot' == spot else spot'.Hit? ==> spot'.at == o
    decreases |parts|
  {
    hide CompareName, WellFormed, CanLink, Level;
    CanLinkFacts(sh, p, link, o, n);
    var sh' := WithNode(sh, p, link, o, n);
    if parts != [] {
      LevelGrown(sh, p, link, o, n, cur, parts[0]);
      LevelSpot(sh, cur, parts[0]);
      var spot := Level(sh, cur, parts[0]);
      if spot.Hit? {
        LocateGrown(sh, p, link, o, n, spot.at, parts[1..]);
      } else if Level(sh', cur, parts[0]) == Hit(o) && |parts| > 1 {
        LevelGrown(sh, p, link, o, n, cur, parts[1]);
        assert Locate(sh', o, parts[1..]).Miss?;
      }
    }
  }

  lemma {:induction false} LevelSpot(sh: Shape, c: nat, k: Str)
    requires WellFormed(sh) && c in sh.nodes
    ensures match Level(sh, c, k)
            case Hit(o) => o in sh.nodes && o != 0 && NameOf(sh.nodes[o]) == k && Parent(sh.nodes[o].path) == sh.nodes[c].path
            case Miss(p, l) => p in sh.nodes && l != Prop && GetLink(sh.nodes[p], l) == 0
                               && (l == Children ==> p == c)
                               && (l != Children ==> p != 0 && Parent(sh.nodes[p].path) == sh.nodes[c].path)
  {
    hide WellFormed, Search;
    ChildrenLinked(sh, c);
    if sh.nodes[c].children != 0 {
      SearchMisses(sh, sh.nodes[c].children, k);
    }
  }

  /** Linking in a node changes no lookup. */
  lemma {:induction false} LinkKeepsEntries(sh: Shape, p: nat, link: Link, o: nat, n: NodeRec, name: Str)
    requires CanLink(sh, p, link, o, n)
    ensures 0 in sh.nodes && FindEntry(WithNode(sh, p, link, o, n), name) == FindEntry(sh, name)
  {
    hide CanLink, Locate, Segments, WellFormed;
    CanLinkFacts(sh, p, link, o, n);
    RootIsThere(sh);
    LocateGrown(sh, p, link, o, n, 0, Segments(name));
    LocateFindsPath(sh, 0, Segments(name));
  }

  lemma {:induction false} RootIsThere(sh: Shape)
    requires WellFormed(sh)
    ensures 0 in sh.nodes && sh.nodes[0].path == []
  {
    Linked(sh, 0);
  }
}
