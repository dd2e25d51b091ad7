/** The compiler from rules to image (`build_trie`, property_info_serializer.rs) and what it preserves.

    Compiling a rule list and looking a name up in the resulting bytes gives what the rules say. */
module PropertyInfoCompiler {
  import opened Base
  import opened Order
  import opened ImageFormat
  import opened TrieBuilder
  import opened TrieSerializer
  import opened PropertyInfoArea
  import opened LongestMatch

  // ---------------------------------------------------------------- the resolved trie

  /** The string tables can resolve every name of the trie and stay clear of the sentinel. */
  predicate Tables(ctxs: seq<Str>, typs: seq<Str>)
  {
    StrictlySorted(Alphabetical, ctxs) && StrictlySorted(Alphabetical, typs)
    && |ctxs| <= NO_INDEX && |typs| <= NO_INDEX
  }

  lemma {:induction false} GoodSerializes(node: Node, depth: nat, ctxs: seq<Str>, typs: seq<Str>)
    requires Good(node, depth, Elements(ctxs), Elements(typs))
    ensures Resolvable(node, ctxs, typs) && Shallow(node, depth)
    decreases node
  {
    forall q | q in node.children ensures Resolvable(node.children[q], ctxs, typs) && Shallow(node.children[q], depth - 1) {
      GoodSerializes(node.children[q], depth - 1, ctxs, typs);
    }
  }

  lemma {:induction false} ShallowMonotone(node: Node, k: int, m: int)
    requires Shallow(node, k) && k <= m
    ensures Shallow(node, m)
    decreases node
  {
    forall q | q in node.children ensures Shallow(node.children[q], m - 1) {
      ShallowMonotone(node.children[q], k - 1, m - 1);
    }
  }

  /** An entry list in serialization order, with its names. */
  lemma {:induction false} ListingNames(k: SortKind, m: map<Str, Entry>, ctxs: seq<Str>, typs: seq<Str>)
    requires forall q :: q in m ==> m[q].name == q
    ensures var names, es := Sorted(k, m.Keys), ResolveList(SortedEntries(k, m), ctxs, typs);
            |es| == |names|
            && forall i :: 0 <= i < |names| ==>
                 names[i] in m && es[i] == ResolveEnt(m[names[i]], ctxs, typs) && es[i].name == names[i]
  {
    hide StrictlySorted;
    var names := Sorted(k, m.Keys);
    assert forall i :: 0 <= i < |names| ==> names[i] in m;
  }

  lemma {:induction false} EntEncodes(e: Entry, ctxs: seq<Str>, typs: seq<Str>)
    requires 0 !in e.name && |ctxs| <= NO_INDEX && |typs| <= NO_INDEX
    ensures EntEncodable(ResolveEnt(e, ctxs, typs))
  {
  }

  lemma {:induction false} ResolvedEncodes(node: Node, depth: nat, cs: set<Str>, ts: set<Str>, ctxs: seq<Str>, typs: seq<Str>)
    requires Tidy(node) && Good(node, depth, cs, ts) && |ctxs| <= NO_INDEX && |typs| <= NO_INDEX
    ensures Encodable(Resolve(node, ctxs, typs))
    decreases node
  {
    hide StrictlySorted, ResolveEnt, EntEncodable, ResolveList, SortedEntries;
    var n := Resolve(node, ctxs, typs);
    EntEncodes(node.entry, ctxs, typs);
    ListingNames(LongestFirst, node.prefixes, ctxs, typs);
    ListingNames(Alphabetical, node.exacts, ctxs, typs);
    forall e | e in n.prefixes ensures EntEncodable(e) {
      var i :| 0 <= i < |n.prefixes| && n.prefixes[i] == e;
      EntEncodes(node.prefixes[Sorted(LongestFirst, node.prefixes.Keys)[i]], ctxs, typs);
    }
    forall e | e in n.exacts ensures EntEncodable(e) {
      var i :| 0 <= i < |n.exacts| && n.exacts[i] == e;
      EntEncodes(node.exacts[Sorted(Alphabetical, node.exacts.Keys)[i]], ctxs, typs);
    }
    forall c | c in n.children ensures Encodable(c) {
      var i :| 0 <= i < |n.children| && n.children[i] == c;
      ResolveChild(node, ctxs, typs, i);
      ResolvedEncodes(node.children[ChildOrder(node)[i]], depth - 1, cs, ts, ctxs, typs);
    }
  }

  lemma {:induction false} ChildOfGood(node: Node, depth: nat, cs: set<Str>, ts: set<Str>, q: Str)
    requires Tidy(node) && Good(node, depth, cs, ts) && q in node.children
    ensures q != [] && node.children[q].entry.name == q && depth > 0 && Tidy(node.children[q])
    ensures Good(node.children[q], depth - 1, cs, ts)
  {
    hide EntryGood;
  }

  lemma {:induction false} EntriesOfGood(node: Node, depth: nat, cs: set<Str>, ts: set<Str>)
    requires Tidy(node) && Good(node, depth, cs, ts)
    ensures forall q :: q in node.prefixes ==> q != [] && node.prefixes[q].name == q
    ensures forall q :: q in node.exacts ==> q != [] && node.exacts[q].name == q
  {
    hide EntryGood;
  }

  /** The lists of a resolved node: its entries have names, and its children are in order. */
  lemma {:induction false} ListsSearchable(node: Node, depth: nat, cs: set<Str>, ts: set<Str>, ctxs: seq<Str>, typs: seq<Str>)
    requires Tidy(node) && Good(node, depth, cs, ts)
    ensures var n := Resolve(node, ctxs, typs);
            (forall i :: 0 <= i < |n.prefixes| ==> n.prefixes[i].name != [])
            && (forall i :: 0 <= i < |n.exacts| ==> n.exacts[i].name != []) && |n.children| == |ChildOrder(node)|
  {
    hide ResolveEnt, ResolveList, SortedEntries, Tidy, Good;
    EntriesOfGood(node, depth, cs, ts);
    ListingNames(LongestFirst, node.prefixes, ctxs, typs);
    ListingNames(Alphabetical, node.exacts, ctxs, typs);
  }

  lemma {:induction false} ResolvedSearchable(node: Node, depth: nat, cs: set<Str>, ts: set<Str>, ctxs: seq<Str>, typs: seq<Str>)
    requires Tidy(node) && Good(node, depth, cs, ts)
    ensures Searchable(Resolve(node, ctxs, typs))
    decreases node
  {
    hide Resolve, Tidy, Good;
    var n := Resolve(node, ctxs, typs);
    ListsSearchable(node, depth, cs, ts, ctxs, typs);
    var names := ChildOrder(node);
    forall i | 0 <= i < |n.children|
      ensures n.children[i].entry.name == names[i] && names[i] != [] && Searchable(n.children[i])
    {
      ResolveChild(node, ctxs, typs, i);
      ChildOfGood(node, depth, cs, ts, names[i]);
      ResolvedName(node.children[names[i]], ctxs, typs);
      ResolvedSearchable(node.children[names[i]], depth - 1, cs, ts, ctxs, typs);
    }
    assert ChildNames(n) == names;
  }

  lemma {:induction false} ResolvedName(node: Node, ctxs: seq<Str>, typs: seq<Str>)
    ensures Resolve(node, ctxs, typs).entry == ResolveEnt(node.entry, ctxs, typs)
    ensures Resolve(node, ctxs, typs).entry.name == node.entry.name
  {
  }

  // ---------------------------------------------------------------- the two walks agree

  /** Strings to indexes; the empty string is the sentinel. */
  ghost function Indexes(p: Pick, ctxs: seq<Str>, typs: seq<Str>): Idx
  {
    Idx(ResolveIdx(ctxs, Some(p.ctx)), ResolveIdx(typs, Some(p.typ)))
  }

  lemma {:induction false} OverrideAgrees(e: Entry, acc: Pick, ctxs: seq<Str>, typs: seq<Str>)
    requires EntryInTables(e, ctxs, typs) && Tables(ctxs, typs)
    ensures SetIdx(Indexes(acc, ctxs, typs), ResolveEnt(e, ctxs, typs)) == Indexes(Override(acc, e), ctxs, typs)
  {
  }

  lemma {:induction false} FirstPrefixAt(es: seq<Ent>, rest: Str, i: nat, k: nat)
    requires i <= k < |es| && es[k].name <= rest && forall j :: i <= j < k ==> !(es[j].name <= rest)
    ensures FirstPrefix(es, rest, i) == Some(es[k])
    decreases k - i
  {
    if i < k {
      FirstPrefixAt(es, rest, i + 1, k);
    }
  }

  lemma {:induction false} FirstPrefixNone(es: seq<Ent>, rest: Str, i: nat)
    requires i <= |es| && forall j :: i <= j < |es| ==> !(es[j].name <= rest)
    ensures FirstPrefix(es, rest, i) == None
    decreases |es| - i
  {
    if i < |es| {
      FirstPrefixNone(es, rest, i + 1);
    }
  }

  lemma {:induction false} FirstNamedAt(es: seq<Ent>, name: Str, i: nat, k: nat)
    requires i <= k < |es| && es[k].name == name && forall j :: i <= j < k ==> es[j].name != name
    ensures FirstNamed(es, name, i) == Some(es[k])
    decreases k - i
  {
    if i < k {
      FirstNamedAt(es, name, i + 1, k);
    }
  }

  lemma {:induction false} FirstNamedNone(es: seq<Ent>, name: Str, i: nat)
    requires i <= |es| && forall j :: i <= j < |es| ==> es[j].name != name
    ensures FirstNamed(es, name, i) == None
    decreases |es| - i
  {
    if i < |es| {
      FirstNamedNone(es, name, i + 1);
    }
  }

  lemma {:induction false} SameLengthPrefixes(a: Str, b: Str, s: Str)
    ensures a <= s && b <= s && |a| == |b| ==> a == b
  {
  }

  /** Scanning the longest-first list finds the longest matching prefix. */
  lemma {:induction false} PrefixScanAgrees(m: map<Str, Entry>, rest: Str, ctxs: seq<Str>, typs: seq<Str>)
    requires forall q :: q in m ==> m[q].name == q
    ensures var es := ResolveList(SortedEntries(LongestFirst, m), ctxs, typs);
            match LongestPrefix(m, rest, |rest|)
            case None => FirstPrefix(es, rest, 0) == None
            case Some(q) => q in m && FirstPrefix(es, rest, 0) == Some(ResolveEnt(m[q], ctxs, typs))
  {
    hide ResolveEnt, ResolveList, SortedEntries;
    var names, es := Sorted(LongestFirst, m.Keys), ResolveList(SortedEntries(LongestFirst, m), ctxs, typs);
    ListingNames(LongestFirst, m, ctxs, typs);
    var best := LongestPrefix(m, rest, |rest|);
    forall j | 0 <= j < |es| && es[j].name <= rest ensures best.Some? && |names[j]| <= |best.value| {
      assert rest[..|names[j]|] == names[j];
    }
    if best.None? {
      FirstPrefixNone(es, rest, 0);
    } else {
      var q := best.value;
      assert q in names;
      var k :| 0 <= k < |names| && names[k] == q;
      forall j | 0 <= j < k ensures !(es[j].name <= rest) {
        BeforeIsStrictOrder(LongestFirst, names[j], q, names[j]);
        SameLengthPrefixes(names[j], q, rest);
      }
      FirstPrefixAt(es, rest, 0, k);
    }
  }

  lemma {:induction false} ExactScanAgrees(m: map<Str, Entry>, name: Str, ctxs: seq<Str>, typs: seq<Str>)
    requires forall q :: q in m ==> m[q].name == q
    ensures var es := ResolveList(SortedEntries(Alphabetical, m), ctxs, typs);
            if name in m then FirstNamed(es, name, 0) == Some(ResolveEnt(m[name], ctxs, typs))
            else FirstNamed(es, name, 0) == None
  {
    hide ResolveEnt, ResolveList, SortedEntries;
    var names, es := Sorted(Alphabetical, m.Keys), ResolveList(SortedEntries(Alphabetical, m), ctxs, typs);
    ListingNames(Alphabetical, m, ctxs, typs);
    if name in m {
      assert name in names;
      var k :| 0 <= k < |names| && names[k] == name;
      forall j | 0 <= j < k ensures es[j].name != name {
        BeforeIsStrictOrder(Alphabetical, names[j], names[k], names[j]);
      }
      FirstNamedAt(es, name, 0, k);
    } else {
      FirstNamedNone(es, name, 0);
    }
  }

  lemma {:induction false} AtNodeAgrees(node: Node, rest: Str, acc: Pick, ctxs: seq<Str>, typs: seq<Str>)
    requires Tidy(node) && EntriesInTables(node, ctxs, typs) && Tables(ctxs, typs)
    ensures ApplyPrefix(Resolve(node, ctxs, typs), rest, Indexes(acc, ctxs, typs))
         == Indexes(AtNode(node, rest, acc), ctxs, typs)
  {
    hide ResolveEnt, ResolveList, SortedEntries, Resolve, Indexes, Override, EntryInTables, Tables, LongestPrefix, FirstPrefix;
    ResolveParts(node, ctxs, typs);
    PrefixScanAgrees(node.prefixes, rest, ctxs, typs);
    var best := LongestPrefix(node.prefixes, rest, |rest|);
    if best.Some? {
      OverrideAgrees(node.prefixes[best.value], acc, ctxs, typs);
    }
  }

  lemma {:induction false} AtEndAgrees(node: Node, rest: Str, acc: Pick, ctxs: seq<Str>, typs: seq<Str>)
    requires Tidy(node) && EntriesInTables(node, ctxs, typs) && Tables(ctxs, typs)
    ensures ApplyExact(Resolve(node, ctxs, typs), rest, Indexes(acc, ctxs, typs))
         == Indexes(if rest in node.exacts then Override(acc, node.exacts[rest]) else acc, ctxs, typs)
  {
    hide ResolveEnt, ResolveList, SortedEntries, Resolve, Indexes, Override, EntryInTables, Tables, FirstNamed;
    ResolveParts(node, ctxs, typs);
    ExactScanAgrees(node.exacts, rest, ctxs, typs);
    if rest in node.exacts {
      OverrideAgrees(node.exacts[rest], acc, ctxs, typs);
    }
  }

  lemma {:induction false} ChildAgrees(node: Node, s: Str, ctxs: seq<Str>, typs: seq<Str>)
    requires Tidy(node)
    ensures HasChild(Resolve(node, ctxs, typs), s) <==> s in node.children
    ensures forall i :: 0 <= i < |Resolve(node, ctxs, typs).children|
                        && Resolve(node, ctxs, typs).children[i].entry.name == s ==>
                        s in node.children
                        && Resolve(node, ctxs, typs).children[i] == Resolve(node.children[s], ctxs, typs)
  {
    hide ResolveEnt, ResolveList, SortedEntries, StrictlySorted, Resolve;
    var n, names := Resolve(node, ctxs, typs), ChildOrder(node);
    ResolveParts(node, ctxs, typs);
    forall i | 0 <= i < |n.children|
      ensures names[i] in node.children && n.children[i].entry.name == names[i]
      ensures n.children[i] == Resolve(node.children[names[i]], ctxs, typs)
    {
      ResolveChild(node, ctxs, typs, i);
      ResolvedName(node.children[names[i]], ctxs, typs);
    }
    if s in node.children {
      assert s in names;
      var i :| 0 <= i < |names| && names[i] == s;
      assert n.children[i].entry.name == s;
    }
  }

  /** Walking the serialized trie gives the indexes of what walking the builder's trie gives. */
  lemma {:induction false} WalkAgrees(node: Node, rest: Str, acc: Pick, ctxs: seq<Str>, typs: seq<Str>)
    requires Tidy(node) && Resolvable(node, ctxs, typs) && Tables(ctxs, typs)
    ensures WalkIdx(Resolve(node, ctxs, typs), rest, Indexes(acc, ctxs, typs)) == Indexes(Walk(node, rest, acc), ctxs, typs)
    decreases |rest|
  {
    hide ResolveEnt, Resolve, Indexes, Override, EntryInTables, EntriesInTables, Tables, AtNode, ApplyPrefix, ApplyExact,
         SetIdx, HasChild;
    var n, acc' := Resolve(node, ctxs, typs), AtNode(node, rest, acc);
    AtNodeAgrees(node, rest, acc, ctxs, typs);
    AtEndAgrees(node, rest, acc', ctxs, typs);
    match IndexOf(rest, DOT)
    case None =>
    case Some(j) =>
      var s := rest[..j];
      ChildAgrees(node, s, ctxs, typs);
      if s in node.children {
        var child := node.children[s];
        ChildEntryInTables(child, ctxs, typs);
        OverrideAgrees(child.entry, acc', ctxs, typs);
        ResolvedName(child, ctxs, typs);
        WalkAgrees(child, rest[j + 1..], Override(acc', child.entry), ctxs, typs);
      }
  }

  lemma {:induction false} ChildEntryInTables(node: Node, ctxs: seq<Str>, typs: seq<Str>)
    requires Resolvable(node, ctxs, typs)
    ensures EntryInTables(node.entry, ctxs, typs)
  {
  }

  lemma {:induction false} LookupAgrees(root: Node, name: Str, ctxs: seq<Str>, typs: seq<Str>)
    requires Tidy(root) && Resolvable(root, ctxs, typs) && Tables(ctxs, typs)
    ensures LookupIdx(Resolve(root, ctxs, typs), name) == Indexes(Lookup(root, name), ctxs, typs)
  {
    hide ResolveEnt, Resolve, Override, SetIdx, Walk, WalkIdx, EntryInTables;
    var none := Pick([], []);
    assert Indexes(none, ctxs, typs) == Idx(NO_INDEX, NO_INDEX);
    ChildEntryInTables(root, ctxs, typs);
    OverrideAgrees(root.entry, none, ctxs, typs);
    ResolvedName(root, ctxs, typs);
    WalkAgrees(root, name, Override(none, root.entry), ctxs, typs);
  }

  // ---------------------------------------------------------------- the compiler

  /** No two rules of the list would be stored in the same place. */
  ghost predicate DistinctKeys(rules: seq<Rule>)
  {
    forall i, j :: 0 <= i < j < |rules| ==> !SameKey(rules[i], rules[j])
  }

  ghost predicate WellFormed(rules: seq<Rule>, dc: Str, dt: Str)
  {
    0 !in dc && 0 !in dt && (forall r :: r in rules ==> Acceptable(r)) && DistinctKeys(rules)
  }

  /** The sorted string tables. */
  ghost function ContextTable(rules: set<Rule>, dc: Str): seq<Str>
  {
    Sorted(Alphabetical, ContextsOf(rules, dc))
  }

  ghost function TypeTable(rules: set<Rule>, dt: Str): seq<Str>
  {
    Sorted(Alphabetical, TypesOf(rules, dt))
  }

  ghost function CompiledTrie(rules: set<Rule>, dc: Str, dt: Str): TNode
    requires HasTrie(rules, dc, dt)
  {
    Resolve(TrieOf(rules, dc, dt), ContextTable(rules, dc), TypeTable(rules, dt))
  }

  /** The image of a set of rules: a function of the set, whatever order the rules came in. */
  ghost function CompiledImage(rules: set<Rule>, dc: Str, dt: Str): Str
    requires HasTrie(rules, dc, dt)
  {
    EmitImage(ContextTable(rules, dc), TypeTable(rules, dt), CompiledTrie(rules, dc, dt))
  }

  /** Well-formed rules have a trie that the serializer cannot fail on. */
  lemma {:induction false} TrieExists(rules: seq<Rule>, dc: Str, dt: Str) returns (root: Node)
    requires WellFormed(rules, dc, dt)
    ensures Represents(root, Elements(rules), dc, dt)
    ensures Good(root, MAX_NAME_SEGMENTS, ContextsOf(Elements(rules), dc), TypesOf(Elements(rules), dt))
    decreases |rules|
  {
    hide Represents, Good, Acceptable, SameKey, FreshKey, ContextsOf, TypesOf;
    if rules == [] {
      root := EmptyTrie(dc, dt);
    } else {
      var k := |rules| - 1;
      var before, r := rules[..k], rules[k];
      ElementsUpTo(rules, k);
      assert rules[..k + 1] == rules;
      assert DistinctKeys(before);
      var below := TrieExists(before, dc, dt);
      root := OneMoreRule(below, Elements(before), dc, dt, r);
    }
  }

  lemma {:induction false} EmptyTrie(dc: Str, dt: Str) returns (root: Node)
    requires 0 !in dc && 0 !in dt
    ensures Represents(root, Elements<Rule>([]), dc, dt)
    ensures Good(root, MAX_NAME_SEGMENTS, ContextsOf(Elements<Rule>([]), dc), TypesOf(Elements<Rule>([]), dt))
  {
    root := EmptyNode(ROOT_NAME).(entry := Entry(ROOT_NAME, Some(dc), Some(dt)));
  }

  lemma {:induction false} OneMoreRule(below: Node, rules: set<Rule>, dc: Str, dt: Str, r: Rule) returns (root: Node)
    requires Represents(below, rules, dc, dt)
    requires Good(below, MAX_NAME_SEGMENTS, ContextsOf(rules, dc), TypesOf(rules, dt))
    requires Acceptable(r) && FreshKey(rules, r)
    ensures Represents(root, rules + {r}, dc, dt)
    ensures Good(root, MAX_NAME_SEGMENTS, ContextsOf(rules + {r}, dc), TypesOf(rules + {r}, dt))
  {
    hide Represents, Good, FreshKey, AddAt, Segments, CleanName;
    AddRepresents(below, rules, dc, dt, r);
    root := AddAt(below, PartsOf(r), SlotOf(r), r.context, r.rtype).value;
    TablesOfOneMore(rules, dc, dt, r);
    var ctxs, typs := ContextsOf(rules + {r}, dc), TypesOf(rules + {r}, dt);
    GoodMonotone(below, MAX_NAME_SEGMENTS, ContextsOf(rules, dc), TypesOf(rules, dt), ctxs, typs);
    PartsClean(Strip(r.name));
    AddKeepsGood(below, MAX_NAME_SEGMENTS, ctxs, typs, PartsOf(r), SlotOf(r), r.context, r.rtype);
  }

  /** The one trie of well-formed rules suits the serializer. */
  lemma {:induction false} TrieOfIsGood(rules: seq<Rule>, dc: Str, dt: Str)
    requires WellFormed(rules, dc, dt)
    ensures HasTrie(Elements(rules), dc, dt)
    ensures Good(TrieOf(Elements(rules), dc, dt), MAX_NAME_SEGMENTS,
                 ContextsOf(Elements(rules), dc), TypesOf(Elements(rules), dt))
  {
    hide Represents, Good, WellFormed, ContextsOf, TypesOf;
    var root := TrieExists(rules, dc, dt);
    RulesDetermineTrie(root, TrieOf(Elements(rules), dc, dt), Elements(rules), dc, dt);
  }

  /** A rule list compiles when it is well-formed and its image fits the 32-bit offset space. */
  ghost predicate Compiles(rules: seq<Rule>, dc: Str, dt: Str)
  {
    WellFormed(rules, dc, dt)
    && (TrieOfIsGood(rules, dc, dt);
        |CompiledImage(Elements(rules), dc, dt)| <= U32_MAX)
  }

  /** Rules and defaults that have no NULs, names spelled as they must be, and places of their own. */
  ghost predicate Compilable(rules: seq<Rule>, dc: Str, dt: Str)
  {
    0 !in dc && 0 !in dt && (forall r :: r in rules ==> WellSpelled(r))
    && forall i, j :: 0 <= i < j < |rules| ==> !SamePlace(rules[i], rules[j])
  }

  /** The bytes of the image, counted, fit 32 bits. */
  ghost predicate ImageFits(rules: seq<Rule>, dc: Str, dt: Str)
  {
    HasTrie(Elements(rules), dc, dt)
    && ImageBytes(ContextTable(Elements(rules), dc), TypeTable(Elements(rules), dt), CompiledTrie(Elements(rules), dc, dt)) <= 0xFFFF_FFFF
  }

  lemma {:induction false} WellFormedBySpelling(rules: seq<Rule>, dc: Str, dt: Str)
    ensures WellFormed(rules, dc, dt) <==> Compilable(rules, dc, dt)
  {
    hide Acceptable, WellSpelled, SameKey, SamePlace;
    forall r | r in rules ensures Acceptable(r) <==> WellSpelled(r) {
      AcceptableBySpelling(r);
    }
    if forall r :: r in rules ==> WellSpelled(r) {
      forall i, j | 0 <= i < j < |rules| ensures SameKey(rules[i], rules[j]) <==> SamePlace(rules[i], rules[j]) {
        SameKeyByPlace(rules[i], rules[j]);
      }
    }
  }

  /** Well-spelled rules in different places compile whenever their image fits 32 bits, and no others do. */
  lemma {:induction false} CompilesBySpelling(rules: seq<Rule>, dc: Str, dt: Str)
    ensures Compiles(rules, dc, dt) <==> Compilable(rules, dc, dt) && ImageFits(rules, dc, dt)
  {
    hide WellFormed, Compilable, EmitImage, Good, ImageBytes, ContextTable, TypeTable, CompiledTrie;
    WellFormedBySpelling(rules, dc, dt);
    if WellFormed(rules, dc, dt) {
      TrieOfIsGood(rules, dc, dt);
      ImageSizeIs(ContextTable(Elements(rules), dc), TypeTable(Elements(rules), dt), CompiledTrie(Elements(rules), dc, dt));
    }
  }

  lemma {:induction false} TablesNulFree(rules: set<Rule>, dc: Str, dt: Str)
    requires 0 !in dc && 0 !in dt && forall r :: r in rules ==> Acceptable(r)
    ensures (forall s :: s in ContextTable(rules, dc) ==> 0 !in s) && (forall s :: s in TypeTable(rules, dt) ==> 0 !in s)
  {
    hide StrictlySorted, PartsOf;
  }

  lemma {:induction false} ElementsUpTo(rules: seq<Rule>, i: nat)
    requires i < |rules|
    ensures Elements(rules[..i + 1]) == Elements(rules[..i]) + {rules[i]}
    ensures DistinctKeys(rules) ==> FreshKey(Elements(rules[..i]), rules[i])
  {
    hide SameKey;
    assert rules[..i + 1] == rules[..i] + [rules[i]];
  }

  /** What has been taken so far is well-formed. */
  ghost predicate TakenUpTo(rules: seq<Rule>, i: nat)
    requires i <= |rules|
  {
    (forall j :: 0 <= j < i ==> Acceptable(rules[j]))
    && forall j, k :: 0 <= j < k < i ==> !SameKey(rules[j], rules[k])
  }

  lemma {:induction false} TakenOneMore(rules: seq<Rule>, i: nat)
    requires i < |rules| && TakenUpTo(rules, i)
    requires Acceptable(rules[i]) && FreshKey(Elements(rules[..i]), rules[i])
    ensures TakenUpTo(rules, i + 1)
  {
    hide Acceptable, SameKey;
    forall j | 0 <= j < i ensures !SameKey(rules[j], rules[i]) {
      assert rules[j] in rules[..i];
    }
  }

  /** `build_trie`.  It succeeds exactly on lists that compile, and gives the image of their set. */
  method BuildTrie(rules: seq<Rule>, defaultContext: Str, defaultType: Str) returns (r: Result<Str>)
    ensures r.Ok? <==> Compiles(rules, defaultContext, defaultType)
    ensures r.Ok? <==> Compilable(rules, defaultContext, defaultType) && ImageFits(rules, defaultContext, defaultType)
    ensures r.Ok? ==> r.value == CompiledImage(Elements(rules), defaultContext, defaultType)
  {
    hide Represents, Good, ContextsOf, TypesOf, Acceptable, FreshKey, DistinctKeys, Elements, Resolve, EmitImage, TakenUpTo,
         Resolvable, Shallow, SameKey, Compilable, ImageFits;
    CompilesBySpelling(rules, defaultContext, defaultType);
    if 0 in defaultContext || 0 in defaultType {
      return Err(NulByte);
    }
    var trie := new Builder(defaultContext, defaultType);
    assert Elements(rules[..0]) == {} by { assert rules[..0] == []; EmptyElements(); }
    assert TakenUpTo(rules, 0) by { NothingTaken(rules); }
    var i := 0;
    while i < |rules|
      invariant 0 <= i <= |rules| && trie.Valid() && fresh(trie)
      invariant trie.defaultContext == defaultContext && trie.defaultType == defaultType
      invariant trie.rules == Elements(rules[..i]) && TakenUpTo(rules, i)
    {
      ElementsUpTo(rules, i);
      var entry := rules[i];
      var _ :- trie.AddToTrie(entry.name, entry.context, entry.rtype, entry.exact);
      TakenOneMore(rules, i);
      i := i + 1;
    }
    assert rules[..i] == rules;
    AllTaken(rules);
    RulesDetermineTrie(trie.root, TrieOf(trie.rules, defaultContext, defaultType), trie.rules, defaultContext, defaultType);
    var contexts := SortNames(Alphabetical, trie.contexts);
    var types := SortNames(Alphabetical, trie.types);
    SerializableTrie(trie.root, trie.rules, defaultContext, defaultType);
    var serializer := new Serializer();
    var _ :- serializer.Serialize(contexts, types, trie.root);
    return Ok(serializer.arena.Image());
  }

  lemma {:induction false} EmptyElements()
    ensures Elements<Rule>([]) == {}
  {
  }

  lemma {:induction false} NothingTaken(rules: seq<Rule>)
    ensures TakenUpTo(rules, 0)
  {
  }

  lemma {:induction false} AllTaken(rules: seq<Rule>)
    requires TakenUpTo(rules, |rules|)
    ensures (forall r :: r in rules ==> Acceptable(r)) && DistinctKeys(rules)
    ensures forall r :: r in Elements(rules) ==> Acceptable(r)
  {
    hide Acceptable, SameKey;
  }

  lemma {:induction false} SerializableTrie(root: Node, rules: set<Rule>, dc: Str, dt: Str)
    requires Good(root, MAX_NAME_SEGMENTS, ContextsOf(rules, dc), TypesOf(rules, dt))
    requires 0 !in dc && 0 !in dt && forall r :: r in rules ==> Acceptable(r)
    ensures var ctxs, typs := ContextTable(rules, dc), TypeTable(rules, dt);
            Resolvable(root, ctxs, typs) && Shallow(root, MAX_TRIE_DEPTH)
            && (forall s :: s in ctxs ==> 0 !in s) && (forall s :: s in typs ==> 0 !in s)
  {
    hide Good, ContextsOf, TypesOf, Acceptable, Resolvable, Shallow, StrictlySorted;
    TablesNulFree(rules, dc, dt);
    GoodSerializes(root, MAX_NAME_SEGMENTS, ContextTable(rules, dc), TypeTable(rules, dt));
    ShallowMonotone(root, MAX_NAME_SEGMENTS, MAX_TRIE_DEPTH);
  }
}
