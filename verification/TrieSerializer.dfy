/** The serializer (trie_serializer.rs): it allocates records first and patches their fields after later
    allocations.  Each method is proved equal to the one-pass emitter of `ImageFormat`, and fails exactly
    when that output would not fit in the 32-bit offset space, the trie is too deep, or a context or type
    is missing from the string tables. */
module TrieSerializer {
  import opened Base
  import opened Order
  import opened ImageFormat
  import opened TrieBuilder
  import opened TrieNodeArena
  import opened PropertyInfoArea

  const MAX_TRIE_DEPTH: nat := 512

  // ---------------------------------------------------------------- resolving a trie

  ghost function PosIn(table: seq<Str>, s: Str): (i: nat)
    requires s in table
    ensures i < |table| && table[i] == s
  {
    var i :| 0 <= i < |table| && table[i] == s;
    i
  }

  lemma {:induction false} PosUnique(table: seq<Str>, i: nat)
    requires StrictlySorted(Alphabetical, table) && i < |table|
    ensures PosIn(table, table[i]) == i
  {
    BeforeIsStrictOrder(Alphabetical, table[i], table[i], table[i]);
  }

  predicate InTable(table: seq<Str>, s: Option<Str>)
  {
    s.None? || s.value == [] || s.value in table
  }

  /** The index written for an optional string: unset and empty become the sentinel. */
  ghost function ResolveIdx(table: seq<Str>, s: Option<Str>): nat
  {
    if s.None? || s.value == [] || s.value !in table then NO_INDEX else PosIn(table, s.value)
  }

  predicate EntryInTables(e: Entry, ctxs: seq<Str>, typs: seq<Str>)
  {
    InTable(ctxs, e.context) && InTable(typs, e.rtype)
  }

  ghost function ResolveEnt(e: Entry, ctxs: seq<Str>, typs: seq<Str>): Ent
  {
    Ent(e.name, ResolveIdx(ctxs, e.context), ResolveIdx(typs, e.rtype))
  }

  ghost function ResolveList(es: seq<Entry>, ctxs: seq<Str>, typs: seq<Str>): (r: seq<Ent>)
    ensures |r| == |es| && forall i :: 0 <= i < |es| ==> r[i] == ResolveEnt(es[i], ctxs, typs)
  {
    seq(|es|, i requires 0 <= i < |es| => ResolveEnt(es[i], ctxs, typs))
  }

  /** The entries of a name-keyed set in the order of `names`. */
  function Listing(m: map<Str, Entry>, names: seq<Str>): (es: seq<Entry>)
    requires forall x :: x in names ==> x in m
    ensures |es| == |names| && forall i :: 0 <= i < |names| ==> es[i] == m[names[i]]
  {
    seq(|names|, i requires 0 <= i < |names| => m[names[i]])
  }

  ghost function SortedEntries(k: SortKind, m: map<Str, Entry>): seq<Entry>
  {
    Listing(m, Sorted(k, m.Keys))
  }

  ghost function ChildOrder(node: Node): (names: seq<Str>)
    ensures forall x :: x in names <==> x in node.children
  {
    Sorted(Alphabetical, node.children.Keys)
  }

  /** The trie in serialization order with resolved indexes. */
  ghost function Resolve(node: Node, ctxs: seq<Str>, typs: seq<Str>): TNode
    decreases node
  {
    var names := ChildOrder(node);
    TNode(ResolveEnt(node.entry, ctxs, typs),
          ResolveList(SortedEntries(LongestFirst, node.prefixes), ctxs, typs),
          ResolveList(SortedEntries(Alphabetical, node.exacts), ctxs, typs),
          seq(|names|, i requires 0 <= i < |names| => Resolve(node.children[names[i]], ctxs, typs)))
  }

  predicate AllInTables(es: seq<Entry>, ctxs: seq<Str>, typs: seq<Str>)
  {
    forall i :: 0 <= i < |es| ==> EntryInTables(es[i], ctxs, typs)
  }

  predicate EntriesInTables(node: Node, ctxs: seq<Str>, typs: seq<Str>)
  {
    EntryInTables(node.entry, ctxs, typs)
    && (forall q :: q in node.prefixes ==> EntryInTables(node.prefixes[q], ctxs, typs))
    && (forall q :: q in node.exacts ==> EntryInTables(node.exacts[q], ctxs, typs))
  }

  /** Every context and type of the trie is in the tables. */
  predicate Resolvable(node: Node, ctxs: seq<Str>, typs: seq<Str>)
    decreases node
  {
    EntriesInTables(node, ctxs, typs)
    && forall q :: q in node.children ==> Resolvable(node.children[q], ctxs, typs)
  }

  /** At most `k` levels below the node. */
  predicate Shallow(node: Node, k: int)
    decreases node
  {
    0 <= k && forall q :: q in node.children ==> Shallow(node.children[q], k - 1)
  }

  predicate ChildrenResolvable(node: Node, ctxs: seq<Str>, typs: seq<Str>)
  {
    forall q :: q in node.children ==> Resolvable(node.children[q], ctxs, typs)
  }

  predicate ChildrenShallow(node: Node, k: int)
  {
    forall q :: q in node.children ==> Shallow(node.children[q], k - 1)
  }

  lemma {:induction false} ResolveParts(node: Node, ctxs: seq<Str>, typs: seq<Str>)
    ensures var n := Resolve(node, ctxs, typs);
            n.entry == ResolveEnt(node.entry, ctxs, typs)
            && n.prefixes == ResolveList(SortedEntries(LongestFirst, node.prefixes), ctxs, typs)
            && n.exacts == ResolveList(SortedEntries(Alphabetical, node.exacts), ctxs, typs)
            && |n.children| == |ChildOrder(node)|
  {
  }

  lemma {:induction false} ResolveChild(node: Node, ctxs: seq<Str>, typs: seq<Str>, i: nat)
    requires i < |ChildOrder(node)|
    ensures i < |Resolve(node, ctxs, typs).children|
    ensures ChildOrder(node)[i] in node.children
    ensures Resolve(node, ctxs, typs).children[i] == Resolve(node.children[ChildOrder(node)[i]], ctxs, typs)
  {
  }

  // ---------------------------------------------------------------- tables survive growth

  lemma {:induction false} CStrGrows(img: Str, img': Str, off: nat)
    requires img <= img' && CStr(img, off).Some?
    ensures CStr(img', off) == CStr(img, off)
  {
    var s := CStr(img, off).value;
    assert img[off..off + |s| + 1] == img'[off..off + |s| + 1];
    CStrOf(img', off, s);
  }

  lemma {:induction false} TableGrows(img: Str, img': Str, off: nat, ss: seq<Str>)
    requires img <= img' && TableAt(img, off, ss)
    ensures TableAt(img', off, ss)
  {
    hide CStr;
    forall i | 0 <= i < |ss| ensures CStr(img', Word(img', off + 4 + 4 * i)) == Some(ss[i]) {
      assert Word(img', off + 4 + 4 * i) == Word(img, off + 4 + 4 * i);
      assert CStr(img, Word(img, off + 4 + 4 * i)) == Some(ss[i]);
      CStrGrows(img, img', Word(img, off + 4 + 4 * i));
    }
  }

  lemma {:induction false} TablesGrow(img: Str, img': Str, ctxs: seq<Str>, typs: seq<Str>)
    requires img <= img' && TablesAt(img, ctxs, typs)
    ensures TablesAt(img', ctxs, typs)
  {
    hide TableAt;
    TableGrows(img, img', Word(img, 12), ctxs);
    TableGrows(img, img', Word(img, 16), typs);
  }

  // ---------------------------------------------------------------- sizes only grow

  lemma {:induction false} EntsGrow(es: seq<Ent>, i: nat, k: nat, base: nat)
    requires i <= k <= |es|
    ensures |EmitEnts(es, i, base)| <= |EmitEnts(es, k, base)|
    decreases k
  {
    hide EmitEnt;
    if i < k {
      EntsGrow(es, i, k - 1, base);
    }
  }

  lemma {:induction false} StrsGrow(ss: seq<Str>, i: nat, k: nat)
    requires i <= k <= |ss|
    ensures |EmitStrs(ss, i)| <= |EmitStrs(ss, k)|
    decreases k
  {
    hide EmitStr;
    if i < k {
      StrsGrow(ss, i, k - 1);
    }
  }

  lemma {:induction false} NodesGrow(n: TNode, i: nat, k: nat, base: nat)
    requires i <= k <= |n.children|
    ensures |EmitNodes(n, i, base)| <= |EmitNodes(n, k, base)|
    decreases k
  {
    hide EmitNode;
    if i < k {
      NodesGrow(n, i, k - 1, base);
    }
  }

  /** The lists a node is written from hold what its maps hold. */
  lemma {:induction false} NodeListings(node: Node, ctxs: seq<Str>, typs: seq<Str>)
    ensures EntriesInTables(node, ctxs, typs) <==>
              EntryInTables(node.entry, ctxs, typs)
              && AllInTables(SortedEntries(LongestFirst, node.prefixes), ctxs, typs)
              && AllInTables(SortedEntries(Alphabetical, node.exacts), ctxs, typs)
  {
    hide EntryInTables, StrictlySorted;
    ListingHolds(LongestFirst, node.prefixes, ctxs, typs);
    ListingHolds(Alphabetical, node.exacts, ctxs, typs);
  }

  lemma {:induction false} ListingHolds(k: SortKind, m: map<Str, Entry>, ctxs: seq<Str>, typs: seq<Str>)
    ensures AllInTables(SortedEntries(k, m), ctxs, typs) <==> forall q :: q in m ==> EntryInTables(m[q], ctxs, typs)
  {
    hide EntryInTables, StrictlySorted;
    var names, es := Sorted(k, m.Keys), SortedEntries(k, m);
    if AllInTables(es, ctxs, typs) {
      forall q | q in m ensures EntryInTables(m[q], ctxs, typs) {
        var i :| 0 <= i < |names| && names[i] == q;
        assert es[i] == m[q];
      }
    }
    if forall q :: q in m ==> EntryInTables(m[q], ctxs, typs) {
      forall i | 0 <= i < |es| ensures EntryInTables(es[i], ctxs, typs) {
        assert names[i] in m && es[i] == m[names[i]];
      }
    }
  }

  // ---------------------------------------------------------------- the shape of the image while patching

  /** The image is `pre`, then a patchable record or array, then `post`. */
  predicate Shaped(img: Str, pre: Str, ws: seq<int>, post: Str)
  {
    img == pre + WordsBytes(ws) + post
  }

  lemma {:induction false} ShapedFacts(img: Str, pre: Str, ws: seq<int>, post: Str)
    requires Shaped(img, pre, ws, post)
    ensures |img| == |pre| + 4 * |ws| + |post| && pre <= img
  {
  }

  lemma {:induction false} ShapedNew(pre: Str, ws: seq<int>)
    ensures Shaped(pre + WordsBytes(ws), pre, ws, [])
  {
  }

  lemma {:induction false} ShapedGrows(img: Str, pre: Str, ws: seq<int>, post: Str, part: Str)
    requires Shaped(img, pre, ws, post)
    ensures Shaped(img + part, pre, ws, post + part)
  {
    hide WordsBytes;
  }

  // ---------------------------------------------------------------- the serializer object

  lemma {:induction false} NoEntries(es: seq<Ent>, base: nat, ctxs: seq<Str>, typs: seq<Str>)
    ensures EmitEnts(es, 0, base) == [] && EntOffsets(es, 0, base) == [] && AllInTables([], ctxs, typs)
  {
  }

  /** One more entry of a list. */
  lemma {:induction false} EntryStep(entries: seq<Entry>, es: seq<Ent>, i: nat, base: nat, ctxs: seq<Str>, typs: seq<Str>)
    requires i < |entries| == |es|
    ensures EmitEnts(es, i + 1, base) == EmitEnts(es, i, base) + EmitEnt(es[i], base + |EmitEnts(es, i, base)|)
    ensures EntOffsets(es, i + 1, base) == EntOffsets(es, i, base) + [base + |EmitEnts(es, i, base)|]
    ensures AllInTables(entries, ctxs, typs) ==> EntryInTables(entries[i], ctxs, typs)
    ensures AllInTables(entries[..i + 1], ctxs, typs) <==>
              AllInTables(entries[..i], ctxs, typs) && EntryInTables(entries[i], ctxs, typs)
  {
    hide EmitEnt, EntryInTables;
    assert entries[..i + 1] == entries[..i] + [entries[i]];
  }

  class Serializer {
    const arena: Arena
    ghost var ctxs: seq<Str>
    ghost var typs: seq<Str>

    /** The string tables are in place and can be searched. */
    ghost predicate Ready()
      reads this, arena
    {
      arena.Valid() && TablesAt(arena.Image(), ctxs, typs)
      && StrictlySorted(Alphabetical, ctxs) && StrictlySorted(Alphabetical, typs)
    }

    constructor ()
      ensures fresh(arena) && arena.Valid() && arena.Image() == []
    {
      arena := new Arena();
      ctxs, typs := [], [];
    }

    /** `resolve_index`: a present, non-empty string must be in the table. */
    static method ResolveIndex(img: Str, table: nat, s: Option<Str>, ghost ss: seq<Str>) returns (r: Result<nat>)
      requires |img| <= U32_MAX && TableAt(img, table, ss) && StrictlySorted(Alphabetical, ss)
      ensures r.Ok? <==> InTable(ss, s)
      ensures r.Ok? ==> r.value == ResolveIdx(ss, s)
    {
      hide StrictlySorted, CStr;
      if s.None? || s.value == [] {
        return Ok(NO_INDEX);
      }
      var i := FindStringIndex(img, table, s.value, ss);
      if i.None? {
        return Err(TableMiss);
      }
      PosUnique(ss, i.value);
      if i.value >= NO_INDEX {
        return Err(TableMiss);
      }
      return Ok(i.value);
    }

    /** `get_object(off)?.field = w` on the record at the end of `pre`.  The bounds check cannot fail on a
        record that has been allocated, which is what the precondition says. */
    method StampField(off: nat, words: nat, k: nat, w: int, ghost pre: Str, ghost ws: seq<int>, ghost post: Str)
      requires arena.Valid() && Shaped(arena.Image(), pre, ws, post)
      requires off == |pre| && Aligned(off) && k < |ws| == words
      modifies arena
      ensures arena.Valid() && arena.used == old(arena.used)
      ensures Shaped(arena.Image(), pre, ws[k := w], post)
    {
      hide WordsBytes, Aligned;
      PokeField(pre, ws, post, k, w);
      var stamped := arena.SetField(off, words, k, w);
    }

    /** `uint32_array(off, n)?.copy_from_slice(xs)` on the array at the end of `pre`. */
    method StampArray(off: nat, xs: seq<int>, ghost pre: Str, ghost ws: seq<int>, ghost post: Str)
      requires arena.Valid() && Shaped(arena.Image(), pre, ws, post)
      requires off == |pre| && Aligned(off) && |ws| == |xs|
      modifies arena
      ensures arena.Valid() && arena.used == old(arena.used)
      ensures Shaped(arena.Image(), pre, xs, post)
    {
      hide WordsBytes, Aligned;
      PokeWords(pre, ws, post, xs);
      var stamped := arena.SetArray(off, xs);
    }

    method WritePropertyEntry(e: Entry) returns (r: Result<nat>)
      requires Ready()
      modifies arena
      ensures var base := |old(arena.Image())|; var ent := ResolveEnt(e, ctxs, typs);
              (r.Ok? <==> EntryInTables(e, ctxs, typs) && base + |EmitEnt(ent, base)| <= U32_MAX)
              && (r.Ok? ==> Ready() && r.value == base && arena.Image() == old(arena.Image()) + EmitEnt(ent, base))
    {
      hide StrictlySorted, TableAt, WordsBytes, EmitStr, Aligned, InTable, ResolveIdx;
      ghost var pre := arena.Image();
      var img := arena.Image();
      var ci :- ResolveIndex(img, Word(img, 12), e.context, ctxs);
      var ti :- ResolveIndex(img, Word(img, 16), e.rtype, typs);
      var off :- arena.AllocateWords(4);
      var nameOff :- arena.AllocateAndWriteString(e.name);
      ghost var ws, post := ZeroWords(4), EmitStr(e.name);
      StampField(off, 4, 0, nameOff, pre, ws, post);
      ws := ws[0 := nameOff];
      StampField(off, 4, 1, |e.name|, pre, ws, post);
      ws := ws[1 := |e.name|];
      StampField(off, 4, 2, ci, pre, ws, post);
      ws := ws[2 := ci];
      StampField(off, 4, 3, ti, pre, ws, post);
      ws := ws[3 := ti];
      assert ws == [off + ENTRY_SIZE, |e.name|, ci, ti];
      assert arena.Image() == pre + EmitEnt(ResolveEnt(e, ctxs, typs), off);
      TablesGrow(pre, arena.Image(), ctxs, typs);
      return Ok(off);
    }

    /** A list of entries, one after the other. */
    method WriteEntries(entries: seq<Entry>) returns (r: Result<seq<int>>)
      requires Ready()
      modifies arena
      ensures var base := |old(arena.Image())|; var es := ResolveList(entries, ctxs, typs);
              (r.Ok? <==> AllInTables(entries, ctxs, typs)
                          && base + |EmitEnts(es, |es|, base)| <= U32_MAX)
              && (r.Ok? ==> Ready() && r.value == EntOffsets(es, |es|, base)
                            && arena.Image() == old(arena.Image()) + EmitEnts(es, |es|, base))
    {
      hide StrictlySorted, TablesAt, EmitEnt, Aligned, EntryInTables, ResolveEnt, AllInTables, EmitEnts, EntOffsets;
      ghost var pre, es := arena.Image(), ResolveList(entries, ctxs, typs);
      NoEntries(es, |pre|, ctxs, typs);
      var offsets: seq<int> := [];
      var i := 0;
      assert arena.Image() == pre + EmitEnts(es, 0, |pre|);
      while i < |entries|
        invariant 0 <= i <= |entries| && Ready()
        invariant AllInTables(entries[..i], ctxs, typs)
        invariant arena.Image() == pre + EmitEnts(es, i, |pre|)
        invariant offsets == EntOffsets(es, i, |pre|)
      {
        EntsGrow(es, i + 1, |es|, |pre|);
        EntryStep(entries, es, i, |pre|, ctxs, typs);
        var off :- WritePropertyEntry(entries[i]);
        assert pre + EmitEnts(es, i, |pre|) + EmitEnt(es[i], |pre| + |EmitEnts(es, i, |pre|)|) == pre + EmitEnts(es, i + 1, |pre|);
        offsets := offsets + [off];
        i := i + 1;
      }
      assert entries[..i] == entries;
      return Ok(offsets);
    }

    /** Count, offset array and entries of one of a node's entry lists. */
    method WriteEntryArray(entries: seq<Entry>, node: nat, countField: nat, arrayField: nat,
                           ghost pre: Str, ghost ws: seq<int>, ghost post: Str)
      returns (r: Result<()>)
      requires Ready() && TablesAt(pre, ctxs, typs)
      requires Shaped(arena.Image(), pre, ws, post)
      requires node == |pre| && Aligned(node) && |ws| == 7 && countField < 7 && arrayField < 7
      modifies arena
      ensures var at := |old(arena.Image())|; var es := ResolveList(entries, ctxs, typs);
              (r.Ok? <==> AllInTables(entries, ctxs, typs) && at + |EmitEntArray(es, at)| <= U32_MAX)
              && (r.Ok? ==> Ready() && Shaped(arena.Image(), pre, ws[countField := |entries|][arrayField := at],
                                              post + EmitEntArray(es, at)))
    {
      hide StrictlySorted, TablesAt, EmitEnts, Aligned, AllInTables, WordsBytes, EntOffsets, Shaped, ResolveList;
      ghost var at, es := |arena.Image()|, ResolveList(entries, ctxs, typs);
      ghost var ws1 := ws[countField := |entries|];
      ghost var ws2 := ws1[arrayField := at];
      ghost var zeros := ZeroWords(|entries|);
      StampField(node, 7, countField, |entries|, pre, ws, post);
      ShapedGrows(arena.Image(), pre, ws1, post, WordsBytes(zeros));
      var arr :- arena.AllocateWords(|entries|);
      StampField(node, 7, arrayField, arr, pre, ws1, post + WordsBytes(zeros));
      ShapedFacts(arena.Image(), pre, ws2, post + WordsBytes(zeros));
      TablesGrow(pre, arena.Image(), ctxs, typs);
      ghost var front := arena.Image()[..at];
      ghost var body := EmitEnts(es, |es|, at + 4 * |es|);
      ArrayBehind(arena.Image(), pre, ws2, post, zeros);
      ShapedGrows(arena.Image(), front, zeros, [], body);
      var offsets :- WriteEntries(entries);
      StampArray(arr, offsets, front, zeros, [] + body);
      ArrayStamped(arena.Image(), pre, ws2, post, front, offsets, body);
      ShapedFacts(arena.Image(), pre, ws2, post + EmitEntArray(es, at));
      TablesGrow(pre, arena.Image(), ctxs, typs);
      return Ok(());
    }

    /** A zeroed node record with its entry behind it. */
    method StartNode(entry: Entry, ghost n: TNode) returns (r: Result<nat>)
      requires Ready() && n.entry == ResolveEnt(entry, ctxs, typs)
      modifies arena
      ensures var pre := old(arena.Image());
              (r.Ok? <==> EntryInTables(entry, ctxs, typs) && |pre| + NODE_SIZE + |NodeFront(n, 1, |pre|)| <= U32_MAX)
              && (r.Ok? ==> Ready() && r.value == |pre| && Aligned(|pre|)
                            && Shaped(arena.Image(), pre, [|pre| + NODE_SIZE, 0, 0, 0, 0, 0, 0], NodeFront(n, 1, |pre|)))
    {
      hide StrictlySorted, TablesAt, Aligned, EntryInTables, WordsBytes, EmitEnt, NodeFront, ResolveEnt, Shaped;
      ghost var pre, base := arena.Image(), |arena.Image()|;
      FrontStart(n, base);
      var off :- arena.AllocateWords(7);
      ShapedNew(pre, ZeroWords(7));
      TablesGrow(pre, arena.Image(), ctxs, typs);
      ShapedGrows(arena.Image(), pre, ZeroWords(7), [], NodeFront(n, 1, base));
      var pe :- WritePropertyEntry(entry);
      assert [] + NodeFront(n, 1, base) == NodeFront(n, 1, base);
      StampField(off, 7, 0, pe, pre, ZeroWords(7), NodeFront(n, 1, base));
      assert ZeroWords(7)[0 := pe] == [base + NODE_SIZE, 0, 0, 0, 0, 0, 0];
      ShapedFacts(arena.Image(), pre, [base + NODE_SIZE, 0, 0, 0, 0, 0, 0], NodeFront(n, 1, base));
      TablesGrow(pre, arena.Image(), ctxs, typs);
      return Ok(off);
    }

    /** The first part of a node, given its entry and its sorted prefix and exact-match lists. */
    method WriteFront(entry: Entry, prefixes: seq<Entry>, exacts: seq<Entry>, ghost n: TNode) returns (r: Result<nat>)
      requires Ready() && n.entry == ResolveEnt(entry, ctxs, typs)
      requires n.prefixes == ResolveList(prefixes, ctxs, typs) && n.exacts == ResolveList(exacts, ctxs, typs)
      modifies arena
      ensures var pre := old(arena.Image());
              (r.Ok? <==> EntryInTables(entry, ctxs, typs) && AllInTables(prefixes, ctxs, typs) && AllInTables(exacts, ctxs, typs)
                          && |pre| + NODE_SIZE + |NodeFront(n, 3, |pre|)| <= U32_MAX)
              && (r.Ok? ==> Ready() && r.value == |pre| && Aligned(|pre|)
                            && Shaped(arena.Image(), pre, NodeWords(n, |pre|)[1 := 0][2 := 0], NodeFront(n, 3, |pre|)))
    {
      hide StrictlySorted, TablesAt, Aligned, EntryInTables, WordsBytes, EmitEntArray, NodeFront,
           ResolveList, ResolveEnt, AllInTables, Shaped;
      ghost var pre, base := arena.Image(), |arena.Image()|;
      FrontNext(n, 1, base);
      FrontNext(n, 2, base);
      var off :- StartNode(entry, n);
      ghost var ws, post := [base + NODE_SIZE, 0, 0, 0, 0, 0, 0], NodeFront(n, 1, base);
      ShapedFacts(arena.Image(), pre, ws, post);
      var _ :- WriteEntryArray(prefixes, off, 3, 4, pre, ws, post);
      ws := ws[3 := |n.prefixes|][4 := base + NODE_SIZE + |post|];
      post := NodeFront(n, 2, base);
      ShapedFacts(arena.Image(), pre, ws, post);
      var _ :- WriteEntryArray(exacts, off, 5, 6, pre, ws, post);
      ws := ws[5 := |n.exacts|][6 := base + NODE_SIZE + |post|];
      assert ws == NodeWords(n, base)[1 := 0][2 := 0];
      return Ok(off);
    }

    /** The children of a node, one after the other, each in depth-first order. */
    method WriteChildren(node: Node, names: seq<Str>, depth: nat, ghost n: TNode) returns (r: Result<seq<int>>)
      requires Ready() && n == Resolve(node, ctxs, typs) && names == ChildOrder(node)
      modifies arena
      ensures var pre := old(arena.Image()); var k := |n.children|;
              (r.Ok? <==> ChildrenResolvable(node, ctxs, typs) && ChildrenShallow(node, MAX_TRIE_DEPTH - depth)
                          && |pre| + |EmitNodes(n, k, |pre|)| <= U32_MAX)
              && (r.Ok? ==> Ready() && r.value == ChildOffsets(n, k, |pre|)
                            && arena.Image() == pre + EmitNodes(n, k, |pre|))
      decreases node, 0
    {
      hide StrictlySorted, TablesAt, EmitNode, Resolvable, Shallow, Sorted, Resolve;
      ghost var pre := arena.Image();
      var offsets: seq<int> := [];
      var i := 0;
      ResolveParts(node, ctxs, typs);
      assert arena.Image() == pre + EmitNodes(n, 0, |pre|);
      while i < |names|
        invariant 0 <= i <= |names| && Ready()
        invariant forall j :: 0 <= j < i ==> Resolvable(node.children[names[j]], ctxs, typs)
                                             && Shallow(node.children[names[j]], MAX_TRIE_DEPTH - depth - 1)
        invariant arena.Image() == pre + EmitNodes(n, i, |pre|)
        invariant offsets == ChildOffsets(n, i, |pre|)
      {
        NodesGrow(n, i + 1, |n.children|, |pre|);
        assert names[i] in node.children;
        ResolveChild(node, ctxs, typs, i);
        var off :- WriteTrieNode(node.children[names[i]], depth + 1);
        offsets := offsets + [off];
        i := i + 1;
      }
      forall q | q in node.children
        ensures Resolvable(node.children[q], ctxs, typs) && Shallow(node.children[q], MAX_TRIE_DEPTH - depth - 1)
      {
        assert q in names;
        var j :| 0 <= j < |names| && names[j] == q;
      }
      return Ok(offsets);
    }

    /** `write_trie_node`: the whole subtree, in one piece at the end of the image. */
    method WriteTrieNode(node: Node, depth: nat) returns (r: Result<nat>)
      requires Ready()
      modifies arena
      ensures var pre := old(arena.Image()); var n := Resolve(node, ctxs, typs);
              (r.Ok? <==> Resolvable(node, ctxs, typs) && Shallow(node, MAX_TRIE_DEPTH - depth)
                          && |pre| + |EmitNode(n, |pre|)| <= U32_MAX)
              && (r.Ok? ==> Ready() && r.value == |pre| && arena.Image() == pre + EmitNode(n, |pre|))
      decreases node, 2
    {
      hide StrictlySorted, TablesAt, Aligned, WordsBytes, EmitNode, EmitNodes, NodeFront, Shaped, EntriesInTables,
           AllInTables, Resolve, ChildOffsets, ResolveList, ResolveEnt, Listing, Sorted;
      ghost var pre, base, n := arena.Image(), |arena.Image()|, Resolve(node, ctxs, typs);
      if depth > MAX_TRIE_DEPTH {
        return Err(TooDeep);
      }
      NodeLength(n, base);
      NodeListings(node, ctxs, typs);
      ResolveParts(node, ctxs, typs);
      var prefixNames := SortNames(LongestFirst, node.prefixes.Keys);
      var exactNames := SortNames(Alphabetical, node.exacts.Keys);
      var off :- WriteFront(node.entry, Listing(node.prefixes, prefixNames), Listing(node.exacts, exactNames), n);

      var names := SortNames(Alphabetical, node.children.Keys);
      r := FinishNode(node, names, off, depth, pre, n);
    }

    /** The second part of a node: child count, child array, children. */
    method FinishNode(node: Node, names: seq<Str>, off: nat, depth: nat, ghost pre: Str, ghost n: TNode) returns (r: Result<nat>)
      requires Ready() && TablesAt(pre, ctxs, typs) && n == Resolve(node, ctxs, typs) && names == ChildOrder(node)
      requires off == |pre| && Aligned(off)
      requires Shaped(arena.Image(), pre, NodeWords(n, |pre|)[1 := 0][2 := 0], NodeFront(n, 3, |pre|))
      modifies arena
      ensures (r.Ok? <==> ChildrenResolvable(node, ctxs, typs) && ChildrenShallow(node, MAX_TRIE_DEPTH - depth)
                          && |pre| + |EmitNode(n, |pre|)| <= U32_MAX)
              && (r.Ok? ==> Ready() && r.value == |pre| && arena.Image() == pre + EmitNode(n, |pre|))
      decreases node, 1
    {
      hide StrictlySorted, TablesAt, Aligned, WordsBytes, EmitNode, EmitNodes, NodeFront, Shaped,
           Resolve, ChildrenResolvable, ChildrenShallow, ChildOffsets, Sorted;
      ghost var base, front := |pre|, NodeFront(n, 3, |pre|);
      ghost var ws := NodeWords(n, base)[1 := 0][2 := 0];
      ghost var at := base + NODE_SIZE + |front|;
      ghost var first := at + 4 * |names|;
      assert |names| == |n.children| by { ResolveParts(node, ctxs, typs); }
      NodeLength(n, base);
      ShapedFacts(arena.Image(), pre, ws, front);
      StampField(off, 7, 1, |names|, pre, ws, front);
      ws := ws[1 := |names|];
      ghost var zeros := ZeroWords(|names|);
      ShapedGrows(arena.Image(), pre, ws, front, WordsBytes(zeros));
      var arr :- arena.AllocateWords(|names|);
      StampField(off, 7, 2, arr, pre, ws, front + WordsBytes(zeros));
      ws := ws[2 := arr];
      assert ws == NodeWords(n, base);
      ShapedFacts(arena.Image(), pre, ws, front + WordsBytes(zeros));
      TablesGrow(pre, arena.Image(), ctxs, typs);
      ghost var img := arena.Image()[..at];
      ghost var body := EmitNodes(n, |n.children|, first);
      ArrayBehind(arena.Image(), pre, ws, front, zeros);
      ShapedGrows(arena.Image(), img, zeros, [], body);
      var offsets :- WriteChildren(node, names, depth, n);
      StampArray(arr, offsets, img, zeros, [] + body);
      ArrayStamped(arena.Image(), pre, ws, front, img, offsets, body);
      NodeShaped(arena.Image(), pre, n, offsets);
      TablesGrow(pre, arena.Image(), ctxs, typs);
      return Ok(off);
    }

    /** Strings, one after the other. */
    method WriteStrings(ss: seq<Str>) returns (r: Result<seq<int>>)
      requires arena.Valid()
      modifies arena
      ensures var pre := old(arena.Image());
              (r.Ok? <==> |pre| + |EmitStrs(ss, |ss|)| <= U32_MAX)
              && (r.Ok? ==> arena.Valid() && r.value == StrOffsets(ss, |ss|, |pre|)
                            && arena.Image() == pre + EmitStrs(ss, |ss|))
    {
      hide EmitStr, Aligned;
      ghost var pre := arena.Image();
      var offsets: seq<int> := [];
      var i := 0;
      assert arena.Image() == pre + EmitStrs(ss, 0);
      while i < |ss|
        invariant 0 <= i <= |ss| && arena.Valid()
        invariant arena.Image() == pre + EmitStrs(ss, i)
        invariant offsets == StrOffsets(ss, i, |pre|)
      {
        StrsGrow(ss, i + 1, |ss|);
        var off :- arena.AllocateAndWriteString(ss[i]);
        offsets := offsets + [off];
        i := i + 1;
      }
      return Ok(offsets);
    }

    /** `serialize_strings`: count, offset array, strings. */
    method SerializeStrings(ss: seq<Str>) returns (r: Result<()>)
      requires arena.Valid()
      modifies arena
      ensures var pre := old(arena.Image());
              (r.Ok? <==> |pre| + |EmitTable(ss, |pre|)| <= U32_MAX)
              && (r.Ok? ==> arena.Valid() && arena.Image() == pre + EmitTable(ss, |pre|))
    {
      hide EmitStrs, Aligned, WordsBytes, Shaped, StrOffsets;
      ghost var pre, base := arena.Image(), |arena.Image()|;
      ghost var zeros, body := ZeroWords(|ss|), EmitStrs(ss, |ss|);
      assert |EmitTable(ss, base)| == 4 + 4 * |ss| + |body|;
      var _ :- arena.AllocateAndWriteWord(|ss|);
      ghost var front := arena.Image();
      var arr :- arena.AllocateWords(|ss|);
      ShapedNew(front, zeros);
      ShapedGrows(arena.Image(), front, zeros, [], body);
      var offsets :- WriteStrings(ss);
      StampArray(arr, offsets, front, zeros, [] + body);
      TableShaped(arena.Image(), pre, ss, front, offsets);
      return Ok(());
    }

    /** The header record and the two string tables. */
    method WriteTables(contexts: seq<Str>, types: seq<Str>) returns (r: Result<nat>)
      requires arena.Valid() && arena.Image() == []
      modifies arena
      ensures var ro := RootOffset(contexts, types);
              (r.Ok? <==> ro <= U32_MAX)
              && (r.Ok? ==> arena.Valid() && r.value == 0
                            && Shaped(arena.Image(), [], [1, 1, ro, HEADER_SIZE, TypesOffset(contexts), 0],
                                      TablesPart(contexts, types)))
    {
      hide EmitTable, Aligned, WordsBytes, Shaped;
      ghost var to, ro := TypesOffset(contexts), RootOffset(contexts, types);
      ghost var t1, t2 := EmitTable(contexts, HEADER_SIZE), EmitTable(types, to);
      var room := arena.AllocateWords(6);
      var header := room.value;
      assert [] + WordsBytes(ZeroWords(6)) == WordsBytes(ZeroWords(6));
      ShapedNew([], ZeroWords(6));
      StampField(header, 6, 0, 1, [], ZeroWords(6), []);
      ghost var ws := ZeroWords(6)[0 := 1];
      StampField(header, 6, 1, 1, [], ws, []);
      ws := ws[1 := 1];
      StampField(header, 6, 3, arena.used, [], ws, []);
      ws := ws[3 := HEADER_SIZE];
      ShapedGrows(arena.Image(), [], ws, [], t1);
      ShapedFacts(arena.Image(), [], ws, []);
      var _ :- SerializeStrings(contexts);
      ShapedFacts(arena.Image(), [], ws, [] + t1);
      StampField(header, 6, 4, arena.used, [], ws, [] + t1);
      ws := ws[4 := to];
      ShapedGrows(arena.Image(), [], ws, [] + t1, t2);
      ShapedFacts(arena.Image(), [], ws, [] + t1);
      var _ :- SerializeStrings(types);
      ShapedFacts(arena.Image(), [], ws, [] + t1 + t2);
      StampField(header, 6, 2, arena.used, [], ws, [] + t1 + t2);
      ws := ws[2 := ro];
      assert ws == [1, 1, ro, HEADER_SIZE, to, 0];
      return Ok(header);
    }

    /** `TrieSerializer::new` on a finished builder. */
    method Serialize(contexts: seq<Str>, types: seq<Str>, root: Node) returns (r: Result<()>)
      requires arena.Valid() && arena.Image() == []
      requires StrictlySorted(Alphabetical, contexts) && StrictlySorted(Alphabetical, types)
      requires (forall s :: s in contexts ==> 0 !in s) && (forall s :: s in types ==> 0 !in s)
      modifies this, arena
      ensures var img := EmitImage(contexts, types, Resolve(root, contexts, types));
              (r.Ok? <==> Resolvable(root, contexts, types) && Shallow(root, MAX_TRIE_DEPTH) && |img| <= U32_MAX)
              && (r.Ok? ==> arena.Valid() && arena.Image() == img)
    {
      hide EmitTable, EmitNode, Aligned, WordsBytes, Shaped, Resolve, Resolvable, Shallow, StrictlySorted, TableAt,
           TablesPart;
      ghost var n := Resolve(root, contexts, types);
      ghost var to, ro, tables := TypesOffset(contexts), RootOffset(contexts, types), TablesPart(contexts, types);
      ghost var body := EmitNode(n, ro);
      ImageLength(contexts, types, n);
      var header :- WriteTables(contexts, types);
      ghost var ws := [1, 1, ro, HEADER_SIZE, to, 0];
      ShapedFacts(arena.Image(), [], ws, tables);
      assert HEADER_SIZE + |tables| == ro by { TablesLength(contexts, types); }
      HeaderTables(arena.Image(), ws, contexts, types);
      ctxs, typs := contexts, types;
      ShapedGrows(arena.Image(), [], ws, tables, body);
      var rootOffset :- WriteTrieNode(root, 0);
      StampField(header, 6, 5, rootOffset, [], ws, tables + body);
      ws := ws[5 := ro];
      ShapedFacts(arena.Image(), [], ws, tables + body);
      StampField(header, 6, 2, arena.used, [], ws, tables + body);
      ws := ws[2 := ro + |body|];
      assert ws == [1, 1, ro + |body|, HEADER_SIZE, to, ro];
      ImageShaped(arena.Image(), ws, contexts, types, n);
      return Ok(());
    }
  }

  /** The two string tables, as they follow the header. */
  function TablesPart(ctxs: seq<Str>, typs: seq<Str>): Str
  {
    [] + EmitTable(ctxs, HEADER_SIZE) + EmitTable(typs, TypesOffset(ctxs))
  }

  lemma {:induction false} TablesLength(ctxs: seq<Str>, typs: seq<Str>)
    ensures HEADER_SIZE + |TablesPart(ctxs, typs)| == RootOffset(ctxs, typs)
  {
    hide EmitTable;
  }

  lemma {:induction false} TableShaped(img: Str, pre: Str, ss: seq<Str>, front: Str, offsets: seq<int>)
    requires front == pre + WordsBytes([|ss|]) && offsets == StrOffsets(ss, |ss|, |pre| + 4 + 4 * |ss|)
    requires Shaped(img, front, offsets, [] + EmitStrs(ss, |ss|))
    ensures img == pre + EmitTable(ss, |pre|)
  {
    hide WordsBytes, StrOffsets, EmitStrs;
  }

  lemma {:induction false} ImageLength(ctxs: seq<Str>, typs: seq<Str>, n: TNode)
    ensures |EmitImage(ctxs, typs, n)| == RootOffset(ctxs, typs) + |EmitNode(n, RootOffset(ctxs, typs))|
  {
    hide EmitTable, EmitNode;
  }

  lemma {:induction false} ImageShaped(img: Str, ws: seq<int>, ctxs: seq<Str>, typs: seq<Str>, n: TNode)
    requires var to, ro := TypesOffset(ctxs), RootOffset(ctxs, typs);
             ws == [1, 1, ro + |EmitNode(n, ro)|, HEADER_SIZE, to, ro]
             && Shaped(img, [], ws, TablesPart(ctxs, typs) + EmitNode(n, ro))
    ensures img == EmitImage(ctxs, typs, n)
  {
    hide EmitTable, EmitNode, WordsBytes;
  }

  lemma {:induction false} HeaderTables(img: Str, ws: seq<int>, ctxs: seq<Str>, typs: seq<Str>)
    requires |img| <= U32_MAX && |ws| == 6 && ws[3] == HEADER_SIZE && ws[4] == TypesOffset(ctxs)
    requires (forall s :: s in ctxs ==> 0 !in s) && (forall s :: s in typs ==> 0 !in s)
    requires Shaped(img, [], ws, TablesPart(ctxs, typs))
    ensures TablesAt(img, ctxs, typs)
  {
    hide EmitTable, WordsBytes, TableAt;
    var to, t1, t2 := TypesOffset(ctxs), EmitTable(ctxs, HEADER_SIZE), EmitTable(typs, TypesOffset(ctxs));
    assert Sub(img, 0, WordsBytes(ws) + t1 + t2);
    SubSplit(img, 0, WordsBytes(ws) + t1, t2);
    SubSplit(img, 0, WordsBytes(ws), t1);
    SubWords(img, 0, ws, 3);
    SubWords(img, 0, ws, 4);
    EmitTableAligned(ctxs, HEADER_SIZE);
    AlignedTimes4(6);
    AlignedSum(HEADER_SIZE, |t1|);
    TableDecodes(img, HEADER_SIZE, ctxs);
    TableDecodes(img, to, typs);
  }

  lemma {:induction false} NodeShaped(img: Str, pre: Str, n: TNode, offsets: seq<int>)
    requires var front := NodeFront(n, 3, |pre|); var first := |pre| + NODE_SIZE + |front| + 4 * |n.children|;
             offsets == ChildOffsets(n, |n.children|, first)
             && Shaped(img, pre, NodeWords(n, |pre|), front + (WordsBytes(offsets) + EmitNodes(n, |n.children|, first)))
    ensures img == pre + EmitNode(n, |pre|) && pre <= img
  {
    hide WordsBytes, NodeFront, NodeWords, ChildOffsets, EmitNodes;
  }

  /** The array just allocated behind `post` is itself the patchable part of the image. */
  lemma {:induction false} ArrayBehind(img: Str, pre: Str, ws: seq<int>, post: Str, zeros: seq<int>)
    requires Shaped(img, pre, ws, post + WordsBytes(zeros))
    ensures var at := |pre| + 4 * |ws| + |post|;
            at <= |img| && Shaped(img, img[..at], zeros, []) && img[..at] == pre + WordsBytes(ws) + post
  {
  }

  lemma {:induction false} ArrayStamped(img: Str, pre: Str, ws: seq<int>, post: Str, front: Str, offsets: seq<int>, body: Str)
    requires front == pre + WordsBytes(ws) + post && Shaped(img, front, offsets, [] + body)
    ensures Shaped(img, pre, ws, post + (WordsBytes(offsets) + body))
  {
    hide WordsBytes;
    assert [] + body == body;
  }

  lemma {:induction false} FrontStart(n: TNode, base: nat)
    ensures NodeFront(n, 1, base) == EmitEnt(n.entry, base + NODE_SIZE)
  {
    hide EmitEnt;
    assert NodeFront(n, 0, base) == [];
  }

  lemma {:induction false} FrontNext(n: TNode, k: nat, base: nat)
    requires 1 <= k < 3
    ensures NodeFront(n, k + 1, base)
         == NodeFront(n, k, base)
            + EmitEntArray(if k == 1 then n.prefixes else n.exacts, base + NODE_SIZE + |NodeFront(n, k, base)|)
  {
    hide EmitEntArray, EmitEnt;
  }
}
