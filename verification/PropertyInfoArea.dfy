/** The reader of a property-info image (property_info_parser.rs).

    The methods take any bytes: every read is bounds-checked, damaged entries are skipped, and a damaged
    child table ends the walk.  What they compute is stated for images that encode a trie. */
module PropertyInfoArea {
  import opened Base
  import opened Order
  import opened ImageFormat

  // ---------------------------------------------------------------- lookups on the decoded trie

  datatype Idx = Idx(ctx: nat, typ: nat)

  /** Set indexes replace what the walk has so far. */
  function Overlay(acc: Idx, e: Idx): Idx
  {
    Idx(if e.ctx == NO_INDEX then acc.ctx else e.ctx, if e.typ == NO_INDEX then acc.typ else e.typ)
  }

  function SetIdx(acc: Idx, e: Ent): Idx
  {
    Overlay(acc, Idx(e.ctx, e.typ))
  }

  /** The first entry from `i` on whose name is a prefix of `rest`. */
  function FirstPrefix(es: seq<Ent>, rest: Str, i: nat): (r: Option<Ent>)
    requires i <= |es|
    ensures r.Some? ==> r.value in es[i..] && r.value.name <= rest
    decreases |es| - i
  {
    if i == |es| then None
    else if es[i].name <= rest then Some(es[i])
    else FirstPrefix(es, rest, i + 1)
  }

  /** The first entry from `i` on named `name`. */
  function FirstNamed(es: seq<Ent>, name: Str, i: nat): (r: Option<Ent>)
    requires i <= |es|
    ensures r.Some? ==> r.value in es[i..] && r.value.name == name
    decreases |es| - i
  {
    if i == |es| then None
    else if es[i].name == name then Some(es[i])
    else FirstNamed(es, name, i + 1)
  }

  function ApplyPrefix(n: TNode, rest: Str, acc: Idx): Idx
  {
    match FirstPrefix(n.prefixes, rest, 0)
    case None => acc
    case Some(e) => SetIdx(acc, e)
  }

  function ApplyExact(n: TNode, rest: Str, acc: Idx): Idx
  {
    match FirstNamed(n.exacts, rest, 0)
    case None => acc
    case Some(e) => SetIdx(acc, e)
  }

  predicate HasChild(n: TNode, name: Str)
  {
    exists i :: 0 <= i < |n.children| && n.children[i].entry.name == name
  }

  /** The walk below a node whose own entry has been applied already. */
  ghost function WalkIdx(n: TNode, rest: Str, acc: Idx): Idx
    decreases |rest|
  {
    var acc' := ApplyPrefix(n, rest, acc);
    match IndexOf(rest, DOT)
    case Some(j) =>
      if HasChild(n, rest[..j]) then
        var i :| 0 <= i < |n.children| && n.children[i].entry.name == rest[..j];
        WalkIdx(n.children[i], rest[j + 1..], SetIdx(acc', n.children[i].entry))
      else ApplyExact(n, rest, acc')
    case None => ApplyExact(n, rest, acc')
  }

  ghost function LookupIdx(root: TNode, name: Str): Idx
  {
    WalkIdx(root, name, SetIdx(Idx(NO_INDEX, NO_INDEX), root.entry))
  }

  function ChildNames(n: TNode): (names: seq<Str>)
    ensures |names| == |n.children|
    ensures forall i :: 0 <= i < |names| ==> names[i] == n.children[i].entry.name
  {
    seq(|n.children|, i requires 0 <= i < |n.children| => n.children[i].entry.name)
  }

  /** No empty names below a node, and children in strict alphabetical order: what the reader's
      searches take for granted. */
  predicate Searchable(n: TNode)
  {
    (forall i :: 0 <= i < |n.prefixes| ==> n.prefixes[i].name != [])
    && (forall i :: 0 <= i < |n.exacts| ==> n.exacts[i].name != [])
    && StrictlySorted(Alphabetical, ChildNames(n))
    && forall i :: 0 <= i < |n.children| ==> n.children[i].entry.name != [] && Searchable(n.children[i])
  }

  // ---------------------------------------------------------------- checked reads

  /** A record of `size` bytes can be read at `off` (`ref_from`). */
  predicate Readable(img: Str, off: nat, size: nat)
  {
    Aligned(off) && off + size <= |img|
  }

  /** The name of the entry record at `off`, when the record and the name can be read. */
  function EntryName(img: Str, off: nat): Option<Str>
  {
    if Readable(img, off, ENTRY_SIZE) then CStr(img, Word(img, off)) else None
  }

  /** The name of the trie node at `off`. */
  function NodeName(img: Str, off: nat): Option<Str>
  {
    if Readable(img, off, NODE_SIZE) then EntryName(img, Word(img, off)) else None
  }

  function IdxOf(img: Str, off: nat): Idx
    requires Readable(img, off, ENTRY_SIZE)
  {
    Idx(Word(img, off + 8), Word(img, off + 12))
  }

  lemma {:induction false} EntFields(img: Str, off: nat, e: Ent)
    requires EntAt(img, off, e)
    ensures Readable(img, off, ENTRY_SIZE) && EntryName(img, off) == Some(e.name)
    ensures Word(img, off + 4) == |e.name| && IdxOf(img, off) == Idx(e.ctx, e.typ)
  {
  }

  // ---------------------------------------------------------------- the reader

  /** Applies the first prefix entry of the node at `node` that matches (`check_prefix_match`). */
  method CheckPrefixMatch(img: Str, rest: Str, node: nat, acc: Idx, ghost n: TNode) returns (r: Idx)
    ensures NodeAt(img, node, n) && Searchable(n) ==> r == ApplyPrefix(n, rest, acc)
  {
    hide NodeAt, Searchable, EntAt, CStr, Word, Aligned;
    ghost var ok := NodeAt(img, node, n) && Searchable(n);
    if ok { NodePrefixes(img, node, n); }
    if !Readable(img, node, NODE_SIZE) {
      return acc;
    }
    var count, arr := Word(img, node + 12), Word(img, node + 16);
    if !Readable(img, arr, 4 * count) {
      return acc;
    }
    var i := 0;
    while i < count
      invariant 0 <= i <= count
      invariant ok ==> FirstPrefix(n.prefixes, rest, 0) == FirstPrefix(n.prefixes, rest, i)
    {
      var off := Word(img, arr + 4 * i);
      if ok {
        EntFields(img, off, n.prefixes[i]);
      }
      if Readable(img, off, ENTRY_SIZE) && Word(img, off + 4) <= |rest| {
        var name := EntryName(img, off);
        if name.Some? && name.value != [] && name.value <= rest {
          return Overlay(acc, IdxOf(img, off));
        }
      }
      i := i + 1;
    }
    return acc;
  }

  lemma {:induction false} NodePrefixes(img: Str, node: nat, n: TNode)
    requires NodeAt(img, node, n) && Searchable(n)
    ensures Readable(img, node, NODE_SIZE) && Word(img, node + 12) == |n.prefixes|
    ensures Readable(img, Word(img, node + 16), 4 * |n.prefixes|)
    ensures forall i :: 0 <= i < |n.prefixes| ==>
              n.prefixes[i].name != [] && EntAt(img, Word(img, Word(img, node + 16) + 4 * i), n.prefixes[i])
  {
  }

  lemma {:induction false} NodeExacts(img: Str, node: nat, n: TNode)
    requires NodeAt(img, node, n) && Searchable(n)
    ensures Readable(img, node, NODE_SIZE) && Word(img, node + 20) == |n.exacts|
    ensures Readable(img, Word(img, node + 24), 4 * |n.exacts|)
    ensures forall i :: 0 <= i < |n.exacts| ==>
              n.exacts[i].name != [] && EntAt(img, Word(img, Word(img, node + 24) + 4 * i), n.exacts[i])
  {
  }

  lemma {:induction false} NodeChildren(img: Str, node: nat, n: TNode)
    requires NodeAt(img, node, n) && Searchable(n)
    ensures Readable(img, node, NODE_SIZE) && Word(img, node + 4) == |n.children|
    ensures Readable(img, Word(img, node + 8), 4 * |n.children|)
    ensures forall i :: 0 <= i < |n.children| ==>
              n.children[i].entry.name != [] && Searchable(n.children[i])
              && NodeAt(img, Word(img, Word(img, node + 8) + 4 * i), n.children[i])
    ensures StrictlySorted(Alphabetical, ChildNames(n))
  {
  }

  lemma {:induction false} NodeEntry(img: Str, node: nat, n: TNode)
    requires NodeAt(img, node, n)
    ensures Readable(img, node, NODE_SIZE) && EntAt(img, Word(img, node), n.entry)
    ensures NodeName(img, node) == Some(n.entry.name)
  {
  }

  /** The exact entry named `name` at the node at `node`, as the last loop of the lookup finds it. */
  method FindExact(img: Str, name: Str, node: nat, ghost n: TNode) returns (r: Option<Idx>)
    ensures NodeAt(img, node, n) && Searchable(n) ==>
              match FirstNamed(n.exacts, name, 0)
              case None => r == None
              case Some(e) => r.Some? && forall acc :: Overlay(acc, r.value) == SetIdx(acc, e)
  {
    hide NodeAt, Searchable, EntAt, CStr, Word, Aligned;
    ghost var ok := NodeAt(img, node, n) && Searchable(n);
    if ok { NodeExacts(img, node, n); }
    if !Readable(img, node, NODE_SIZE) {
      return None;
    }
    var count, arr := Word(img, node + 20), Word(img, node + 24);
    if !Readable(img, arr, 4 * count) {
      return None;
    }
    var i := 0;
    while i < count
      invariant 0 <= i <= count
      invariant ok ==> FirstNamed(n.exacts, name, 0) == FirstNamed(n.exacts, name, i)
    {
      var off := Word(img, arr + 4 * i);
      if ok {
        EntFields(img, off, n.exacts[i]);
      }
      var entryName := EntryName(img, off);
      if entryName.Some? && entryName.value != [] && entryName.value == name {
        return Some(IdxOf(img, off));
      }
      i := i + 1;
    }
    return None;
  }

  /** One probe of the child search.  A damaged child stops the search as if it were a hit. */
  function ProbeChild(img: Str, arr: nat, count: nat, key: Str, i: nat): Ordering
  {
    if !(i < count && arr + 4 * count <= |img|) then Equal
    else
      match NodeName(img, Word(img, arr + 4 * i))
      case None => Equal
      case Some(s) => if s == [] then Equal else Compare(s, key)
  }

  /** Binary search among the children; a damaged child disqualifies the result. */
  method FindChildForString(img: Str, node: nat, key: Str, ghost n: TNode) returns (r: Option<nat>, ghost at: nat)
    ensures NodeAt(img, node, n) && Searchable(n) ==>
              if r.Some? then at < |n.children| && n.children[at].entry.name == key
                              && NodeAt(img, r.value, n.children[at]) && Searchable(n.children[at])
              else !HasChild(n, key)
  {
    hide NodeAt, Searchable, EntAt, CStr, Word, Aligned, StrictlySorted;
    at := 0;
    ghost var ok := NodeAt(img, node, n) && Searchable(n);
    if ok { NodeChildren(img, node, n); }
    if !Readable(img, node, NODE_SIZE) {
      return None, 0;
    }
    var count, arr := Word(img, node + 4), Word(img, node + 8);
    if !Readable(img, arr, 4 * count) {
      return None, 0;
    }
    var probe := (i: nat) => ProbeChild(img, arr, count, key, i);
    if ok {
      forall i | 0 <= i < count ensures probe(i) == Compare(ChildNames(n)[i], key) {
        NodeEntry(img, Word(img, arr + 4 * i), n.children[i]);
      }
      SortedProbesMonotone(ChildNames(n), key, probe);
    }
    var found := Find(count, probe);
    match found {
      case None =>
        if ok {
          forall i | 0 <= i < count ensures n.children[i].entry.name != key {
            assert probe(i) != Equal;
            CompareTotal(n.children[i].entry.name, key);
          }
        }
        return None, 0;
      case Some(i) =>
        var child := Word(img, arr + 4 * i);
        if ok {
          NodeEntry(img, child, n.children[i]);
          CompareTotal(n.children[i].entry.name, key);
        }
        var name := NodeName(img, child);
        if name.None? || name.value == [] {
          return None, 0;
        }
        return Some(child), i;
    }
  }

  /** The context and type indexes of the node's own entry; unset when it cannot be read. */
  function OwnIdx(img: Str, node: nat): Idx
  {
    if Readable(img, node, NODE_SIZE) && Readable(img, Word(img, node), ENTRY_SIZE)
    then IdxOf(img, Word(img, node))
    else Idx(NO_INDEX, NO_INDEX)
  }

  lemma {:induction false} OwnEntry(img: Str, node: nat, n: TNode)
    requires NodeAt(img, node, n)
    ensures forall acc :: Overlay(acc, OwnIdx(img, node)) == SetIdx(acc, n.entry)
  {
    hide CStr;
    NodeEntry(img, node, n);
    EntFields(img, Word(img, node), n.entry);
  }

  /** Re-running the prefix scan on the last node changes nothing. */
  lemma {:induction false} PrefixAgain(n: TNode, rest: Str, acc: Idx)
    ensures ApplyPrefix(n, rest, ApplyPrefix(n, rest, acc)) == ApplyPrefix(n, rest, acc)
  {
  }

  lemma {:induction false} ChildUnique(n: TNode, i: nat, j: nat)
    requires Searchable(n) && i < |n.children| && j < |n.children|
    requires n.children[i].entry.name == n.children[j].entry.name
    ensures i == j
  {
    var names := ChildNames(n);
    BeforeIsStrictOrder(Alphabetical, names[i], names[j], names[i]);
  }

  /** Following the child for the next segment. */
  lemma {:induction false} WalkIntoChild(n: TNode, rest: Str, acc: Idx, j: nat, at: nat)
    requires Searchable(n) && IndexOf(rest, DOT) == Some(j)
    requires at < |n.children| && n.children[at].entry.name == rest[..j]
    ensures WalkIdx(n, rest, acc)
         == WalkIdx(n.children[at], rest[j + 1..], SetIdx(ApplyPrefix(n, rest, acc), n.children[at].entry))
  {
    hide StrictlySorted, ApplyPrefix;
    var i :| 0 <= i < |n.children| && n.children[i].entry.name == rest[..j]
             && WalkIdx(n, rest, acc)
             == WalkIdx(n.children[i], rest[j + 1..], SetIdx(ApplyPrefix(n, rest, acc), n.children[i].entry));
    ChildUnique(n, i, at);
  }

  /** The lookup (`get_property_info_indexes`), on any image with room for a header. */
  method GetPropertyInfoIndexes(img: Str, name: Str, ghost root: TNode) returns (r: Idx)
    requires HEADER_SIZE <= |img|
    ensures NodeAt(img, Word(img, 20), root) && Searchable(root) ==> r == LookupIdx(root, name)
  {
    hide NodeAt, Searchable, EntAt, CStr, Word, Aligned, WalkIdx, ApplyPrefix, ApplyExact, SetIdx, Overlay, OwnIdx;
    var acc := Idx(NO_INDEX, NO_INDEX);
    var rest, node := name, Word(img, 20);
    ghost var n := root;
    ghost var ok := NodeAt(img, node, root) && Searchable(root);
    while true
      invariant ok ==> NodeAt(img, node, n) && Searchable(n)
      invariant ok ==> LookupIdx(root, name) == WalkIdx(n, rest, SetIdx(acc, n.entry))
      decreases |rest|
    {
      if ok { OwnEntry(img, node, n); }
      acc := Overlay(acc, OwnIdx(img, node));
      ghost var before := acc;
      acc := CheckPrefixMatch(img, rest, node, acc, n);
      var dot := IndexOf(rest, DOT);
      if dot.None? {
        if ok { WalkEnds(n, rest, before); }
        break;
      }
      var child, at := FindChildForString(img, node, rest[..dot.value], n);
      if child.None? {
        if ok { WalkEnds(n, rest, before); }
        break;
      }
      if ok {
        WalkIntoChild(n, rest, before, dot.value, at);
        n := n.children[at];
      }
      rest, node := rest[dot.value + 1..], child.value;
    }
    var exact := FindExact(img, rest, node, n);
    if exact.Some? {
      if ok { ExactHit(n, rest, acc); }
      return Overlay(acc, exact.value);
    }
    if ok { ExactMiss(n, rest, acc); }
    r := CheckPrefixMatch(img, rest, node, acc, n);
  }

  lemma {:induction false} WalkEnds(n: TNode, rest: Str, acc: Idx)
    requires var dot := IndexOf(rest, DOT); dot.None? || !HasChild(n, rest[..dot.value])
    ensures WalkIdx(n, rest, acc) == ApplyExact(n, rest, ApplyPrefix(n, rest, acc))
    ensures ApplyPrefix(n, rest, ApplyPrefix(n, rest, acc)) == ApplyPrefix(n, rest, acc)
  {
    PrefixAgain(n, rest, acc);
  }

  lemma {:induction false} ExactHit(n: TNode, rest: Str, acc: Idx)
    requires FirstNamed(n.exacts, rest, 0).Some?
    ensures ApplyExact(n, rest, acc) == SetIdx(acc, FirstNamed(n.exacts, rest, 0).value)
  {
  }

  lemma {:induction false} ExactMiss(n: TNode, rest: Str, acc: Idx)
    requires FirstNamed(n.exacts, rest, 0).None?
    ensures ApplyExact(n, rest, acc) == acc
  {
  }

  // ---------------------------------------------------------------- string tables

  /** Element count of the table at `off`; a damaged table reads as empty. */
  function TableCount(img: Str, off: nat): nat
  {
    if Readable(img, off, 4) then Word(img, off) else 0
  }

  /** Entry `i` of the string table at `off` (`context_offset`, `type_offset`, then `cstr`). */
  function TableEntry(img: Str, off: nat, i: nat): Option<Str>
  {
    var count := TableCount(img, off);
    if Readable(img, off + 4, 4 * count) && i < count then CStr(img, Word(img, off + 4 + 4 * i)) else None
  }

  lemma {:induction false} TableReads(img: Str, off: nat, ss: seq<Str>)
    requires TableAt(img, off, ss)
    ensures TableCount(img, off) == |ss|
    ensures forall i :: 0 <= i < |ss| ==> TableEntry(img, off, i) == Some(ss[i])
    ensures forall i :: i >= |ss| ==> TableEntry(img, off, i) == None
  {
    hide CStr;
    AlignedSum(off, 4);
  }

  function ProbeTable(img: Str, off: nat, key: Str, i: nat): Ordering
  {
    match TableEntry(img, off, i)
    case None => Equal
    case Some(s) => Compare(s, key)
  }

  /** Binary search in a string table (`find_string_index`). */
  method FindStringIndex(img: Str, off: nat, key: Str, ghost ss: seq<Str>) returns (r: Option<nat>)
    ensures TableAt(img, off, ss) && StrictlySorted(Alphabetical, ss) ==>
              if r.Some? then r.value < |ss| && ss[r.value] == key else key !in ss
  {
    hide TableAt, TableEntry, TableCount, StrictlySorted;
    ghost var ok := TableAt(img, off, ss) && StrictlySorted(Alphabetical, ss);
    var probe := (i: nat) => ProbeTable(img, off, key, i);
    if ok {
      TableReads(img, off, ss);
      SortedProbesMonotone(ss, key, probe);
    }
    var found := Find(TableCount(img, off), probe);
    match found {
      case None =>
        if ok {
          forall i | 0 <= i < |ss| ensures ss[i] != key {
            assert probe(i) != Equal;
            CompareTotal(ss[i], key);
          }
        }
        return None;
      case Some(i) =>
        if TableEntry(img, off, i).None? {
          return None;
        }
        if ok {
          CompareTotal(ss[i], key);
        }
        return Some(i);
    }
  }
}
