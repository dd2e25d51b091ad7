/** The in-memory trie the property-info compiler builds from its rules (trie_builder.rs).

    The trie refines a flat table: `Get` reads the slot a rule is stored under, `AddAt` sets exactly
    one slot, and a trie is determined by its slots. */
module TrieBuilder {
  import opened Base
  import opened Order

  const MAX_NAME_SEGMENTS: nat := 256

  /** One line of a property-info file. */
  datatype Rule = Rule(name: Str, context: Str, rtype: Str, exact: bool)

  datatype Entry = Entry(name: Str, context: Option<Str>, rtype: Option<Str>)

  /** The prefix and exact-match sets identify an entry by its name alone, hence maps from names. */
  datatype Node = Node(entry: Entry, prefixes: map<Str, Entry>, exacts: map<Str, Entry>, children: map<Str, Node>)

  /** Where a rule is stored below the node its leading segments lead to. */
  datatype Slot = Exact | Prefix | Dotted

  datatype Error = NulByte | TooManySegments | EmptySegment | NoNameParts | Duplicate | TableMiss | TooDeep | ImageTooLarge | OutOfBounds

  type Result<T> = Outcome<T, Error>

  // ---------------------------------------------------------------- names and segments

  predicate EndsWithDot(name: Str)
  {
    name != [] && name[|name| - 1] == DOT
  }

  /** The name without one trailing dot. */
  function Strip(name: Str): Str
  {
    if EndsWithDot(name) then name[..|name| - 1] else name
  }

  predicate Dotless(s: Str)
  {
    DOT !in s
  }

  lemma {:induction false} SegmentsConcat(x: Str, y: Str)
    ensures Segments(x + [DOT] + y) == Segments(x) + Segments(y)
    decreases |x|
  {
    hide IndexOf;
    var whole := x + [DOT] + y;
    match IndexOf(x, DOT)
    case None =>
      assert whole[..|x|] == x;
      IndexOfUnique(whole, DOT, |x|);
      assert whole[|x| + 1..] == y;
    case Some(i) =>
      assert whole[..i] == x[..i];
      IndexOfUnique(whole, DOT, i);
      assert whole[i + 1..] == x[i + 1..] + [DOT] + y;
      SegmentsConcat(x[i + 1..], y);
      assert [x[..i]] + Segments(x[i + 1..]) + Segments(y) == [x[..i]] + (Segments(x[i + 1..]) + Segments(y));
  }

  lemma {:induction false} SegmentsInjective(x: Str, y: Str)
    requires Segments(x) == Segments(y)
    ensures x == y
    decreases |x|
  {
    var i, j := IndexOf(x, DOT), IndexOf(y, DOT);
    assert Segments(x)[0] == Segments(y)[0];
    if i.Some? && j.Some? {
      assert x[i.value + 1..] == x[i.value + 1..] && Segments(x)[1..] == Segments(x[i.value + 1..]);
      assert Segments(y)[1..] == Segments(y[j.value + 1..]);
      SegmentsInjective(x[i.value + 1..], y[j.value + 1..]);
      assert x == x[..i.value] + [DOT] + x[i.value + 1..];
      assert y == y[..j.value] + [DOT] + y[j.value + 1..];
    }
    SegmentCount(x);
    SegmentCount(y);
  }

  lemma {:induction false} SegmentCount(x: Str)
    ensures |Segments(x)| == 1 <==> IndexOf(x, DOT).None?
  {
  }

  lemma {:induction false} SegmentsOfDotless(s: Str)
    requires Dotless(s)
    ensures Segments(s) == [s]
  {
  }

  lemma {:induction false} SegmentsDotless(s: Str)
    ensures forall p :: p in Segments(s) ==> Dotless(p)
    decreases |s|
  {
    match IndexOf(s, DOT)
    case None =>
    case Some(i) => SegmentsDotless(s[i + 1..]);
  }

  /** The last segment is empty exactly for the empty name and for names ending in a dot. */
  lemma {:induction false} LastSegment(name: Str)
    ensures var parts := Segments(name);
            (parts[|parts| - 1] == [] <==> name == [] || EndsWithDot(name))
            && (EndsWithDot(name) ==> parts[..|parts| - 1] == Segments(Strip(name)))
    decreases |name|
  {
    hide IndexOf;
    if EndsWithDot(name) {
      assert name == Strip(name) + [DOT] + [];
      SegmentsConcat(Strip(name), []);
      SegmentsOfDotless([]);
      assert Segments(name)[..|Segments(name)| - 1] == Segments(Strip(name));
    } else {
      match IndexOf(name, DOT)
      case None =>
      case Some(i) =>
        LastSegment(name[i + 1..]);
        assert name[i + 1..] != [] && !EndsWithDot(name[i + 1..]);
    }
  }

  // ---------------------------------------------------------------- rules

  function SlotOf(r: Rule): Slot
  {
    if r.exact then Exact else if EndsWithDot(r.name) then Dotted else Prefix
  }

  function PartsOf(r: Rule): (parts: seq<Str>)
    ensures |parts| > 0
  {
    Segments(Strip(r.name))
  }

  /** The rules `add_to_trie` takes, as far as their own text goes. */
  predicate Acceptable(r: Rule)
  {
    0 !in r.name && 0 !in r.context && 0 !in r.rtype
    && |PartsOf(r)| <= MAX_NAME_SEGMENTS && [] !in PartsOf(r)
  }

  /** How many bytes of a string are dots. */
  function Dots(s: Str): nat
  {
    if s == [] then 0 else Dots(s[..|s| - 1]) + if s[|s| - 1] == 0x2E then 1 else 0
  }

  /** What the text of a rule must be, exact, plain or dotted, read off its bytes: no NULs, a name that is not
      empty, does not begin with a dot and has no two dots in a row, and, a dot at its end aside, at most 255
      dots, that is, 256 segments. */
  predicate WellSpelled(r: Rule)
  {
    0 !in r.name && 0 !in r.context && 0 !in r.rtype
    && r.name != [] && r.name[0] != 0x2E
    && (forall i :: 0 <= i < |r.name| - 1 ==> !(r.name[i] == 0x2E && r.name[i + 1] == 0x2E))
    && Dots(r.name) <= if r.name[|r.name| - 1] == 0x2E then 256 else 255
  }

  lemma {:induction false} DotsConcat(a: Str, b: Str)
    ensures Dots(a + b) == Dots(a) + Dots(b)
    decreases |b|
  {
    if b == [] {
      assert a + b == a;
    } else {
      assert (a + b)[..|a + b| - 1] == a + b[..|b| - 1];
      DotsConcat(a, b[..|b| - 1]);
    }
  }

  lemma {:induction false} DotsOfDotless(s: Str)
    requires Dotless(s)
    ensures Dots(s) == 0
    decreases |s|
  {
    if s != [] {
      DotsOfDotless(s[..|s| - 1]);
    }
  }

  /** A string has one segment more than dots. */
  lemma {:induction false} SegmentsByCount(s: Str)
    ensures |Segments(s)| == Dots(s) + 1
    decreases |s|
  {
    match IndexOf(s, DOT)
    case None => DotsOfDotless(s);
    case Some(i) =>
      assert s == s[..i] + ([DOT] + s[i + 1..]);
      DotsConcat(s[..i], [DOT] + s[i + 1..]);
      DotsConcat([DOT], s[i + 1..]);
      DotsOfDotless(s[..i]);
      assert [DOT][..0] == [];
      SegmentsByCount(s[i + 1..]);
  }

  /** No two dots in a row. */
  predicate DotsApart(s: Str)
  {
    forall i :: 0 <= i < |s| - 1 ==> !(s[i] == DOT && s[i + 1] == DOT)
  }

  lemma {:induction false} DotsApartSplit(s: Str, i: nat)
    requires i < |s| && s[i] == DOT && DOT !in s[..i]
    ensures var rest := s[i + 1..]; DotsApart(s) <==> (rest == [] || rest[0] != DOT) && DotsApart(rest)
  {
    var rest := s[i + 1..];
    assert forall k :: 0 <= k < |rest| ==> rest[k] == s[i + 1 + k];
    assert forall k :: 0 <= k < i ==> s[k] == s[..i][k];
    if DotsApart(s) {
      forall k | 0 <= k < |rest| - 1 ensures !(rest[k] == DOT && rest[k + 1] == DOT) {
        assert rest[k] == s[i + 1 + k] && rest[k + 1] == s[i + 1 + k + 1];
      }
    }
    if (rest == [] || rest[0] != DOT) && DotsApart(rest) {
      forall k | 0 <= k < |s| - 1 ensures !(s[k] == DOT && s[k + 1] == DOT) {
        if k > i {
          assert s[k] == rest[k - i - 1] && s[k + 1] == rest[k - i];
        }
      }
    }
  }

  /** A name has no empty segment exactly if no dot stands at either end or next to another. */
  lemma {:induction false} SegmentsByDots(s: Str)
    ensures [] !in Segments(s) <==> s != [] && s[0] != DOT && s[|s| - 1] != DOT && DotsApart(s)
    decreases |s|
  {
    match IndexOf(s, DOT)
    case None =>
    case Some(i) =>
      SegmentsByDots(s[i + 1..]);
      DotsApartSplit(s, i);
  }

  /** The rules taken are those that are well spelled. */
  lemma {:induction false} AcceptableBySpelling(r: Rule)
    ensures Acceptable(r) <==> WellSpelled(r)
  {
    hide Segments, Dots;
    var name, s := r.name, Strip(r.name);
    SegmentsByCount(s);
    SegmentsByDots(s);
    if EndsWithDot(name) {
      assert name == s + [DOT] && [DOT][..0] == [];
      DotsConcat(s, [DOT]);
      OneDot();
      StrippedApart(name);
    }
  }

  lemma {:induction false} OneDot()
    ensures Dots([DOT]) == 1
  {
    assert [DOT][..0] == [];
  }

  lemma {:induction false} StrippedApart(name: Str)
    requires EndsWithDot(name)
    ensures var s := Strip(name);
            (s != [] && s[0] != DOT && s[|s| - 1] != DOT && DotsApart(s)) <==> name[0] != DOT && DotsApart(name)
  {
    var s := Strip(name);
    assert name == s + [DOT];
    assert forall i :: 0 <= i < |s| ==> s[i] == name[i];
    if s != [] {
      assert s[|s| - 1] == name[|s| - 1] && name[|s| - 1 + 1] == DOT;
    }
  }

  /** Two rules for the same place, read off their bytes: exact rules for one name, a dot at the end aside, or
      prefix rules of one name. */
  predicate SamePlace(a: Rule, b: Rule)
  {
    a.exact == b.exact
    && if a.exact then a.name == b.name || a.name == b.name + [0x2E] || b.name == a.name + [0x2E] else a.name == b.name
  }

  /** Two rules take the same slot exactly if they are in the same place. */
  lemma {:induction false} SameKeyByPlace(a: Rule, b: Rule)
    requires WellSpelled(a) && WellSpelled(b)
    ensures SameKey(a, b) <==> SamePlace(a, b)
  {
    hide Dots;
    StripIs(a);
    StripIs(b);
  }

  lemma {:induction false} StripIs(r: Rule)
    requires WellSpelled(r)
    ensures EndsWithDot(r.name) ==> r.name == Strip(r.name) + [0x2E] && !EndsWithDot(Strip(r.name))
  {
    hide Dots;
    if EndsWithDot(r.name) {
      var s := Strip(r.name);
      assert s != [] ==> r.name[|s| - 1] == s[|s| - 1] && r.name[|s| - 1 + 1] == 0x2E;
    }
  }

  /** Two rules that would be stored in the same place. */
  predicate SameKey(a: Rule, b: Rule)
  {
    SlotOf(a) == SlotOf(b) && Strip(a.name) == Strip(b.name)
  }

  lemma {:induction false} SameKeyIsSamePlace(a: Rule, b: Rule)
    ensures SameKey(a, b) <==> SlotOf(a) == SlotOf(b) && PartsOf(a) == PartsOf(b)
  {
    if PartsOf(a) == PartsOf(b) {
      SegmentsInjective(Strip(a.name), Strip(b.name));
    }
  }

  // ---------------------------------------------------------------- the trie as a flat table

  function EmptyNode(name: Str): Node
  {
    Node(Entry(name, None, None), map[], map[], map[])
  }

  function ChildOrNew(node: Node, name: Str): Node
  {
    if name in node.children then node.children[name] else EmptyNode(name)
  }

  /** `TrieBuilder`'s walk and insertion; `None` when the slot is taken. */
  function AddAt(node: Node, parts: seq<Str>, slot: Slot, context: Str, rtype: Str): Option<Node>
    requires parts != []
    decreases |parts|
  {
    var name := parts[0];
    var entry := Entry(name, Some(context), Some(rtype));
    if |parts| > 1 then
      match AddAt(ChildOrNew(node, name), parts[1..], slot, context, rtype)
      case None => None
      case Some(child) => Some(node.(children := node.children[name := child]))
    else
      match slot
      case Exact =>
        if name in node.exacts then None else Some(node.(exacts := node.exacts[name := entry]))
      case Prefix =>
        if name in node.prefixes then None else Some(node.(prefixes := node.prefixes[name := entry]))
      case Dotted =>
        var child := ChildOrNew(node, name);
        if child.entry.context.Some? || child.entry.rtype.Some? then None
        else Some(node.(children := node.children[name := child.(entry := entry.(name := child.entry.name))]))
  }

  /** The entry stored under `slot` and `parts`, if any. */
  function Get(node: Node, slot: Slot, parts: seq<Str>): Option<Entry>
    requires parts != []
    decreases |parts|
  {
    var name := parts[0];
    if |parts| > 1 then
      if name in node.children then Get(node.children[name], slot, parts[1..]) else None
    else
      match slot
      case Exact => if name in node.exacts then Some(node.exacts[name]) else None
      case Prefix => if name in node.prefixes then Some(node.prefixes[name]) else None
      case Dotted =>
        if name in node.children && node.children[name].entry.context.Some? then Some(node.children[name].entry)
        else None
  }

  /** Nodes as `add_to_trie` makes them: entries named by their key, contexts and types set
      together, and no child without a rule below it. */
  predicate Tidy(node: Node)
    decreases node
  {
    (forall q :: q in node.prefixes ==> Named(node.prefixes[q], q) && node.prefixes[q].context.Some?)
    && (forall q :: q in node.exacts ==> Named(node.exacts[q], q) && node.exacts[q].context.Some?)
    && forall q :: q in node.children ==>
         Named(node.children[q].entry, q) && Tidy(node.children[q]) && Occupied(node.children[q])
  }

  predicate Named(e: Entry, name: Str)
  {
    e.name == name && (e.context.Some? <==> e.rtype.Some?)
  }

  predicate Occupied(node: Node)
  {
    node.entry.context.Some? || node.prefixes != map[] || node.exacts != map[] || node.children != map[]
  }

  lemma {:induction false} SetChildKeepsTidy(node: Node, name: Str, child: Node)
    requires Tidy(node) && Tidy(child) && Occupied(child) && Named(child.entry, name)
    ensures var node' := node.(children := node.children[name := child]); Tidy(node') && Occupied(node')
  {
    var node' := node.(children := node.children[name := child]);
    assert name in node'.children;
  }

  lemma {:induction false} AddEntryKeepsTidy(node: Node, slot: Slot, name: Str, context: Str, rtype: Str)
    requires Tidy(node) && slot != Dotted
    ensures var r := AddAt(node, [name], slot, context, rtype);
            r.Some? ==> Tidy(r.value) && Occupied(r.value) && r.value.entry == node.entry
  {
    var r := AddAt(node, [name], slot, context, rtype);
    if r.Some? {
      assert if slot == Exact then name in r.value.exacts else name in r.value.prefixes;
    }
  }

  /** Adding fails exactly on a taken slot and keeps the trie tidy. */
  lemma {:induction false} AddKeepsTidy(node: Node, parts: seq<Str>, slot: Slot, context: Str, rtype: Str)
    requires parts != [] && Tidy(node)
    ensures var r := AddAt(node, parts, slot, context, rtype);
            (r.None? <==> Get(node, slot, parts).Some?)
            && (r.Some? ==> Tidy(r.value) && Occupied(r.value) && r.value.entry == node.entry)
    decreases |parts|
  {
    var name := parts[0];
    var child := ChildOrNew(node, name);
    if |parts| > 1 {
      AddKeepsTidy(child, parts[1..], slot, context, rtype);
      if name !in node.children {
        EmptyHasNoSlots(name, slot, parts[1..]);
      }
      var r := AddAt(child, parts[1..], slot, context, rtype);
      if r.Some? {
        SetChildKeepsTidy(node, name, r.value);
      }
    } else if slot == Dotted {
      SetChildKeepsTidy(node, name, child.(entry := Entry(name, Some(context), Some(rtype))));
    } else {
      AddEntryKeepsTidy(node, slot, name, context, rtype);
    }
  }

  lemma {:induction false} EmptyHasNoSlots(name: Str, slot: Slot, parts: seq<Str>)
    requires parts != []
    ensures Get(EmptyNode(name), slot, parts) == None
  {
  }

  lemma {:induction false} LeafSetsOneSlot(node: Node, name: Str, slot: Slot, context: Str, rtype: Str, s: Slot, ps: seq<Str>)
    requires Tidy(node) && ps != [] && AddAt(node, [name], slot, context, rtype).Some?
    ensures Get(AddAt(node, [name], slot, context, rtype).value, s, ps)
         == if s == slot && ps == [name] then Some(Entry(name, Some(context), Some(rtype))) else Get(node, s, ps)
  {
    if |ps| > 1 {
      if slot == Dotted && ps[0] == name {
        LeafBelow(ChildOrNew(node, name), Entry(name, Some(context), Some(rtype)), s, ps[1..]);
        if name !in node.children {
          EmptyHasNoSlots(name, s, ps[1..]);
        }
      }
    } else {
      assert ps == [ps[0]];
    }
  }

  /** A node's own entry is not one of the slots below it. */
  lemma {:induction false} LeafBelow(child: Node, e: Entry, s: Slot, ps: seq<Str>)
    requires ps != []
    ensures Get(child.(entry := e.(name := child.entry.name)), s, ps) == Get(child, s, ps)
  {
  }

  lemma {:induction false} StepSetsOneSlot(node: Node, name: Str, child: Node, s: Slot, ps: seq<Str>)
    requires ps != [] && (name !in node.children ==> child.entry.context.None?)
    requires name in node.children ==> child.entry == node.children[name].entry
    ensures var node' := node.(children := node.children[name := child]);
            Get(node', s, ps) == if |ps| > 1 && ps[0] == name then Get(child, s, ps[1..]) else Get(node, s, ps)
  {
  }

  /** Adding sets the one slot it was given, and no other. */
  lemma {:induction false} AddSetsOneSlot(node: Node, parts: seq<Str>, slot: Slot, context: Str, rtype: Str, s: Slot, ps: seq<Str>)
    requires parts != [] && ps != [] && Tidy(node)
    requires AddAt(node, parts, slot, context, rtype).Some?
    ensures Get(AddAt(node, parts, slot, context, rtype).value, s, ps)
         == if s == slot && ps == parts then Some(Entry(parts[|parts| - 1], Some(context), Some(rtype)))
            else Get(node, s, ps)
    decreases |parts|
  {
    hide Get, AddAt, ChildOrNew, Tidy;
    var name := parts[0];
    assert ps == [ps[0]] + ps[1..] && parts == [parts[0]] + parts[1..];
    if |parts| == 1 {
      assert parts == [name];
      LeafSetsOneSlot(node, name, slot, context, rtype, s, ps);
    } else {
      var child := ChildOrNew(node, name);
      AddStep(node, parts, slot, context, rtype);
      ChildIsTidy(node, name);
      AddKeepsTidy(child, parts[1..], slot, context, rtype);
      StepSetsOneSlot(node, name, AddAt(child, parts[1..], slot, context, rtype).value, s, ps);
      if |ps| > 1 && ps[0] == name {
        AddSetsOneSlot(child, parts[1..], slot, context, rtype, s, ps[1..]);
        GetStep(node, name, s, ps);
      }
    }
  }

  lemma {:induction false} ChildIsTidy(node: Node, name: Str)
    requires Tidy(node)
    ensures var child := ChildOrNew(node, name);
            Tidy(child) && if name in node.children then child == node.children[name] else child.entry.context.None?
  {
  }

  lemma {:induction false} GetStep(node: Node, name: Str, s: Slot, ps: seq<Str>)
    requires |ps| > 1 && ps[0] == name
    ensures Get(ChildOrNew(node, name), s, ps[1..]) == Get(node, s, ps)
  {
    if name !in node.children {
      EmptyHasNoSlots(name, s, ps[1..]);
    }
  }

  lemma {:induction false} OccupiedHasASlot(node: Node) returns (slot: Slot, parts: seq<Str>)
    requires Tidy(node) && Occupied(node) && node.entry.context.None?
    ensures parts != [] && Get(node, slot, parts).Some?
  {
    if node.prefixes != map[] {
      var q :| q in node.prefixes;
      slot, parts := Prefix, [q];
    } else if node.exacts != map[] {
      var q :| q in node.exacts;
      slot, parts := Exact, [q];
    } else {
      var q :| q in node.children;
      var child := node.children[q];
      if child.entry.context.Some? {
        slot, parts := Dotted, [q];
      } else {
        var s, ps := OccupiedHasASlot(child);
        slot, parts := s, [q] + ps;
      }
    }
  }

  /** Every child leads to some rule. */
  lemma {:induction false} ChildHasASlot(node: Node, q: Str) returns (slot: Slot, parts: seq<Str>)
    requires Tidy(node) && q in node.children
    ensures parts != [] && parts[0] == q && Get(node, slot, parts).Some?
    ensures |parts| > 1 || slot == Dotted
  {
    if node.children[q].entry.context.Some? {
      slot, parts := Dotted, [q];
    } else {
      var s, ps := OccupiedHasASlot(node.children[q]);
      slot, parts := s, [q] + ps;
    }
  }

  ghost predicate SameSlots(a: Node, b: Node)
  {
    forall slot: Slot, parts: seq<Str> :: parts != [] ==> Get(a, slot, parts) == Get(b, slot, parts)
  }

  lemma {:induction false} SameSlotsSameKeys(a: Node, b: Node)
    requires Tidy(a) && Tidy(b) && SameSlots(a, b)
    ensures a.prefixes == b.prefixes && a.exacts == b.exacts
    ensures forall q :: q in a.children ==> q in b.children
  {
    forall q: Str
      ensures (q in a.prefixes <==> q in b.prefixes) && (q in a.prefixes ==> a.prefixes[q] == b.prefixes[q])
      ensures (q in a.exacts <==> q in b.exacts) && (q in a.exacts ==> a.exacts[q] == b.exacts[q])
    {
      assert Get(a, Prefix, [q]) == Get(b, Prefix, [q]);
      assert Get(a, Exact, [q]) == Get(b, Exact, [q]);
    }
    forall q | q in a.children ensures q in b.children {
      var slot, parts := ChildHasASlot(a, q);
      assert Get(b, slot, parts).Some?;
    }
  }

  lemma {:induction false} SlotsSymmetric(a: Node, b: Node)
    requires SameSlots(a, b)
    ensures SameSlots(b, a)
  {
    hide Get;
  }

  lemma {:induction false} ChildSlots(a: Node, b: Node, q: Str)
    requires q in a.children && q in b.children && SameSlots(a, b)
    requires Named(a.children[q].entry, q) && Named(b.children[q].entry, q)
    ensures SameSlots(a.children[q], b.children[q]) && a.children[q].entry == b.children[q].entry
  {
    var x, y := a.children[q], b.children[q];
    forall slot: Slot, parts: seq<Str> | parts != [] ensures Get(x, slot, parts) == Get(y, slot, parts) {
      assert ([q] + parts)[1..] == parts;
      assert Get(a, slot, [q] + parts) == Get(b, slot, [q] + parts);
    }
    assert Get(a, Dotted, [q]) == Get(b, Dotted, [q]);
  }

  /** A tidy trie is determined by its slots. */
  lemma {:induction false} SlotsDetermineTrie(a: Node, b: Node)
    requires Tidy(a) && Tidy(b) && a.entry == b.entry && SameSlots(a, b)
    ensures a == b
    decreases a
  {
    hide SameSlots;
    SameSlotsSameKeys(a, b);
    SlotsSymmetric(a, b);
    SameSlotsSameKeys(b, a);
    forall q | q in a.children ensures a.children[q] == b.children[q] {
      ChildSlots(a, b, q);
      SlotsDetermineTrie(a.children[q], b.children[q]);
    }
    assert a.children == b.children;
  }

  // ---------------------------------------------------------------- what the serializer relies on

  predicate CleanName(q: Str)
  {
    q != [] && 0 !in q && Dotless(q)
  }

  predicate EntryGood(e: Entry, ctxs: set<Str>, typs: set<Str>)
  {
    0 !in e.name
    && (e.context.Some? ==> e.context.value in ctxs)
    && (e.rtype.Some? ==> e.rtype.value in typs)
  }

  /** Names are clean, contexts and types are in the string tables, and the trie is at most `depth` deep. */
  predicate Good(node: Node, depth: nat, ctxs: set<Str>, typs: set<Str>)
    decreases node
  {
    EntryGood(node.entry, ctxs, typs)
    && (forall q :: q in node.prefixes ==> CleanName(q) && EntryGood(node.prefixes[q], ctxs, typs))
    && (forall q :: q in node.exacts ==> CleanName(q) && EntryGood(node.exacts[q], ctxs, typs))
    && forall q :: q in node.children ==> depth > 0 && CleanName(q) && Good(node.children[q], depth - 1, ctxs, typs)
  }

  lemma {:induction false} GoodMonotone(node: Node, depth: nat, ctxs: set<Str>, typs: set<Str>, ctxs': set<Str>, typs': set<Str>)
    requires Good(node, depth, ctxs, typs) && ctxs <= ctxs' && typs <= typs'
    ensures Good(node, depth, ctxs', typs')
    decreases node
  {
    forall q | q in node.children ensures Good(node.children[q], depth - 1, ctxs', typs') {
      GoodMonotone(node.children[q], depth - 1, ctxs, typs, ctxs', typs');
    }
  }

  lemma {:induction false} SetChildKeepsGood(node: Node, depth: nat, ctxs: set<Str>, typs: set<Str>, name: Str, child: Node)
    requires Good(node, depth, ctxs, typs) && depth > 0 && CleanName(name) && Good(child, depth - 1, ctxs, typs)
    ensures Good(node.(children := node.children[name := child]), depth, ctxs, typs)
  {
  }

  lemma {:induction false} AddEntryKeepsGood(node: Node, depth: nat, ctxs: set<Str>, typs: set<Str>,
                                             name: Str, slot: Slot, context: Str, rtype: Str)
    requires Good(node, depth, ctxs, typs) && context in ctxs && rtype in typs && CleanName(name) && slot != Dotted
    ensures var r := AddAt(node, [name], slot, context, rtype); r.Some? ==> Good(r.value, depth, ctxs, typs)
  {
  }

  lemma {:induction false} ChildIsGood(node: Node, depth: nat, ctxs: set<Str>, typs: set<Str>, name: Str)
    requires Good(node, depth, ctxs, typs) && depth > 0 && CleanName(name)
    ensures Good(ChildOrNew(node, name), depth - 1, ctxs, typs)
  {
  }

  lemma {:induction false} SetEntryKeepsGood(node: Node, depth: nat, ctxs: set<Str>, typs: set<Str>, context: Str, rtype: Str)
    requires Good(node, depth, ctxs, typs) && context in ctxs && rtype in typs
    ensures Good(node.(entry := Entry(node.entry.name, Some(context), Some(rtype))), depth, ctxs, typs)
  {
  }

  lemma {:induction false} AddStep(node: Node, parts: seq<Str>, slot: Slot, context: Str, rtype: Str)
    requires |parts| > 1
    ensures AddAt(node, parts, slot, context, rtype)
         == match AddAt(ChildOrNew(node, parts[0]), parts[1..], slot, context, rtype)
            case None => None
            case Some(child) => Some(node.(children := node.children[parts[0] := child]))
  {
  }

  lemma {:induction false} AddKeepsGood(node: Node, depth: nat, ctxs: set<Str>, typs: set<Str>,
                                        parts: seq<Str>, slot: Slot, context: Str, rtype: Str)
    requires Good(node, depth, ctxs, typs) && context in ctxs && rtype in typs
    requires parts != [] && |parts| <= depth && forall p :: p in parts ==> CleanName(p)
    ensures var r := AddAt(node, parts, slot, context, rtype); r.Some? ==> Good(r.value, depth, ctxs, typs)
    decreases |parts|
  {
    hide Good, CleanName;
    var name := parts[0];
    assert CleanName(name);
    var child := ChildOrNew(node, name);
    ChildIsGood(node, depth, ctxs, typs, name);
    if |parts| > 1 {
      hide AddAt, ChildOrNew;
      AddStep(node, parts, slot, context, rtype);
      AddKeepsGood(child, depth - 1, ctxs, typs, parts[1..], slot, context, rtype);
      var r := AddAt(child, parts[1..], slot, context, rtype);
      if r.Some? {
        SetChildKeepsGood(node, depth, ctxs, typs, name, r.value);
      }
    } else if slot == Dotted {
      SetEntryKeepsGood(child, depth - 1, ctxs, typs, context, rtype);
      SetChildKeepsGood(node, depth, ctxs, typs, name, child.(entry := Entry(child.entry.name, Some(context), Some(rtype))));
    } else {
      assert parts == [name];
      AddEntryKeepsGood(node, depth, ctxs, typs, name, slot, context, rtype);
    }
  }

  // ---------------------------------------------------------------- the trie of a set of rules

  const ROOT_NAME: Str := Ascii("root")

  function EntryOf(r: Rule): Entry
  {
    Entry(PartsOf(r)[|PartsOf(r)| - 1], Some(r.context), Some(r.rtype))
  }

  predicate StoredAt(r: Rule, slot: Slot, parts: seq<Str>)
  {
    SlotOf(r) == slot && PartsOf(r) == parts
  }

  /** The slots of `root` hold the rules of `rules`, each in its place, and nothing else. */
  ghost predicate Represents(root: Node, rules: set<Rule>, defaultContext: Str, defaultType: Str)
  {
    Tidy(root) && root.entry == Entry(ROOT_NAME, Some(defaultContext), Some(defaultType))
    && (forall r :: r in rules ==> Get(root, SlotOf(r), PartsOf(r)) == Some(EntryOf(r)))
    && forall slot: Slot, parts: seq<Str> :: parts != [] && Get(root, slot, parts).Some? ==>
         exists r :: r in rules && StoredAt(r, slot, parts)
  }

  /** A set of rules has at most one trie: the order of the rules cannot matter. */
  lemma {:induction false} RulesDetermineTrie(a: Node, b: Node, rules: set<Rule>, defaultContext: Str, defaultType: Str)
    requires Represents(a, rules, defaultContext, defaultType)
    requires Represents(b, rules, defaultContext, defaultType)
    ensures a == b
  {
    forall slot: Slot, parts: seq<Str> | parts != [] ensures Get(a, slot, parts) == Get(b, slot, parts) {
      if Get(a, slot, parts).Some? || Get(b, slot, parts).Some? {
        var r :| r in rules && StoredAt(r, slot, parts);
      }
    }
    SlotsDetermineTrie(a, b);
  }

  ghost predicate HasTrie(rules: set<Rule>, defaultContext: Str, defaultType: Str)
  {
    exists root :: Represents(root, rules, defaultContext, defaultType)
  }

  ghost function TrieOf(rules: set<Rule>, defaultContext: Str, defaultType: Str): (root: Node)
    requires HasTrie(rules, defaultContext, defaultType)
    ensures Represents(root, rules, defaultContext, defaultType)
  {
    var root :| Represents(root, rules, defaultContext, defaultType);
    root
  }

  ghost function ContextsOf(rules: set<Rule>, defaultContext: Str): set<Str>
  {
    {defaultContext} + set r | r in rules :: r.context
  }

  ghost function TypesOf(rules: set<Rule>, defaultType: Str): set<Str>
  {
    {defaultType} + set r | r in rules :: r.rtype
  }

  /** No rule of `rules` is stored where `r` would go. */
  ghost predicate FreshKey(rules: set<Rule>, r: Rule)
  {
    forall x :: x in rules ==> !SameKey(x, r)
  }

  /** The names a rule's walk goes through are clean. */
  lemma {:induction false} PartsClean(s: Str)
    requires 0 !in s && [] !in Segments(s)
    ensures forall p :: p in Segments(s) ==> CleanName(p)
    decreases |s|
  {
    SegmentsDotless(s);
    match IndexOf(s, DOT)
    case None =>
    case Some(i) =>
      assert forall p :: p in Segments(s[i + 1..]) ==> p in Segments(s);
      PartsClean(s[i + 1..]);
  }

  lemma {:induction false} AddRepresents(root: Node, rules: set<Rule>, dc: Str, dt: Str, r: Rule)
    requires Represents(root, rules, dc, dt)
    ensures var root' := AddAt(root, PartsOf(r), SlotOf(r), r.context, r.rtype);
            (root'.Some? <==> FreshKey(rules, r))
            && (root'.Some? ==> Represents(root'.value, rules + {r}, dc, dt))
  {
    var parts, slot := PartsOf(r), SlotOf(r);
    var root' := AddAt(root, parts, slot, r.context, r.rtype);
    AddKeepsTidy(root, parts, slot, r.context, r.rtype);
    forall x | x in rules ensures SameKey(x, r) <==> StoredAt(x, slot, parts) {
      SameKeyIsSamePlace(x, r);
    }
    if root'.Some? {
      forall s: Slot, ps: seq<Str> | ps != []
        ensures Get(root'.value, s, ps) == if s == slot && ps == parts then Some(EntryOf(r)) else Get(root, s, ps)
      {
        AddSetsOneSlot(root, parts, slot, r.context, r.rtype, s, ps);
      }
      forall s: Slot, ps: seq<Str> | ps != [] && Get(root'.value, s, ps).Some?
        ensures exists x :: x in rules + {r} && StoredAt(x, s, ps)
      {
        if s == slot && ps == parts {
          assert StoredAt(r, s, ps);
        } else {
          var x :| x in rules && StoredAt(x, s, ps);
          assert x in rules + {r};
        }
      }
    }
  }

  lemma {:induction false} TablesOfOneMore(rules: set<Rule>, dc: Str, dt: Str, r: Rule)
    ensures ContextsOf(rules + {r}, dc) == ContextsOf(rules, dc) + {r.context}
    ensures TypesOf(rules + {r}, dt) == TypesOf(rules, dt) + {r.rtype}
  {
    var all := rules + {r};
    assert r in all && forall x :: x in rules ==> x in all;
  }

  /** Why a rule is rejected: what is wrong with its text, in the order of the checks, or else its place
      being taken. */
  function Rejection(r: Rule): Error
  {
    if 0 in r.name || 0 in r.context || 0 in r.rtype then NulByte
    else if r.name == [] then NoNameParts
    else if |PartsOf(r)| > MAX_NAME_SEGMENTS then TooManySegments
    else if [] in PartsOf(r) then EmptySegment
    else Duplicate
  }

  // ---------------------------------------------------------------- the builder object

  class Builder {
    var root: Node
    var contexts: set<Str>
    var types: set<Str>
    ghost var rules: set<Rule>
    ghost const defaultContext: Str
    ghost const defaultType: Str

    ghost predicate Valid()
      reads this
    {
      Represents(root, rules, defaultContext, defaultType)
      && Good(root, MAX_NAME_SEGMENTS, contexts, types)
      && contexts == ContextsOf(rules, defaultContext) && types == TypesOf(rules, defaultType)
    }

    constructor (defaultContext: Str, defaultType: Str)
      ensures Valid() && rules == {}
      ensures this.defaultContext == defaultContext && this.defaultType == defaultType
    {
      this.defaultContext := defaultContext;
      this.defaultType := defaultType;
      rules := {};
      contexts := {defaultContext};
      types := {defaultType};
      root := Node(Entry(ROOT_NAME, Some(defaultContext), Some(defaultType)), map[], map[], map[]);
    }

    /** Takes an acceptable rule whose place is free, and only such a rule.  A rejected rule leaves
        the trie as it was, and the error names the first thing wrong with it. */
    method AddToTrie(name: Str, context: Str, rtype: Str, exact: bool) returns (res: Result<()>)
      requires Valid()
      modifies this
      ensures var r := Rule(name, context, rtype, exact);
              (res.Ok? <==> Acceptable(r) && FreshKey(old(rules), r))
              && (res.Ok? ==> Valid() && rules == old(rules) + {r})
              && (res.Err? ==> root == old(root) && rules == old(rules) && res.error == Rejection(r))
    {
      hide Represents, Good, AddAt, FreshKey, ContextsOf, TypesOf;
      if 0 in name || 0 in context || 0 in rtype {
        return Err(NulByte);
      }
      ghost var r := Rule(name, context, rtype, exact);
      LastSegment(name);
      var nameParts := Segments(name);
      var endsWithDot := nameParts[|nameParts| - 1] == [];
      if endsWithDot {
        nameParts := nameParts[..|nameParts| - 1];
      }
      assert nameParts == if name == [] then [] else PartsOf(r);
      if |nameParts| > MAX_NAME_SEGMENTS {
        return Err(TooManySegments);
      }
      if [] in nameParts {
        return Err(EmptySegment);
      }
      if nameParts == [] {
        return Err(NoNameParts);
      }
      contexts := contexts + {context};
      types := types + {rtype};
      var slot := if exact then Exact else if !endsWithDot then Prefix else Dotted;
      AddRepresents(root, rules, defaultContext, defaultType, r);
      match AddAt(root, nameParts, slot, context, rtype) {
        case None => return Err(Duplicate);
        case Some(root') =>
          GoodMonotone(root, MAX_NAME_SEGMENTS, old(contexts), old(types), contexts, types);
          PartsClean(Strip(name));
          AddKeepsGood(root, MAX_NAME_SEGMENTS, contexts, types, nameParts, slot, context, rtype);
          TablesOfOneMore(rules, defaultContext, defaultType, r);
          root := root';
          rules := rules + {r};
          return Ok(());
      }
    }
  }
}
