/** The areas behind an image (contexts_serialized.rs): one slot for each entry of its context table, so
    that the indexes the reader finds select the area of the right context. */
module ContextNodes {
  import opened Base
  import opened Order
  import opened ImageFormat
  import opened TrieBuilder
  import opened PropertyInfoArea
  import opened LongestMatch
  import opened PropertyInfoCompiler
  import opened CompilerCorrectness

  const MAX_CONTEXTS: nat := 65_536

  const SLASH: byte := 0x2F

  /** File names the directory keeps for its own use, in lower case. */
  const RESERVED: set<Str> := {Ascii(".writer_lock"), Ascii("properties_serial"), Ascii("property_info")}

  function LowerByte(c: byte): byte
  {
    if 0x41 <= c <= 0x5A then c + 0x20 else c
  }

  function Fold(s: Str): (r: Str)
    ensures |r| == |s|
  {
    seq(|s|, i requires 0 <= i < |s| => LowerByte(s[i]))
  }

  /** A plain ASCII file name that is not one of the reserved ones. */
  predicate Eligible(name: Str)
  {
    name != [] && (forall c :: c in name ==> c < 0x80 && c != SLASH) && name != [DOT] && name != [DOT, DOT]
    && Fold(name) !in RESERVED
  }

  /** Entry `i` of the context table, if it can name an area. */
  function Candidate(img: Str, i: nat): Option<Str>
    requires HEADER_SIZE <= |img|
  {
    match TableEntry(img, Word(img, 12), i)
    case None => None
    case Some(name) => if Eligible(name) then Some(name) else None
  }

  /** The folded names of the candidates among the first `k` entries. */
  function Seen(img: Str, k: nat): set<Str>
    requires HEADER_SIZE <= |img|
  {
    if k == 0 then {}
    else
      match Candidate(img, k - 1)
      case None => Seen(img, k - 1)
      case Some(name) => Seen(img, k - 1) + {Fold(name)}
  }

  /** What slot `i` holds: its candidate, unless an earlier one has the same folded name. */
  function Slot(img: Str, i: nat): Option<Str>
    requires HEADER_SIZE <= |img|
  {
    match Candidate(img, i)
    case None => None
    case Some(name) => if Fold(name) in Seen(img, i) then None else Some(name)
  }

  lemma {:induction false} SeenBefore(img: Str, i: nat, k: nat)
    requires HEADER_SIZE <= |img| && i < k && Candidate(img, i).Some?
    ensures Fold(Candidate(img, i).value) in Seen(img, k)
    decreases k
  {
    hide Fold, Eligible, TableEntry, Word;
    if i < k - 1 {
      SeenBefore(img, i, k - 1);
    }
  }

  /** No two slots name the same file, not even on a file system that ignores case. */
  lemma {:induction false} SlotsDistinct(img: Str, i: nat, j: nat)
    requires HEADER_SIZE <= |img| && i < j && Slot(img, i).Some? && Slot(img, j).Some?
    ensures Fold(Slot(img, i).value) != Fold(Slot(img, j).value)
  {
    hide Fold, Eligible, TableEntry, Word, Seen;
    SeenBefore(img, i, j);
  }

  /** Builds the slots, one for every entry of the table and in its order; a damaged or oversized table
      is refused as a whole, a bad entry only leaves its own slot empty. */
  method BuildSlots(img: Str) returns (r: Option<seq<Option<Str>>>)
    requires HEADER_SIZE <= |img|
    ensures r.Some? ==> |r.value| == TableCount(img, Word(img, 12))
                        && forall i :: 0 <= i < |r.value| ==> r.value[i] == Slot(img, i)
    ensures r.None? <==> var off, count := Word(img, 12), TableCount(img, Word(img, 12));
                         count > 65_536 || (count > 0 && !Readable(img, off + 4, 4 * count))
  {
    hide Eligible, TableEntry, Word, Fold, Readable, TableCount;
    var off := Word(img, 12);
    var count := TableCount(img, off);
    if count > MAX_CONTEXTS || (count > 0 && !Readable(img, off + 4, 4 * count)) {
      return None;
    }
    var slots: seq<Option<Str>> := [];
    var seen: set<Str> := {};
    var i := 0;
    while i < count
      invariant 0 <= i <= count && |slots| == i && seen == Seen(img, i)
      invariant forall k :: 0 <= k < i ==> slots[k] == Slot(img, k)
    {
      var candidate := Candidate(img, i);
      if candidate.Some? && Fold(candidate.value) !in seen {
        slots := slots + [candidate];
      } else {
        slots := slots + [None];
      }
      if candidate.Some? {
        seen := seen + {Fold(candidate.value)};
      }
      i := i + 1;
    }
    return Some(slots);
  }

  /** Context `i` can name an area, and no context that can and comes before it names the same one. */
  predicate HasArea(ctxs: seq<Str>, i: nat)
    requires i < |ctxs|
  {
    Eligible(ctxs[i]) && forall j :: 0 <= j < i && Eligible(ctxs[j]) ==> Fold(ctxs[j]) != Fold(ctxs[i])
  }

  lemma {:induction false} SeenExactly(img: Str, ctxs: seq<Str>, k: nat, f: Str)
    requires HEADER_SIZE <= |img| && TableAt(img, Word(img, 12), ctxs) && k <= |ctxs|
    ensures f in Seen(img, k) <==> exists i :: 0 <= i < k && Eligible(ctxs[i]) && Fold(ctxs[i]) == f
    decreases k
  {
    hide Eligible, Fold, TableAt, Word, TableEntry;
    if k > 0 {
      SeenExactly(img, ctxs, k - 1, f);
      TableReads(img, Word(img, 12), ctxs);
      assert TableEntry(img, Word(img, 12), k - 1) == Some(ctxs[k - 1]);
    }
  }

  /** Slot `i` holds context `i` or nothing, and never another context: it is filled exactly by the first of
      the eligible contexts whose names a file system could confuse. */
  lemma {:induction false} SlotsAligned(img: Str, ctxs: seq<Str>, i: nat)
    requires HEADER_SIZE <= |img| && TableAt(img, Word(img, 12), ctxs) && i < |ctxs|
    ensures Slot(img, i) == if HasArea(ctxs, i) then Some(ctxs[i]) else None
  {
    hide Fold, TableAt, Word, TableEntry, Eligible, Seen;
    TableReads(img, Word(img, 12), ctxs);
    SeenExactly(img, ctxs, i, Fold(ctxs[i]));
    assert TableEntry(img, Word(img, 12), i) == Some(ctxs[i]);
  }

  /** The index of a name in a compiled image selects the slot of the context that the rules prescribe for
      it, or an empty one where that context has no area, but never another's; a name without a context gets
      the sentinel, which selects none. */
  lemma {:induction false} NamesReachTheirArea(rules: seq<Rule>, dc: Str, dt: Str, n: Str) returns (v: Str)
    requires Compiles(rules, dc, dt)
    ensures HasTrie(Elements(rules), dc, dt) && HEADER_SIZE <= |CompiledImage(Elements(rules), dc, dt)|
    ensures Answers(Elements(rules), n, ContextField, v, dc)
    ensures var img, index := CompiledImage(Elements(rules), dc, dt), LookupIdx(CompiledTrie(Elements(rules), dc, dt), n).ctx;
            var ctxs := ContextTable(Elements(rules), dc);
            if v == [] then index == NO_INDEX
            else index < |ctxs| && ctxs[index] == v && Slot(img, index) == if HasArea(ctxs, index) then Some(v) else None
  {
    hide Compiles, Answers, LookupIdx, CompiledTrie, CompiledImage, NodeAt, TableAt, StrictlySorted, HasArea, Slot, Word,
         TableEntry, Searchable, LongestMatchIfShown, IsLongestMatch, NoShadows;
    v := CompilationPreservesMeaning(rules, dc, dt, n, ContextField);
    CompiledImageDecodes(rules, dc, dt);
    var img := CompiledImage(Elements(rules), dc, dt);
    var ctxs := ContextTable(Elements(rules), dc);
    var index := LookupIdx(CompiledTrie(Elements(rules), dc, dt), n).ctx;
    TableReads(img, Word(img, 12), ctxs);
    if index != NO_INDEX {
      assert TableEntry(img, Word(img, 12), index) == Some(v);
      assert index < |ctxs| && ctxs[index] == v;
      SlotsAligned(img, ctxs, index);
    }
  }

  // ---------------------------------------------------------------- which contexts have an area, by their bytes

  /** The same byte, or the same letter in the other case. */
  predicate SameLetter(a: byte, b: byte)
  {
    a == b || (0x41 <= a <= 0x5A && b == a + 0x20) || (0x41 <= b <= 0x5A && a == b + 0x20)
  }

  predicate SpelledAlike(x: Str, y: Str)
  {
    |x| == |y| && forall i :: 0 <= i < |x| ==> SameLetter(x[i], y[i])
  }

  /** Any name of ASCII bytes without `/`, but for `.`, `..` and, in any case, the three names that the
      directory keeps for itself. */
  predicate PlainFileName(name: Str)
  {
    |name| > 0 && (forall i :: 0 <= i < |name| ==> name[i] <= 0x7F && name[i] != 0x2F)
    && name != [0x2E] && name != [0x2E, 0x2E]
    && !SpelledAlike(name, Ascii(".writer_lock")) && !SpelledAlike(name, Ascii("properties_serial"))
    && !SpelledAlike(name, Ascii("property_info"))
  }

  lemma {:induction false} FoldByText(x: Str, y: Str)
    ensures Fold(x) == Fold(y) <==> SpelledAlike(x, y)
  {
    if Fold(x) == Fold(y) {
      forall i | 0 <= i < |x| ensures SameLetter(x[i], y[i]) {
        assert Fold(x)[i] == Fold(y)[i];
      }
    }
  }

  lemma {:induction false} ReservedAreLower()
    ensures Fold(Ascii(".writer_lock")) == Ascii(".writer_lock")
    ensures Fold(Ascii("properties_serial")) == Ascii("properties_serial") && Fold(Ascii("property_info")) == Ascii("property_info")
  {
  }

  lemma {:induction false} EligibleByText(name: Str)
    ensures Eligible(name) <==> PlainFileName(name)
  {
    hide Fold, SpelledAlike, Ascii;
    ReservedAreLower();
    FoldByText(name, Ascii(".writer_lock"));
    FoldByText(name, Ascii("properties_serial"));
    FoldByText(name, Ascii("property_info"));
    if Eligible(name) {
      forall i | 0 <= i < |name| ensures name[i] <= 0x7F && name[i] != 0x2F {
        assert name[i] in name;
      }
    }
  }

  /** Context `i` has an area exactly if it is a plain file name and no plain file name before it is spelled
      like it but for case. */
  lemma {:induction false} AreasByText(ctxs: seq<Str>, i: nat)
    requires i < |ctxs|
    ensures HasArea(ctxs, i) <==>
              PlainFileName(ctxs[i]) && forall j :: 0 <= j < i && PlainFileName(ctxs[j]) ==> !SpelledAlike(ctxs[j], ctxs[i])
  {
    hide Eligible, PlainFileName, Fold, SpelledAlike;
    EligibleByText(ctxs[i]);
    forall j | 0 <= j < i
      ensures (Eligible(ctxs[j]) <==> PlainFileName(ctxs[j])) && (Fold(ctxs[j]) == Fold(ctxs[i]) <==> SpelledAlike(ctxs[j], ctxs[i]))
    {
      EligibleByText(ctxs[j]);
      FoldByText(ctxs[j], ctxs[i]);
    }
  }

  /** Contexts whose names are eligible and distinct, even ignoring case, all have their area. */
  lemma {:induction false} SeparableHaveAreas(ctxs: seq<Str>, i: nat)
    requires i < |ctxs| && (forall k :: 0 <= k < |ctxs| ==> Eligible(ctxs[k]))
    requires forall j, k :: 0 <= j < k < |ctxs| ==> Fold(ctxs[j]) != Fold(ctxs[k])
    ensures HasArea(ctxs, i)
  {
    hide Eligible, Fold;
  }
}
