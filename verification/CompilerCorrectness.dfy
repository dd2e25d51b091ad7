/** What compiling a rule list preserves: order does not matter, and lookups in the bytes answer as the rules say. */
module CompilerCorrectness {
  import opened Base
  import opened Order
  import opened ImageFormat
  import opened TrieBuilder
  import opened TrieSerializer
  import opened PropertyInfoArea
  import opened LongestMatch
  import opened PropertyInfoCompiler

  // ---------------------------------------------------------------- order independence

  /** Distinct keys, counted: a key that occurs in two places occurs twice in the multiset. */
  lemma {:induction false} DistinctByCount(rules: seq<Rule>)
    ensures DistinctKeys(rules) <==>
              forall x, y :: x in rules && y in rules && SameKey(x, y) ==> x == y && multiset(rules)[x] == 1
  {
    hide SameKey;
    if DistinctKeys(rules) {
      forall x, y | x in rules && y in rules && SameKey(x, y) ensures x == y && multiset(rules)[x] == 1 {
        var i :| 0 <= i < |rules| && rules[i] == x;
        var j :| 0 <= j < |rules| && rules[j] == y;
        SameKeySymmetric(x, y);
        assert i == j;
        OccursOnce(rules, i);
      }
    }
    if forall x, y :: x in rules && y in rules && SameKey(x, y) ==> x == y && multiset(rules)[x] == 1 {
      forall i, j | 0 <= i < j < |rules| ensures !SameKey(rules[i], rules[j]) {
        if SameKey(rules[i], rules[j]) {
          OccursTwice(rules, i, j);
        }
      }
    }
  }

  lemma {:induction false} SameKeySymmetric(x: Rule, y: Rule)
    ensures SameKey(x, y) <==> SameKey(y, x)
    ensures SameKey(x, x)
  {
  }

  lemma {:induction false} OccursOnce(rules: seq<Rule>, i: nat)
    requires i < |rules| && DistinctKeys(rules)
    ensures multiset(rules)[rules[i]] == 1
  {
    hide SameKey;
    var x := rules[i];
    SameKeySymmetric(x, x);
    assert rules == rules[..i] + [x] + rules[i + 1..];
    assert x !in rules[..i];
    assert x !in rules[i + 1..];
    assert multiset(rules[..i])[x] == 0 && multiset(rules[i + 1..])[x] == 0;
  }

  lemma {:induction false} OccursTwice(rules: seq<Rule>, i: nat, j: nat)
    requires i < j < |rules| && rules[i] == rules[j]
    ensures multiset(rules)[rules[i]] >= 2
  {
    var x := rules[i];
    assert rules == rules[..j] + rules[j..];
    assert x == rules[..j][i] && x == rules[j..][0];
    assert x in multiset(rules[..j]) && x in multiset(rules[j..]);
  }

  /** Two permutations of a rule list either both fail or give byte-identical images. */
  lemma {:induction false} OrderIrrelevant(a: seq<Rule>, b: seq<Rule>, dc: Str, dt: Str)
    requires multiset(a) == multiset(b)
    ensures Compiles(a, dc, dt) <==> Compiles(b, dc, dt)
    ensures Compiles(a, dc, dt) ==>
              (TrieOfIsGood(a, dc, dt); TrieOfIsGood(b, dc, dt);
               CompiledImage(Elements(a), dc, dt) == CompiledImage(Elements(b), dc, dt))
  {
    hide Acceptable, SameKey, CompiledImage, HasTrie;
    assert forall r :: r in a <==> r in multiset(a);
    assert forall r :: r in b <==> r in multiset(b);
    assert Elements(a) == Elements(b);
    DistinctByCount(a);
    DistinctByCount(b);
    if WellFormed(a, dc, dt) {
      TrieOfIsGood(a, dc, dt);
    }
  }

  // ---------------------------------------------------------------- meaning

  /** Where the header keeps the string table a field's indexes refer to. */
  function TableField(f: Field): nat
  {
    match f
    case ContextField => 12
    case TypeField => 16
  }

  function IndexIn(i: Idx, f: Field): nat
  {
    match f
    case ContextField => i.ctx
    case TypeField => i.typ
  }

  /** The string an index of the image stands for; the sentinel stands for the empty string. */
  function Decoded(img: Str, f: Field, index: nat): Option<Str>
    requires HEADER_SIZE <= |img|
  {
    if index == NO_INDEX then Some([]) else TableEntry(img, Word(img, TableField(f)), index)
  }

  lemma {:induction false} ImageBounds(ctxs: seq<Str>, typs: seq<Str>, root: TNode)
    ensures HEADER_SIZE + 4 * |ctxs| + 4 * |typs| <= |EmitImage(ctxs, typs, root)|
  {
    hide EmitNode, EmitStrs, StrOffsets;
  }

  /** The trie behind a compiled image, and the facts about it that its readers rely on. */
  lemma {:induction false} CompiledParts(rules: seq<Rule>, dc: Str, dt: Str) returns (root: Node, ctxs: seq<Str>, typs: seq<Str>)
    requires Compiles(rules, dc, dt)
    ensures HasTrie(Elements(rules), dc, dt) && Represents(root, Elements(rules), dc, dt) && Tidy(root)
    ensures CompiledTrie(Elements(rules), dc, dt) == Resolve(root, ctxs, typs)
    ensures CompiledImage(Elements(rules), dc, dt) == EmitImage(ctxs, typs, Resolve(root, ctxs, typs))
    ensures ctxs == ContextTable(Elements(rules), dc) && typs == TypeTable(Elements(rules), dt)
    ensures Tables(ctxs, typs) && Resolvable(root, ctxs, typs)
    ensures Encodable(Resolve(root, ctxs, typs)) && Searchable(Resolve(root, ctxs, typs))
    ensures (forall s :: s in ctxs ==> 0 !in s) && (forall s :: s in typs ==> 0 !in s)
  {
    hide Good, Resolve, EmitImage, StrictlySorted, ContextsOf, TypesOf, Encodable, Searchable, Resolvable, Shallow,
         Acceptable;
    var all := Elements(rules);
    TrieOfIsGood(rules, dc, dt);
    root, ctxs, typs := TrieOf(all, dc, dt), ContextTable(all, dc), TypeTable(all, dt);
    ImageBounds(ctxs, typs, Resolve(root, ctxs, typs));
    SerializableTrie(root, all, dc, dt);
    TidyRoot(root, all, dc, dt);
    ResolvedEncodes(root, MAX_NAME_SEGMENTS, Elements(ctxs), Elements(typs), ctxs, typs);
    ResolvedSearchable(root, MAX_NAME_SEGMENTS, Elements(ctxs), Elements(typs), ctxs, typs);
  }

  /** For well-formed rules the serializer's other errors are unreachable: no string misses its table, the
      trie is not too deep, and, if the image fits, no index collides with the sentinel. */
  lemma {:induction false} OnlySizeCanFail(rules: seq<Rule>, dc: Str, dt: Str)
    requires WellFormed(rules, dc, dt)
    ensures HasTrie(Elements(rules), dc, dt)
    ensures var root, ctxs, typs := TrieOf(Elements(rules), dc, dt), ContextTable(Elements(rules), dc), TypeTable(Elements(rules), dt);
            Resolvable(root, ctxs, typs) && Shallow(root, MAX_TRIE_DEPTH)
            && (Compiles(rules, dc, dt) ==> |ctxs| <= NO_INDEX && |typs| <= NO_INDEX)
  {
    hide Good, Resolve, EmitImage, StrictlySorted, ContextsOf, TypesOf, Resolvable, Shallow, Acceptable, DistinctKeys;
    var all := Elements(rules);
    TrieOfIsGood(rules, dc, dt);
    var root, ctxs, typs := TrieOf(all, dc, dt), ContextTable(all, dc), TypeTable(all, dt);
    SerializableTrie(root, all, dc, dt);
    ImageBounds(ctxs, typs, Resolve(root, ctxs, typs));
  }

  lemma {:induction false} TidyRoot(root: Node, rules: set<Rule>, dc: Str, dt: Str)
    requires Represents(root, rules, dc, dt)
    ensures Tidy(root)
  {
  }

  /** The emitted bytes decode to the compiled trie and its two string tables. */
  lemma {:induction false} CompiledImageDecodes(rules: seq<Rule>, dc: Str, dt: Str)
    requires Compiles(rules, dc, dt)
    ensures HasTrie(Elements(rules), dc, dt)
    ensures var img := CompiledImage(Elements(rules), dc, dt);
            HEADER_SIZE <= |img|
            && ImageAt(img, ContextTable(Elements(rules), dc), TypeTable(Elements(rules), dt), CompiledTrie(Elements(rules), dc, dt))
            && Searchable(CompiledTrie(Elements(rules), dc, dt))
  {
    hide Represents, Tidy, CompiledTrie, Tables, Resolvable, Encodable, Searchable, EmitImage, ImageAt;
    var root, ctxs, typs := CompiledParts(rules, dc, dt);
    ImageBounds(ctxs, typs, Resolve(root, ctxs, typs));
    ImageDecodes(ctxs, typs, Resolve(root, ctxs, typs));
  }

  /** Indexes decode to the strings they were resolved from. */
  lemma {:induction false} IndexesDecode(img: Str, f: Field, ctxs: seq<Str>, typs: seq<Str>, root: TNode, p: Pick)
    requires HEADER_SIZE <= |img| && ImageAt(img, ctxs, typs, root) && Tables(ctxs, typs)
    requires InTable(if f == ContextField then ctxs else typs, Some(Picked(p, f)))
    ensures Decoded(img, f, IndexIn(Indexes(p, ctxs, typs), f)) == Some(Picked(p, f))
    ensures Picked(p, f) == [] ==> IndexIn(Indexes(p, ctxs, typs), f) == NO_INDEX
  {
    hide NodeAt, TableAt, StrictlySorted, TableEntry, Word;
    var table := if f == ContextField then ctxs else typs;
    TableReads(img, Word(img, TableField(f)), table);
  }

  /** The walk picks nothing but what the tables hold. */
  lemma {:induction false} WalkPicksFromTables(node: Node, rest: Str, acc: Pick, ctxs: seq<Str>, typs: seq<Str>)
    requires Resolvable(node, ctxs, typs)
    requires InTable(ctxs, Some(acc.ctx)) && InTable(typs, Some(acc.typ))
    ensures InTable(ctxs, Some(Walk(node, rest, acc).ctx)) && InTable(typs, Some(Walk(node, rest, acc).typ))
    decreases |rest|
  {
    hide LongestPrefix, Override, InTable;
    var acc' := AtNode(node, rest, acc);
    forall e: Entry, p: Pick | EntryInTables(e, ctxs, typs) && InTable(ctxs, Some(p.ctx)) && InTable(typs, Some(p.typ))
      ensures InTable(ctxs, Some(Override(p, e).ctx)) && InTable(typs, Some(Override(p, e).typ))
    {
      OverrideFromTables(p, e, ctxs, typs);
    }
    match IndexOf(rest, DOT)
    case None =>
    case Some(i) =>
      if rest[..i] in node.children {
        var child := node.children[rest[..i]];
        WalkPicksFromTables(child, rest[i + 1..], Override(acc', child.entry), ctxs, typs);
      }
  }

  lemma {:induction false} OverrideFromTables(p: Pick, e: Entry, ctxs: seq<Str>, typs: seq<Str>)
    requires EntryInTables(e, ctxs, typs) && InTable(ctxs, Some(p.ctx)) && InTable(typs, Some(p.typ))
    ensures InTable(ctxs, Some(Override(p, e).ctx)) && InTable(typs, Some(Override(p, e).typ))
  {
  }

  /** Compilation preserves meaning.  The reader's indexes in the compiled bytes stand for the strings
      that the rules prescribe, whatever the rules and whatever the name. */
  lemma {:induction false} CompilationPreservesMeaning(rules: seq<Rule>, dc: Str, dt: Str, n: Str, f: Field) returns (v: Str)
    requires Compiles(rules, dc, dt)
    ensures HasTrie(Elements(rules), dc, dt)
    ensures var img := CompiledImage(Elements(rules), dc, dt);
            HEADER_SIZE <= |img|
            && Decoded(img, f, IndexIn(LookupIdx(CompiledTrie(Elements(rules), dc, dt), n), f)) == Some(v)
            && (v == [] ==> IndexIn(LookupIdx(CompiledTrie(Elements(rules), dc, dt), n), f) == NO_INDEX)
    ensures Answers(Elements(rules), n, f, v, if f == ContextField then dc else dt)
    ensures LongestMatchIfShown(Elements(rules), n, f, v, if f == ContextField then dc else dt)
    ensures (forall r :: r in rules ==> FieldOf(r, f) != []) || NoShadows(Elements(rules), f) ==>
              IsLongestMatch(Elements(rules), n, f, v, if f == ContextField then dc else dt)
  {
    hide Represents, Tidy, CompiledTrie, Tables, Resolvable, Encodable, Searchable, EmitImage, ImageAt, Walk, Lookup, Resolve,
         Decoded, Indexes, LookupIdx, Answers, IsLongestMatch, LongestMatchIfShown, NoShadows, StrictlySorted, Acceptable, InTable;
    var root, ctxs, typs := CompiledParts(rules, dc, dt);
    CompiledImageDecodes(rules, dc, dt);
    LookupAgrees(root, n, ctxs, typs);
    var p := Lookup(root, n);
    v := Picked(p, f);
    LookupPicksFromTables(root, n, ctxs, typs);
    var img := CompiledImage(Elements(rules), dc, dt);
    IndexesDecode(img, f, ctxs, typs, Resolve(root, ctxs, typs), p);
    AcceptedElements(rules, dc, dt);
    LookupAnswers(root, Elements(rules), dc, dt, n, f);
    LookupIfShown(root, Elements(rules), dc, dt, n, f);
    if (forall r :: r in rules ==> FieldOf(r, f) != []) || NoShadows(Elements(rules), f) {
      LookupIsLongestMatch(root, Elements(rules), dc, dt, n, f);
    }
  }

  lemma {:induction false} LookupPicksFromTables(root: Node, n: Str, ctxs: seq<Str>, typs: seq<Str>)
    requires Resolvable(root, ctxs, typs)
    ensures InTable(ctxs, Some(Lookup(root, n).ctx)) && InTable(typs, Some(Lookup(root, n).typ))
  {
    OverrideFromTables(Pick([], []), root.entry, ctxs, typs);
    WalkPicksFromTables(root, n, Override(Pick([], []), root.entry), ctxs, typs);
  }

  lemma {:induction false} AcceptedElements(rules: seq<Rule>, dc: Str, dt: Str)
    requires WellFormed(rules, dc, dt)
    ensures Accepted(Elements(rules))
  {
    hide Acceptable, SameKey;
    forall x, y | x in Elements(rules) && y in Elements(rules) && SameKey(x, y) ensures x == y {
      DistinctByCount(rules);
    }
  }

  /** An exact rule for the name: the same name, or the same with a dot at its end. */
  predicate SaysExactly(x: Rule, name: Str)
  {
    x.exact && (x.name == name + [0x2E] || (x.name == name && name != [] && name[|name| - 1] != 0x2E))
  }

  predicate SaysPrefix(x: Rule, name: Str)
  {
    !x.exact && |x.name| <= |name| && x.name == name[..|x.name|]
  }

  /** Longest match, said of the rules' own fields: an exact rule for the name decides; without one the longest
      rule that the name begins with; without any the defaults stand. */
  ghost predicate PlainlyLongest(rules: seq<Rule>, name: Str, context: Str, rtype: Str, dc: Str, dt: Str)
  {
    (forall x :: x in rules && SaysExactly(x, name) ==> context == x.context && rtype == x.rtype)
    && ((forall x :: x in rules ==> !SaysExactly(x, name)) ==>
          (forall x :: x in rules && SaysPrefix(x, name)
                       && (forall y :: y in rules && SaysPrefix(y, name) ==> |y.name| <= |x.name|)
                       ==> context == x.context && rtype == x.rtype)
          && ((forall x :: x in rules ==> !SaysPrefix(x, name)) ==> context == dc && rtype == dt))
  }

  lemma {:induction false} ExactIsSaid(x: Rule, name: Str)
    requires WellSpelled(x)
    ensures ExactFor(x, name) <==> SaysExactly(x, name)
  {
    hide Dots;
    StripIs(x);
    if x.name == name + [0x2E] {
      assert Strip(x.name) == name;
    }
  }

  lemma {:induction false} PrefixIsSaid(x: Rule, name: Str)
    ensures PrefixFor(x, name) <==> SaysPrefix(x, name)
  {
  }

  lemma {:induction false} LongestIsPlain(rules: seq<Rule>, name: Str, context: Str, rtype: Str, dc: Str, dt: Str)
    requires forall x :: x in rules ==> WellSpelled(x) && x.context != [] && x.rtype != []
    requires IsLongestMatch(Elements(rules), name, ContextField, context, dc)
    requires IsLongestMatch(Elements(rules), name, TypeField, rtype, dt)
    ensures PlainlyLongest(rules, name, context, rtype, dc, dt)
  {
    hide WellSpelled, ExactFor, PrefixFor, SaysExactly, SaysPrefix;
    forall x | x in rules ensures x in Elements(rules) && (ExactFor(x, name) <==> SaysExactly(x, name)) {
      ExactIsSaid(x, name);
    }
    forall x: Rule ensures PrefixFor(x, name) <==> SaysPrefix(x, name) {
      PrefixIsSaid(x, name);
    }
    forall x | x in rules && SaysPrefix(x, name) && (forall y :: y in rules && SaysPrefix(y, name) ==> |y.name| <= |x.name|)
      ensures LongestSetting(Elements(rules), x, name, ContextField) && LongestSetting(Elements(rules), x, name, TypeField)
    {
    }
  }

  lemma {:induction false} SpelledRules(rules: seq<Rule>, dc: Str, dt: Str)
    requires Compiles(rules, dc, dt)
    ensures forall x :: x in rules ==> WellSpelled(x)
  {
    hide WellSpelled, SamePlace, Compiles, ImageFits;
    CompilesBySpelling(rules, dc, dt);
  }

  /** The compiler followed by the reader, with no reference to a trie: the strings found are the
      ones the rules prescribe for the name. */
  method CompileAndLookUp(rules: seq<Rule>, defaultContext: Str, defaultType: Str, name: Str) returns (r: Result<Pick>)
    ensures r.Ok? <==> Compiles(rules, defaultContext, defaultType)
    ensures r.Ok? ==> Answers(Elements(rules), name, ContextField, r.value.ctx, defaultContext)
    ensures r.Ok? ==> Answers(Elements(rules), name, TypeField, r.value.typ, defaultType)
    ensures r.Ok? ==> LongestMatchIfShown(Elements(rules), name, ContextField, r.value.ctx, defaultContext)
    ensures r.Ok? ==> LongestMatchIfShown(Elements(rules), name, TypeField, r.value.typ, defaultType)
    ensures r.Ok? && (forall x :: x in rules ==> x.context != []) ==>
              IsLongestMatch(Elements(rules), name, ContextField, r.value.ctx, defaultContext)
    ensures r.Ok? && ((forall x :: x in rules ==> x.rtype != []) || NoShadows(Elements(rules), TypeField)) ==>
              IsLongestMatch(Elements(rules), name, TypeField, r.value.typ, defaultType)
    ensures r.Ok? && (forall x :: x in rules ==> x.context != [] && x.rtype != []) ==>
              PlainlyLongest(rules, name, r.value.ctx, r.value.typ, defaultContext, defaultType)
  {
    hide PlainlyLongest, Compilable, ImageFits, WellSpelled, Compiles, CompiledTrie, CompiledImage, Decoded, LookupIdx, Answers,
         IsLongestMatch, LongestMatchIfShown, NoShadows, NodeAt, TablesAt, Searchable;
    var img :- BuildTrie(rules, defaultContext, defaultType);
    ghost var ctx := CompilationPreservesMeaning(rules, defaultContext, defaultType, name, ContextField);
    ghost var typ := CompilationPreservesMeaning(rules, defaultContext, defaultType, name, TypeField);
    CompiledImageDecodes(rules, defaultContext, defaultType);
    var found := GetPropertyInfoIndexes(img, name, CompiledTrie(Elements(rules), defaultContext, defaultType));
    var context, rtype := Decoded(img, ContextField, found.ctx), Decoded(img, TypeField, found.typ);
    if forall x :: x in rules ==> x.context != [] && x.rtype != [] {
      SpelledRules(rules, defaultContext, defaultType);
      LongestIsPlain(rules, name, context.value, rtype.value, defaultContext, defaultType);
    }
    return Ok(Pick(context.value, rtype.value));
  }

  // ---------------------------------------------------------------- where longest match fails

  const A: Str := Ascii("a")
  const AB: Str := Ascii("ab")

  /** Types do not follow the longest match.  Of the undotted rules in one segment only the longest is
      applied, even when it sets no type: with rules `a` of type `t` and `ab` of no type, `ab` gets the
      default although `a` is the longest rule for it that sets a type. */
  lemma {:induction false} ShadowedTypeIsLost(c: Str, t: Str, dc: Str, dt: Str) returns (root: Node)
    requires t != [] && 0 !in c && 0 !in t && 0 !in dc && 0 !in dt
    ensures var a, rules := Rule(A, c, t, false), [Rule(A, c, t, false), Rule(AB, c, [], false)];
            WellFormed(rules, dc, dt) && Represents(root, Elements(rules), dc, dt)
            && LongestSetting(Elements(rules), a, AB, TypeField) && !Shown(Elements(rules), a, AB)
            && Lookup(root, AB).typ == dt
            && (Compiles(rules, dc, dt) ==>
                  HEADER_SIZE <= |CompiledImage(Elements(rules), dc, dt)|
                  && Decoded(CompiledImage(Elements(rules), dc, dt), TypeField,
                             LookupIdx(CompiledTrie(Elements(rules), dc, dt), AB).typ) == Some(dt))
  {
    hide Represents, Compiles, CompiledImage, CompiledTrie, LookupIdx, Decoded, Lookup, LongestMatchIfShown, IsLongestMatch, NoShadows,
         Acceptable;
    var a, ab := Rule(A, c, t, false), Rule(AB, c, [], false);
    var rules := [a, ab];
    ShadowRules(c, t);
    assert Elements(rules) == {a, ab};
    root := TrieExists(rules, dc, dt);
    AcceptedElements(rules, dc, dt);
    LookupAnswers(root, Elements(rules), dc, dt, AB, TypeField);
    ShadowAnswer(c, t, Lookup(root, AB).typ, dt);
    if Compiles(rules, dc, dt) {
      var v := CompilationPreservesMeaning(rules, dc, dt, AB, TypeField);
      ShadowAnswer(c, t, v, dt);
    }
  }

  lemma {:induction false} ShadowRules(c: Str, t: Str)
    requires 0 !in c && 0 !in t
    ensures Acceptable(Rule(A, c, t, false)) && Acceptable(Rule(AB, c, [], false))
    ensures !SameKey(Rule(A, c, t, false), Rule(AB, c, [], false))
  {
    assert A == [0x61] && AB == [0x61, 0x62];
    SegmentsOfDotless(A);
    SegmentsOfDotless(AB);
  }

  lemma {:induction false} ShadowAnswer(c: Str, t: Str, v: Str, dt: Str)
    requires t != []
    requires Answers({Rule(A, c, t, false), Rule(AB, c, [], false)}, AB, TypeField, v, dt)
    ensures v == dt
    ensures var rules := {Rule(A, c, t, false), Rule(AB, c, [], false)};
            LongestSetting(rules, Rule(A, c, t, false), AB, TypeField) && !Shown(rules, Rule(A, c, t, false), AB)
  {
    var a, ab := Rule(A, c, t, false), Rule(AB, c, [], false);
    var rules := {a, ab};
    assert A == [0x61] && AB == [0x61, 0x62] && AB[1..] == [0x62];
    assert !Shown(rules, a, AB) by {
      assert PrefixFor(ab, AB) && |ab.name| > |a.name| && DOT !in ab.name[|a.name|..];
    }
    assert forall x :: !Candidate(rules, x, AB, TypeField, |AB|);
  }
}
