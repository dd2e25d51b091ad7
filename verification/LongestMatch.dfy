/** What a lookup in the compiled trie means in terms of the rules it was compiled from.

    `Walk` is the reader's walk, on the builder's trie.  The theorems say which rule it picks, without
    mentioning a trie at all. */
module LongestMatch {
  import opened Base
  import opened TrieBuilder

  /** A context and a type; the empty string stands for "not set". */
  datatype Pick = Pick(ctx: Str, typ: Str)

  datatype Field = ContextField | TypeField

  function FieldOf(r: Rule, f: Field): Str
  {
    match f
    case ContextField => r.context
    case TypeField => r.rtype
  }

  function Picked(p: Pick, f: Field): Str
  {
    match f
    case ContextField => p.ctx
    case TypeField => p.typ
  }

  function OrEmpty(s: Option<Str>): Str
  {
    match s
    case None => []
    case Some(v) => v
  }

  /** An entry's set fields replace what the walk has so far; unset and empty ones inherit. */
  function Override(acc: Pick, e: Entry): Pick
  {
    var c, t := OrEmpty(e.context), OrEmpty(e.rtype);
    Pick(if c == [] then acc.ctx else c, if t == [] then acc.typ else t)
  }

  // ---------------------------------------------------------------- the walk

  /** The longest prefix of `rest[..k]` among the node's prefix entries. */
  function LongestPrefix(prefixes: map<Str, Entry>, rest: Str, k: nat): (q: Option<Str>)
    requires k <= |rest|
    ensures q.Some? ==> q.value in prefixes && q.value <= rest && |q.value| <= k
    ensures forall j :: 0 <= j <= k && rest[..j] in prefixes ==> q.Some? && j <= |q.value|
  {
    if rest[..k] in prefixes then Some(rest[..k])
    else if k == 0 then None
    else LongestPrefix(prefixes, rest, k - 1)
  }

  function AtNode(node: Node, rest: Str, acc: Pick): Pick
  {
    match LongestPrefix(node.prefixes, rest, |rest|)
    case None => acc
    case Some(q) => Override(acc, node.prefixes[q])
  }

  /** The lookup below a node whose own entry has been applied already. */
  function Walk(node: Node, rest: Str, acc: Pick): Pick
    decreases |rest|
  {
    var acc' := AtNode(node, rest, acc);
    match IndexOf(rest, DOT)
    case Some(i) =>
      if rest[..i] in node.children then
        var child := node.children[rest[..i]];
        Walk(child, rest[i + 1..], Override(acc', child.entry))
      else if rest in node.exacts then Override(acc', node.exacts[rest]) else acc'
    case None =>
      if rest in node.exacts then Override(acc', node.exacts[rest]) else acc'
  }

  function Lookup(root: Node, name: Str): Pick
  {
    Walk(root, name, Override(Pick([], []), root.entry))
  }

  // ---------------------------------------------------------------- the rules that apply to a name

  /** A prefix rule whose name is a string prefix of `n`. */
  predicate PrefixFor(r: Rule, n: Str)
  {
    !r.exact && r.name <= n
  }

  /** An exact rule for `n`; a trailing dot in the rule is as if absent. */
  predicate ExactFor(r: Rule, n: Str)
  {
    r.exact && Strip(r.name) == n
  }

  /** No longer prefix rule for `n` takes the place of `r`: it ends in a dot, or it is the longest within
      its dot-separated segment. */
  ghost predicate Shown(rules: set<Rule>, r: Rule, n: Str)
  {
    EndsWithDot(r.name)
    || forall x :: x in rules && PrefixFor(x, n) && |x.name| > |r.name| ==> DOT in x.name[|r.name|..]
  }

  /** The prefix rules the walk applies. */
  ghost predicate Effective(rules: set<Rule>, r: Rule, n: Str)
  {
    r in rules && PrefixFor(r, n) && Shown(rules, r, n)
  }

  ghost predicate Candidate(rules: set<Rule>, r: Rule, n: Str, f: Field, limit: int)
  {
    Effective(rules, r, n) && FieldOf(r, f) != [] && |r.name| <= limit
  }

  /** `v` is the field of the longest effective rule of length at most `limit` that sets it, or the
      default when there is none. */
  ghost predicate BestUpTo(rules: set<Rule>, n: Str, f: Field, limit: int, v: Str, default: Str)
  {
    (exists r :: Candidate(rules, r, n, f, limit) && FieldOf(r, f) == v
                 && forall x :: Candidate(rules, x, n, f, limit) ==> |x.name| <= |r.name|)
    || (v == default && forall x :: !Candidate(rules, x, n, f, limit))
  }

  /** The answer for `n`: the exact rule's field if it sets one, else the best prefix rule's. */
  ghost predicate Answers(rules: set<Rule>, n: Str, f: Field, v: Str, default: Str)
  {
    (exists e :: e in rules && ExactFor(e, n) && FieldOf(e, f) != [] && FieldOf(e, f) == v)
    || ((forall e :: e in rules && ExactFor(e, n) ==> FieldOf(e, f) == [])
        && BestUpTo(rules, n, f, |n|, v, default))
  }

  // ---------------------------------------------------------------- walking by segments

  /** The segments of `n[..b]`, where `b` is 0 or just past a dot. */
  predicate IsBase(n: Str, b: nat)
  {
    b <= |n| && (b == 0 || n[b - 1] == DOT)
  }

  function BaseParts(n: Str, b: nat): seq<Str>
    requires IsBase(n, b)
  {
    if b == 0 then [] else Segments(n[..b - 1])
  }

  lemma {:induction false} BaseConcat(n: Str, b: nat, y: Str)
    requires IsBase(n, b)
    ensures Segments(n[..b] + y) == BaseParts(n, b) + Segments(y)
  {
    if b > 0 {
      assert n[..b] + y == n[..b - 1] + [DOT] + y;
      SegmentsConcat(n[..b - 1], y);
    } else {
      assert n[..b] + y == y;
    }
  }

  /** `node` is where the segments `path` lead from the root. */
  ghost predicate Reached(root: Node, node: Node, path: seq<Str>)
  {
    (forall slot: Slot, parts: seq<Str> :: parts != [] ==> Get(node, slot, parts) == Get(root, slot, path + parts))
    && if path == [] then node == root
       else Get(root, Dotted, path) == if node.entry.context.Some? then Some(node.entry) else None
  }

  lemma {:induction false} ReachedChild(root: Node, node: Node, path: seq<Str>, s: Str)
    requires Reached(root, node, path) && s in node.children
    ensures Reached(root, node.children[s], path + [s])
  {
    var child := node.children[s];
    forall slot: Slot, parts: seq<Str> | parts != [] ensures Get(child, slot, parts) == Get(root, slot, path + [s] + parts) {
      assert path + [s] + parts == path + ([s] + parts);
      assert ([s] + parts)[1..] == parts;
      assert Get(node, slot, [s] + parts) == Get(child, slot, parts);
    }
    assert Get(node, Dotted, [s]) == Get(root, Dotted, path + [s]);
  }

  /** A rule whose name goes on from `n[..b]` is found from the node reached there. */
  lemma {:induction false} RuleBelow(root: Node, rules: set<Rule>, dc: Str, dt: Str, node: Node, n: Str, b: nat, r: Rule, y: Str)
    requires Represents(root, rules, dc, dt) && IsBase(n, b) && Reached(root, node, BaseParts(n, b))
    requires r in rules && Strip(r.name) == n[..b] + y
    ensures Get(node, SlotOf(r), Segments(y)) == Some(EntryOf(r))
  {
    BaseConcat(n, b, y);
  }

  // ---------------------------------------------------------------- one level of the walk

  /** A rule that would be applied between two limits decides between the two best values. */
  lemma {:induction false} BestStep(rules: set<Rule>, n: Str, f: Field, lo: int, hi: int, v: Str, default: Str, r: Rule)
    requires BestUpTo(rules, n, f, lo, v, default) && lo <= hi
    requires Effective(rules, r, n) && lo < |r.name| <= hi
    requires forall x :: Effective(rules, x, n) && lo < |x.name| <= hi ==> x.name == r.name
    requires forall x, y :: x in rules && y in rules && SameKey(x, y) ==> x == y
    ensures BestUpTo(rules, n, f, hi, if FieldOf(r, f) == [] then v else FieldOf(r, f), default)
  {
    forall x | Effective(rules, x, n) && lo < |x.name| <= hi ensures x == r {
      assert SameKey(x, r);
    }
    if FieldOf(r, f) != [] {
      assert Candidate(rules, r, n, f, hi);
    } else {
      forall x ensures Candidate(rules, x, n, f, hi) <==> Candidate(rules, x, n, f, lo) {
      }
      if exists x :: Candidate(rules, x, n, f, lo) {
        var w :| Candidate(rules, w, n, f, lo) && FieldOf(w, f) == v
                 && forall x :: Candidate(rules, x, n, f, lo) ==> |x.name| <= |w.name|;
        assert Candidate(rules, w, n, f, hi);
      }
    }
  }

  /** With nothing to apply between two limits the best value stays. */
  lemma {:induction false} BestStays(rules: set<Rule>, n: Str, f: Field, lo: int, hi: int, v: Str, default: Str)
    requires BestUpTo(rules, n, f, lo, v, default) && lo <= hi
    requires forall x :: Effective(rules, x, n) ==> !(lo < |x.name| <= hi)
    ensures BestUpTo(rules, n, f, hi, v, default)
  {
    forall x ensures Candidate(rules, x, n, f, hi) <==> Candidate(rules, x, n, f, lo) {
    }
    if exists x :: Candidate(rules, x, n, f, lo) {
      var w :| Candidate(rules, w, n, f, lo) && FieldOf(w, f) == v
               && forall x :: Candidate(rules, x, n, f, lo) ==> |x.name| <= |w.name|;
      assert Candidate(rules, w, n, f, hi);
    }
  }

  /** The trie at hand: the rules it stores and where in the walk for `n` we are. */
  ghost predicate Walking(root: Node, rules: set<Rule>, dc: Str, dt: Str, n: Str, b: nat, node: Node)
  {
    Represents(root, rules, dc, dt) && Accepted(rules) && Tidy(node)
    && IsBase(n, b) && Reached(root, node, BaseParts(n, b))
  }

  /** What `add_to_trie` lets through. */
  ghost predicate Accepted(rules: set<Rule>)
  {
    (forall r :: r in rules ==> Acceptable(r))
    && forall x, y :: x in rules && y in rules && SameKey(x, y) ==> x == y
  }

  /** An entry filed under one segment at the node reached at `n[..b]`. */
  lemma {:induction false} RuleOfKey(root: Node, rules: set<Rule>, dc: Str, dt: Str, n: Str, b: nat, node: Node, slot: Slot, q: Str)
    returns (r: Rule)
    requires Walking(root, rules, dc, dt, n, b, node) && Get(node, slot, [q]).Some?
    ensures r in rules && SlotOf(r) == slot && Strip(r.name) == n[..b] + q
    ensures q != [] && Dotless(q) && Get(node, slot, [q]) == Some(EntryOf(r))
  {
    hide Get, Tidy;
    var path := BaseParts(n, b);
    assert Get(root, slot, path + [q]).Some?;
    r :| r in rules && StoredAt(r, slot, path + [q]);
    assert PartsOf(r)[|path|] == q;
    SegmentsDotless(Strip(r.name));
    SegmentsOfDotless(q);
    BaseConcat(n, b, q);
    SegmentsInjective(Strip(r.name), n[..b] + q);
  }

  /** Cutting a name inside the segment that starts at `b`. */
  lemma {:induction false} CutInSegment(n: Str, b: nat, e: nat, k: nat)
    requires b < k <= e <= |n| && Dotless(n[b..e])
    ensures var q := n[b..][..k - b];
            n[..k] == n[..b] + q && q == n[..k][b..] && q != [] && Dotless(q) && !EndsWithDot(n[..k])
  {
    var q := n[b..][..k - b];
    assert q == n[b..e][..k - b];
    assert forall c :: c in q ==> c in n[b..e];
    assert n[..k][k - 1] == n[b..e][k - 1 - b];
  }

  lemma {:induction false} CutWithinSegment(n: Str, b: nat, e: nat, j: nat, k: nat)
    requires b <= j <= e <= |n| && k <= e && Dotless(n[b..e])
    ensures j < k ==> DOT !in n[..k][j..]
  {
    if j < k {
      forall i | 0 <= i < k - j ensures n[..k][j..][i] != DOT {
        assert n[..k][j..][i] == n[b..e][i + j - b];
      }
    }
  }

  /** A name that reaches past the segment ending at `e` crosses its dot. */
  lemma {:induction false} CutPastSegment(n: Str, e: nat, j: nat, k: nat)
    requires j <= e < k <= |n| && n[e] == DOT
    ensures DOT in n[..k][j..]
  {
    assert n[..k][j..][e - j] == DOT;
  }

  lemma {:induction false} CrossingCut(n: Str, e: nat, j: nat, k: nat)
    requires j <= e <= |n| && (e < |n| ==> n[e] == DOT) && j <= k <= |n|
    ensures e < k ==> DOT in n[..k][j..]
  {
    if e < k {
      CutPastSegment(n, e, j, k);
    }
  }

  /** A prefix rule that ends within the current segment is filed at the current node. */
  lemma {:induction false} RuleInSegment(root: Node, rules: set<Rule>, dc: Str, dt: Str, n: Str, b: nat, node: Node, e: nat, x: Rule)
    requires Walking(root, rules, dc, dt, n, b, node) && b <= e <= |n| && Dotless(n[b..e])
    requires x in rules && PrefixFor(x, n) && b < |x.name| <= e
    ensures !EndsWithDot(x.name) && x.name == n[..b] + n[b..][..|x.name| - b]
    ensures var q := n[b..][..|x.name| - b]; q in node.prefixes && node.prefixes[q] == EntryOf(x)
  {
    hide Represents, Reached, Tidy, Accepted, Segments, EntryOf;
    var q := n[b..][..|x.name| - b];
    CutInSegment(n, b, e, |x.name|);
    assert x.name == n[..|x.name|];
    RuleBelow(root, rules, dc, dt, node, n, b, x, q);
    SegmentsOfDotless(q);
  }

  /** The longest matching prefix entry of the current node is an effective rule. */
  lemma {:induction false} BestEntryIsEffective(root: Node, rules: set<Rule>, dc: Str, dt: Str, n: Str, b: nat, node: Node, e: nat, q: Str)
    returns (r: Rule)
    requires Walking(root, rules, dc, dt, n, b, node)
    requires b <= e <= |n| && Dotless(n[b..e]) && (e == |n| || n[e] == DOT)
    requires LongestPrefix(node.prefixes, n[b..], |n[b..]|) == Some(q)
    ensures Effective(rules, r, n) && r.name == n[..b] + q && b < |r.name| <= e && node.prefixes[q] == EntryOf(r)
  {
    hide Represents, Reached, Tidy, Accepted, LongestPrefix, EntryOf;
    r := RuleOfKey(root, rules, dc, dt, n, b, node, Prefix, q);
    assert n == n[..b] + n[b..];
    var k := |r.name|;
    assert r.name == n[..k] && q == n[..k][b..];
    CrossingCut(n, e, b, k);
    forall x | x in rules && PrefixFor(x, n) && |x.name| > k ensures DOT in x.name[k..] {
      assert x.name == n[..|x.name|];
      if |x.name| <= e {
        RuleInSegment(root, rules, dc, dt, n, b, node, e, x);
      } else {
        CutPastSegment(n, e, k, |x.name|);
      }
    }
  }

  /** At each node the walk applies the one effective rule that ends in the current segment, if any. */
  lemma {:induction false} SegmentRule(root: Node, rules: set<Rule>, dc: Str, dt: Str, n: Str, b: nat, node: Node, e: nat)
    requires Walking(root, rules, dc, dt, n, b, node)
    requires b <= e <= |n| && Dotless(n[b..e]) && (e == |n| || n[e] == DOT)
    ensures match LongestPrefix(node.prefixes, n[b..], |n[b..]|)
            case None => forall x :: Effective(rules, x, n) ==> !(b < |x.name| <= e)
            case Some(q) =>
              exists r :: Effective(rules, r, n) && b < |r.name| <= e && node.prefixes[q] == EntryOf(r)
                          && forall x :: Effective(rules, x, n) && b < |x.name| <= e ==> x.name == r.name
  {
    hide Represents, Reached, Tidy, Accepted, LongestPrefix, EntryOf, Walking, Get, Shown;
    var best := LongestPrefix(node.prefixes, n[b..], |n[b..]|);
    forall x | Effective(rules, x, n) && b < |x.name| <= e ensures best.Some? && |x.name| <= b + |best.value| {
      RuleInSegment(root, rules, dc, dt, n, b, node, e, x);
    }
    if best.Some? {
      var r := BestEntryIsEffective(root, rules, dc, dt, n, b, node, e, best.value);
      forall x | Effective(rules, x, n) && b < |x.name| <= e ensures x.name == r.name {
        RuleInSegment(root, rules, dc, dt, n, b, node, e, x);
        LastInSegment(rules, n, b, e, x, r);
      }
    }
  }

  /** Of two prefix rules that end in one segment, the shorter undotted one is not effective. */
  lemma {:induction false} LastInSegment(rules: set<Rule>, n: Str, b: nat, e: nat, x: Rule, r: Rule)
    requires b <= e <= |n| && Dotless(n[b..e])
    requires Effective(rules, x, n) && !EndsWithDot(x.name) && r in rules && PrefixFor(r, n)
    requires b < |x.name| <= |r.name| <= e
    ensures x.name == r.name
  {
    CutWithinSegment(n, b, e, |x.name|, |r.name|);
    assert r.name == n[..|r.name|] && x.name == n[..|x.name|];
  }

  /** Applying a node's prefix entry carries the best value to the end of the segment. */
  lemma {:induction false} SegmentStep(root: Node, rules: set<Rule>, dc: Str, dt: Str, n: Str, b: nat, node: Node, e: nat,
                                       acc: Pick, f: Field, default: Str)
    requires Walking(root, rules, dc, dt, n, b, node)
    requires b <= e <= |n| && Dotless(n[b..e]) && (e == |n| || n[e] == DOT)
    requires BestUpTo(rules, n, f, b, Picked(acc, f), default)
    ensures BestUpTo(rules, n, f, e, Picked(AtNode(node, n[b..], acc), f), default)
  {
    hide Represents, Reached, Tidy, BestUpTo, Effective;
    SegmentRule(root, rules, dc, dt, n, b, node, e);
    match LongestPrefix(node.prefixes, n[b..], |n[b..]|) {
      case None =>
        BestStays(rules, n, f, b, e, Picked(acc, f), default);
      case Some(q) =>
        var r :| Effective(rules, r, n) && b < |r.name| <= e && node.prefixes[q] == EntryOf(r)
                 && forall x :: Effective(rules, x, n) && b < |x.name| <= e ==> x.name == r.name;
        BestStep(rules, n, f, b, e, Picked(acc, f), default, r);
    }
  }

  lemma {:induction false} BaseOfChild(n: Str, b: nat, e: nat)
    requires IsBase(n, b) && b <= e < |n| && Dotless(n[b..e]) && n[e] == DOT
    ensures IsBase(n, e + 1) && BaseParts(n, e + 1) == BaseParts(n, b) + [n[b..e]]
    ensures n[..e] == n[..b] + n[b..e] && n[..e + 1] == n[..e] + [DOT]
  {
    BaseConcat(n, b, n[b..e]);
    assert n[..b] + n[b..e] == n[..e] == n[..e + 1 - 1];
    SegmentsOfDotless(n[b..e]);
  }

  lemma {:induction false} EnterChild(root: Node, rules: set<Rule>, dc: Str, dt: Str, n: Str, b: nat, node: Node, e: nat)
    requires Walking(root, rules, dc, dt, n, b, node)
    requires b <= e < |n| && Dotless(n[b..e]) && n[e] == DOT && n[b..e] in node.children
    ensures Walking(root, rules, dc, dt, n, e + 1, node.children[n[b..e]])
    ensures Named(node.children[n[b..e]].entry, n[b..e])
  {
    hide Represents, Reached, Accepted, BaseParts;
    BaseOfChild(n, b, e);
    ReachedChild(root, node, BaseParts(n, b), n[b..e]);
  }

  /** The rule that ends in the dot at `e`, if there is one, is the child's own entry. */
  lemma {:induction false} DottedRule(root: Node, rules: set<Rule>, dc: Str, dt: Str, n: Str, b: nat, node: Node, e: nat)
    requires Walking(root, rules, dc, dt, n, b, node)
    requires b <= e < |n| && Dotless(n[b..e]) && n[e] == DOT && n[b..e] in node.children
    ensures var entry := node.children[n[b..e]].entry;
            if entry.context.Some?
            then exists r :: Effective(rules, r, n) && r.name == n[..e + 1] && entry == EntryOf(r)
            else forall x :: Effective(rules, x, n) ==> |x.name| != e + 1
  {
    hide Represents, Reached, Accepted, Tidy, BaseParts, EntryOf;
    var child := node.children[n[b..e]];
    BaseOfChild(n, b, e);
    SegmentsOfDotless(n[b..e]);
    if child.entry.context.Some? {
      var r := RuleOfKey(root, rules, dc, dt, n, b, node, Dotted, n[b..e]);
      assert r.name == Strip(r.name) + [DOT];
      assert n == n[..e + 1] + n[e + 1..];
    } else {
      forall x | Effective(rules, x, n) ensures |x.name| != e + 1 {
        if |x.name| == e + 1 {
          assert x.name == n[..e + 1];
          RuleBelow(root, rules, dc, dt, node, n, b, x, n[b..e]);
        }
      }
    }
  }

  /** Entering a child applies the rule that ends in the dot just passed, if there is one. */
  lemma {:induction false} ChildStep(root: Node, rules: set<Rule>, dc: Str, dt: Str, n: Str, b: nat, node: Node, e: nat,
                                     acc: Pick, f: Field, default: Str)
    requires Walking(root, rules, dc, dt, n, b, node)
    requires b <= e < |n| && Dotless(n[b..e]) && n[e] == DOT && n[b..e] in node.children
    requires BestUpTo(rules, n, f, e, Picked(acc, f), default)
    ensures BestUpTo(rules, n, f, e + 1, Picked(Override(acc, node.children[n[b..e]].entry), f), default)
  {
    hide Walking, Effective, Dotless, BestUpTo, Override, EntryOf, Picked;
    var entry := node.children[n[b..e]].entry;
    EnterChild(root, rules, dc, dt, n, b, node, e);
    DottedRule(root, rules, dc, dt, n, b, node, e);
    if entry.context.Some? {
      var r :| Effective(rules, r, n) && r.name == n[..e + 1] && entry == EntryOf(r);
      DottedBest(rules, n, f, e, acc, default, r, root, dc, dt, b, node);
    } else {
      assert entry.rtype.None?;
      BestStays(rules, n, f, e, e + 1, Picked(acc, f), default);
      UnsetInherits(acc, entry);
    }
  }

  lemma {:induction false} UnsetInherits(acc: Pick, e: Entry)
    requires e.context.None? && e.rtype.None?
    ensures Override(acc, e) == acc
  {
  }

  lemma {:induction false} SetOverrides(acc: Pick, r: Rule, f: Field)
    ensures Picked(Override(acc, EntryOf(r)), f) == if FieldOf(r, f) == [] then Picked(acc, f) else FieldOf(r, f)
  {
  }

  lemma {:induction false} DottedBest(rules: set<Rule>, n: Str, f: Field, e: nat, acc: Pick, default: Str, r: Rule,
                                      root: Node, dc: Str, dt: Str, b: nat, node: Node)
    requires Walking(root, rules, dc, dt, n, b, node) && e < |n|
    requires BestUpTo(rules, n, f, e, Picked(acc, f), default)
    requires Effective(rules, r, n) && r.name == n[..e + 1]
    ensures BestUpTo(rules, n, f, e + 1, Picked(Override(acc, EntryOf(r)), f), default)
  {
    hide Represents, Reached, Tidy, BestUpTo, BaseParts, Override, EntryOf, Picked, IsBase;
    SetOverrides(acc, r, f);
    forall x | Effective(rules, x, n) && e < |x.name| <= e + 1 ensures x.name == r.name {
      assert x.name == n[..e + 1];
    }
    BestStep(rules, n, f, e, e + 1, Picked(acc, f), default, r);
  }

  /** The exact rule for `n`, if there is one, is filed where the walk ends. */
  lemma {:induction false} ExactAtEnd(root: Node, rules: set<Rule>, dc: Str, dt: Str, n: Str, b: nat, node: Node)
    requires Walking(root, rules, dc, dt, n, b, node) && Dotless(n[b..])
    ensures if n[b..] in node.exacts
            then exists r :: r in rules && ExactFor(r, n) && node.exacts[n[b..]] == EntryOf(r)
            else forall x :: x in rules ==> !ExactFor(x, n)
  {
    hide Represents, Reached, Accepted, Tidy, BaseParts, EntryOf;
    var rest := n[b..];
    SegmentsOfDotless(rest);
    assert n == n[..b] + rest;
    if rest in node.exacts {
      assert Get(node, Exact, [rest]).Some?;
      var r := RuleOfKey(root, rules, dc, dt, n, b, node, Exact, rest);
    } else {
      forall x | x in rules ensures !ExactFor(x, n) {
        if ExactFor(x, n) {
          RuleBelow(root, rules, dc, dt, node, n, b, x, rest);
        }
      }
    }
  }

  /** A rule found through the segment that ends at `e` makes the child for that segment exist. */
  lemma {:induction false} SegmentHasChild(node: Node, slot: Slot, s: Str, y: Str)
    requires Dotless(s) && s + [DOT] <= y && Get(node, slot, Segments(y)).Some?
    ensures s in node.children
  {
    IndexOfUnique(y, DOT, |s|);
    assert y[..|s|] == s;
  }

  /** A name that reaches past the segment ending at `e`, seen from the base of that segment. */
  lemma {:induction false} NamePastSegment(n: Str, b: nat, e: nat, name: Str) returns (y: Str)
    requires b <= e < |n| && n[e] == DOT && name <= n && e < |name|
    ensures Strip(name) == n[..b] + y
    ensures (y == n[b..e] && EndsWithDot(name)) || n[b..e] + [DOT] <= y
  {
    var k := |Strip(name)|;
    y := n[..k][b..];
    assert Strip(name) == n[..k] == n[..b] + y;
    assert name[e] == DOT;
    if e < k {
      assert y == n[b..k] && y[..e + 1 - b] == n[b..e + 1];
      assert n[b..e + 1] == n[b..e] + [DOT];
    }
  }

  lemma {:induction false} RestPastSegment(n: Str, b: nat, e: nat)
    requires b <= e < |n| && n[e] == DOT
    ensures n == n[..b] + n[b..] && n[b..e] + [DOT] <= n[b..] && !Dotless(n[b..])
  {
    assert n[b..][..e + 1 - b] == n[b..e] + [DOT];
    assert n[b..][e - b] == DOT;
  }

  /** Where the next segment has no child the walk is over: no further rule applies. */
  lemma {:induction false} NoExactBelow(root: Node, rules: set<Rule>, dc: Str, dt: Str, n: Str, b: nat, node: Node, e: nat)
    requires Walking(root, rules, dc, dt, n, b, node)
    requires b <= e < |n| && Dotless(n[b..e]) && n[e] == DOT && n[b..e] !in node.children
    ensures n[b..] !in node.exacts
    ensures forall x :: x in rules ==> !ExactFor(x, n)
  {
    hide Represents, Reached, Accepted, Tidy, BaseParts, EntryOf, Dotless;
    RestPastSegment(n, b, e);
    if n[b..] in node.exacts {
      assert Get(node, Exact, [n[b..]]).Some?;
      var r := RuleOfKey(root, rules, dc, dt, n, b, node, Exact, n[b..]);
    }
    forall x | x in rules ensures !ExactFor(x, n) {
      if ExactFor(x, n) {
        RuleBelow(root, rules, dc, dt, node, n, b, x, n[b..]);
        SegmentHasChild(node, Exact, n[b..e], n[b..]);
      }
    }
  }

  lemma {:induction false} NoPrefixBelow(root: Node, rules: set<Rule>, dc: Str, dt: Str, n: Str, b: nat, node: Node, e: nat, x: Rule)
    requires Walking(root, rules, dc, dt, n, b, node)
    requires b <= e < |n| && Dotless(n[b..e]) && n[e] == DOT && n[b..e] !in node.children
    requires x in rules && PrefixFor(x, n)
    ensures |x.name| <= e
  {
    hide Represents, Reached, Accepted, Tidy, BaseParts, EntryOf, Dotless, Strip;
    if e < |x.name| {
      var y := NamePastSegment(n, b, e, x.name);
      RuleBelow(root, rules, dc, dt, node, n, b, x, y);
      if y == n[b..e] {
        SegmentsOfDotless(y);
      } else {
        SegmentHasChild(node, SlotOf(x), n[b..e], y);
      }
    }
  }

  /** An exact rule's field wins when it is set; otherwise the walk's value stands. */
  lemma {:induction false} ExactDecides(rules: set<Rule>, n: Str, f: Field, acc: Pick, default: Str, r: Rule)
    requires Accepted(rules) && r in rules && ExactFor(r, n)
    requires BestUpTo(rules, n, f, |n|, Picked(acc, f), default)
    ensures Answers(rules, n, f, Picked(Override(acc, EntryOf(r)), f), default)
  {
    hide BestUpTo;
    forall x | x in rules && ExactFor(x, n) ensures x == r {
      assert SameKey(x, r);
    }
  }

  lemma {:induction false} NoExact(rules: set<Rule>, n: Str, f: Field, v: Str, default: Str)
    requires forall x :: x in rules ==> !ExactFor(x, n)
    requires BestUpTo(rules, n, f, |n|, v, default)
    ensures Answers(rules, n, f, v, default)
  {
  }

  lemma {:induction false} FirstDot(n: Str, b: nat)
    requires b <= |n|
    ensures match IndexOf(n[b..], DOT)
            case None => Dotless(n[b..]) && Dotless(n[b..|n|])
            case Some(i) => b + i < |n| && n[b + i] == DOT && n[b..][..i] == n[b..b + i] && Dotless(n[b..b + i])
                            && n[b..][i + 1..] == n[b + i + 1..]
  {
    assert n[b..|n|] == n[b..];
  }

  /** The walk answers correctly from every node it reaches. */
  lemma {:induction false} WalkAnswers(root: Node, rules: set<Rule>, dc: Str, dt: Str, n: Str, b: nat, node: Node,
                                       acc: Pick, f: Field, default: Str)
    requires Walking(root, rules, dc, dt, n, b, node)
    requires BestUpTo(rules, n, f, b, Picked(acc, f), default)
    ensures Answers(rules, n, f, Picked(Walk(node, n[b..], acc), f), default)
    decreases |n| - b
  {
    hide Represents, Reached, Tidy, BestUpTo, Answers, BaseParts, AtNode, IndexOf, EntryOf, Override, Picked;
    FirstDot(n, b);
    var acc' := AtNode(node, n[b..], acc);
    match IndexOf(n[b..], DOT)
    case None =>
      SegmentStep(root, rules, dc, dt, n, b, node, |n|, acc, f, default);
      ExactAtEnd(root, rules, dc, dt, n, b, node);
      if n[b..] in node.exacts {
        var r :| r in rules && ExactFor(r, n) && node.exacts[n[b..]] == EntryOf(r);
        ExactDecides(rules, n, f, acc', default, r);
      } else {
        NoExact(rules, n, f, Picked(acc', f), default);
      }
    case Some(i) =>
      var e := b + i;
      SegmentStep(root, rules, dc, dt, n, b, node, e, acc, f, default);
      if n[b..e] in node.children {
        var child := node.children[n[b..e]];
        EnterChild(root, rules, dc, dt, n, b, node, e);
        ChildStep(root, rules, dc, dt, n, b, node, e, acc', f, default);
        WalkAnswers(root, rules, dc, dt, n, e + 1, child, Override(acc', child.entry), f, default);
      } else {
        NoExactBelow(root, rules, dc, dt, n, b, node, e);
        forall x | Effective(rules, x, n) ensures !(e < |x.name| <= |n|) {
          NoPrefixBelow(root, rules, dc, dt, n, b, node, e, x);
        }
        BestStays(rules, n, f, e, |n|, Picked(acc', f), default);
        NoExact(rules, n, f, Picked(acc', f), default);
      }
  }

  /** Every lookup in the trie of a set of rules answers as the rules say, for contexts and types alike. */
  lemma {:induction false} LookupAnswers(root: Node, rules: set<Rule>, dc: Str, dt: Str, n: Str, f: Field)
    requires Represents(root, rules, dc, dt) && Accepted(rules)
    ensures Answers(rules, n, f, Picked(Lookup(root, n), f), if f == ContextField then dc else dt)
  {
    hide Tidy, Acceptable;
    assert n[0..] == n;
    forall slot: Slot, parts: seq<Str> | parts != [] ensures Get(root, slot, parts) == Get(root, slot, [] + parts) {
      assert [] + parts == parts;
    }
    var acc := Override(Pick([], []), root.entry);
    var default := if f == ContextField then dc else dt;
    forall r | r in rules ensures r.name != [] {
      NonemptyName(r);
    }
    assert Picked(acc, f) == default;
    WalkAnswers(root, rules, dc, dt, n, 0, root, acc, f, default);
  }

  lemma {:induction false} NonemptyName(r: Rule)
    requires Acceptable(r)
    ensures r.name != []
  {
    SegmentsOfDotless([]);
  }

  // ---------------------------------------------------------------- the longest match

  /** `r` is the longest prefix rule for `n` that sets the field. */
  ghost predicate LongestSetting(rules: set<Rule>, r: Rule, n: Str, f: Field)
  {
    r in rules && PrefixFor(r, n) && FieldOf(r, f) != []
    && forall x :: x in rules && PrefixFor(x, n) && FieldOf(x, f) != [] ==> |x.name| <= |r.name|
  }

  ghost predicate ExactSets(rules: set<Rule>, n: Str, f: Field)
  {
    exists e :: e in rules && ExactFor(e, n) && FieldOf(e, f) != []
  }

  /** Longest match: the exact rule's field if it sets one, else that of the longest rule that is a string
      prefix of the name and sets it, else the default. */
  ghost predicate IsLongestMatch(rules: set<Rule>, n: Str, f: Field, v: Str, default: Str)
  {
    (forall e :: e in rules && ExactFor(e, n) && FieldOf(e, f) != [] ==> v == FieldOf(e, f))
    && (!ExactSets(rules, n, f) ==>
          (forall r :: LongestSetting(rules, r, n, f) ==> v == FieldOf(r, f))
          && ((forall r :: r in rules && PrefixFor(r, n) ==> FieldOf(r, f) == []) ==> v == default))
  }

  /** No other rule and not the default carries the value of `r`. */
  ghost predicate Distinctive(rules: set<Rule>, r: Rule, f: Field, default: Str)
  {
    default != FieldOf(r, f) && forall x :: x in rules && x != r ==> FieldOf(x, f) != FieldOf(r, f)
  }

  /** Where the longest setting rule is shown the lookup is the longest match; and the answer is that
      rule's own value only where it is shown. */
  ghost predicate LongestMatchIfShown(rules: set<Rule>, n: Str, f: Field, v: Str, default: Str)
  {
    ((ExactSets(rules, n, f) || forall r :: LongestSetting(rules, r, n, f) ==> Shown(rules, r, n)) ==>
       IsLongestMatch(rules, n, f, v, default))
    && forall r :: LongestSetting(rules, r, n, f) && !ExactSets(rules, n, f) && Distinctive(rules, r, f, default) ==>
         (v == FieldOf(r, f) <==> Shown(rules, r, n))
  }

  lemma {:induction false} ExactIsOne(rules: set<Rule>, n: Str)
    requires Accepted(rules)
    ensures forall x, y :: x in rules && y in rules && ExactFor(x, n) && ExactFor(y, n) ==> x == y
  {
    hide Acceptable;
    forall x, y | x in rules && y in rules && ExactFor(x, n) && ExactFor(y, n) ensures x == y {
      assert SameKey(x, y);
    }
  }

  /** Two prefix rules of one length for a name are one rule. */
  lemma {:induction false} PrefixIsOne(rules: set<Rule>, n: Str, x: Rule, y: Rule)
    requires Accepted(rules) && x in rules && y in rules && PrefixFor(x, n) && PrefixFor(y, n) && |x.name| == |y.name|
    ensures x == y
  {
    hide Acceptable;
    assert x.name == n[..|x.name|] == y.name;
    assert SameKey(x, y);
  }

  /** A shown longest setting rule decides the answer. */
  lemma {:induction false} ShownDecides(rules: set<Rule>, n: Str, f: Field, v: Str, default: Str, r: Rule)
    requires Accepted(rules) && Answers(rules, n, f, v, default)
    requires LongestSetting(rules, r, n, f) && !ExactSets(rules, n, f) && Shown(rules, r, n)
    ensures v == FieldOf(r, f)
  {
    hide Accepted, Shown;
    assert Candidate(rules, r, n, f, |n|);
    var w :| Candidate(rules, w, n, f, |n|) && FieldOf(w, f) == v
             && forall x :: Candidate(rules, x, n, f, |n|) ==> |x.name| <= |w.name|;
    PrefixIsOne(rules, n, w, r);
  }

  /** A value that only one rule carries can only come from that rule, which must then be shown. */
  lemma {:induction false} OnlyIfShown(rules: set<Rule>, n: Str, f: Field, v: Str, default: Str, r: Rule)
    requires Answers(rules, n, f, v, default) && !ExactSets(rules, n, f)
    requires Distinctive(rules, r, f, default) && v == FieldOf(r, f)
    ensures Shown(rules, r, n)
  {
    hide Shown;
    var w :| Candidate(rules, w, n, f, |n|) && FieldOf(w, f) == v;
    assert w == r;
  }

  /** Exactly when a lookup is the longest match, for contexts and types alike. */
  lemma {:induction false} AnswersIfShown(rules: set<Rule>, n: Str, f: Field, v: Str, default: Str)
    requires Accepted(rules) && Answers(rules, n, f, v, default)
    ensures LongestMatchIfShown(rules, n, f, v, default)
  {
    hide Accepted, Shown, Distinctive, LongestSetting;
    ExactIsOne(rules, n);
    forall r | LongestSetting(rules, r, n, f) && !ExactSets(rules, n, f) && Shown(rules, r, n) ensures v == FieldOf(r, f) {
      ShownDecides(rules, n, f, v, default, r);
    }
    forall r | LongestSetting(rules, r, n, f) && !ExactSets(rules, n, f) && Distinctive(rules, r, f, default) && v == FieldOf(r, f)
      ensures Shown(rules, r, n)
    {
      OnlyIfShown(rules, n, f, v, default, r);
    }
  }

  /** When every rule sets the field, the longest setting rule is the longest rule, which is always shown. */
  lemma {:induction false} AllSetAllShown(rules: set<Rule>, n: Str, f: Field)
    requires forall r :: r in rules ==> FieldOf(r, f) != []
    ensures forall r :: LongestSetting(rules, r, n, f) ==> Shown(rules, r, n)
  {
  }

  /** No undotted rule that sets the field has a continuation, within its segment, that does not. */
  ghost predicate NoShadows(rules: set<Rule>, f: Field)
  {
    forall r, x :: r in rules && x in rules && !r.exact && !x.exact && r.name <= x.name && |x.name| > |r.name|
                   && FieldOf(r, f) != [] && FieldOf(x, f) == [] ==>
                   EndsWithDot(r.name) || DOT in x.name[|r.name|..]
  }

  /** A check on the rules alone that makes every lookup a longest match. */
  lemma {:induction false} NoShadowsAllShown(rules: set<Rule>, n: Str, f: Field)
    requires NoShadows(rules, f)
    ensures forall r :: LongestSetting(rules, r, n, f) ==> Shown(rules, r, n)
  {
    forall r | LongestSetting(rules, r, n, f) ensures Shown(rules, r, n) {
      forall x | x in rules && PrefixFor(x, n) && |x.name| > |r.name| && !EndsWithDot(r.name) ensures DOT in x.name[|r.name|..] {
        assert r.name == n[..|r.name|] && x.name == n[..|x.name|] && x.name[..|r.name|] == r.name;
      }
    }
  }

  /** Every lookup in the trie of a set of rules is the longest match exactly where the rule is shown. */
  lemma {:induction false} LookupIfShown(root: Node, rules: set<Rule>, dc: Str, dt: Str, n: Str, f: Field)
    requires Represents(root, rules, dc, dt) && Accepted(rules)
    ensures LongestMatchIfShown(rules, n, f, Picked(Lookup(root, n), f), if f == ContextField then dc else dt)
  {
    hide Answers, LongestMatchIfShown, Lookup, Represents, Accepted;
    LookupAnswers(root, rules, dc, dt, n, f);
    AnswersIfShown(rules, n, f, Picked(Lookup(root, n), f), if f == ContextField then dc else dt);
  }

  /** With the field set in every rule, or at least no rule shadowing one that sets it, every lookup is the
      longest match. */
  lemma {:induction false} LookupIsLongestMatch(root: Node, rules: set<Rule>, dc: Str, dt: Str, n: Str, f: Field)
    requires Represents(root, rules, dc, dt) && Accepted(rules)
    requires (forall r :: r in rules ==> FieldOf(r, f) != []) || NoShadows(rules, f)
    ensures IsLongestMatch(rules, n, f, Picked(Lookup(root, n), f), if f == ContextField then dc else dt)
  {
    hide IsLongestMatch, Lookup, Represents, Accepted, NoShadows, Shown, LongestSetting, ExactSets, Distinctive;
    LookupIfShown(root, rules, dc, dt, n, f);
    if forall r :: r in rules ==> FieldOf(r, f) != [] {
      AllSetAllShown(rules, n, f);
    } else {
      NoShadowsAllShown(rules, n, f);
    }
  }
}
