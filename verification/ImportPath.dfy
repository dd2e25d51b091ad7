/** Property references in import paths (`expand_import_path`, build_property_parser.rs). */
module ImportPath {
  import opened Base

  const DOLLAR: byte := 0x24
  const OPEN: byte := 0x7B
  const CLOSE: byte := 0x7D
  const COLON: byte := 0x3A
  const DASH: byte := 0x2D

  /** Position of the first ":-". */
  function DefaultAt(s: Str): (p: Option<nat>)
    ensures p.Some? ==> p.value + 2 <= |s| && s[p.value] == COLON && s[p.value + 1] == DASH
  {
    if |s| < 2 then None
    else if s[0] == COLON && s[1] == DASH then Some(0)
    else
      match DefaultAt(s[1..])
      case None => None
      case Some(i) => Some(i + 1)
  }

  /** The value of `${reference}`: the named property's, or the default if that is missing or empty. */
  function Substitute(reference: Str, properties: map<Str, Str>): Option<Str>
  {
    var split := DefaultAt(reference);
    var name := match split case None => reference case Some(i) => reference[..i];
    if name in properties && properties[name] != [] then Some(properties[name])
    else
      match split
      case None => None
      case Some(i) => Some(reference[i + 2..])
  }

  function Then(a: Str, b: Option<Str>): Option<Str>
  {
    match b
    case None => None
    case Some(s) => Some(a + s)
  }

  /** What follows a `$`: the text it stands for, and the rest of the path. */
  datatype Item = Item(value: Str, tail: Str)

  /** `None` for a stray `$`, an unterminated or an unresolvable reference. */
  function AfterDollar(after: Str, properties: map<Str, Str>): (r: Option<Item>)
    ensures r.Some? ==> |r.value.tail| < |after|
  {
    if after == [] then None
    else if after[0] == DOLLAR then Some(Item([DOLLAR], after[1..]))
    else if after[0] != OPEN then None
    else
      var body := after[1..];
      match IndexOf(body, CLOSE)
      case None => None
      case Some(end) =>
        match Substitute(body[..end], properties)
        case None => None
        case Some(value) => Some(Item(value, body[end + 1..]))
  }

  /** The expansion of a raw path. */
  function Expand(raw: Str, properties: map<Str, Str>): Option<Str>
    decreases |raw|
  {
    match IndexOf(raw, DOLLAR)
    case None => Some(raw)
    case Some(d) =>
      match AfterDollar(raw[d + 1..], properties)
      case None => None
      case Some(item) => Then(raw[..d] + item.value, Expand(item.tail, properties))
  }

  lemma {:induction false} ThenThen(a: Str, b: Str, c: Option<Str>)
    ensures Then(a, Then(b, c)) == Then(a + b, c)
  {
    if c.Some? {
      assert a + (b + c.value) == a + b + c.value;
    }
  }

  /** The loop over `$` signs. */
  method ExpandImportPath(raw: Str, properties: map<Str, Str>) returns (r: Option<Str>)
    ensures r == Expand(raw, properties)
  {
    hide Substitute, IndexOf;
    var out, rest := [], raw;
    assert Then(out, Expand(rest, properties)) == Expand(raw, properties) by { EmptyThen(Expand(raw, properties)); }
    while true
      invariant Then(out, Expand(rest, properties)) == Expand(raw, properties)
      decreases |rest|
    {
      var dollar := IndexOf(rest, DOLLAR);
      if dollar.None? {
        return Some(out + rest);
      }
      var before, after := rest[..dollar.value], rest[dollar.value + 1..];
      if after != [] && after[0] == DOLLAR {
        Onward(out, before, [DOLLAR], after[1..], properties);
        out, rest := out + before + [DOLLAR], after[1..];
      } else {
        if after == [] || after[0] != OPEN {
          return None;
        }
        var body := after[1..];
        var end := IndexOf(body, CLOSE);
        if end.None? {
          return None;
        }
        var value := Substitute(body[..end.value], properties);
        if value.None? {
          return None;
        }
        Onward(out, before, value.value, body[end.value + 1..], properties);
        out, rest := out + before + value.value, body[end.value + 1..];
      }
    }
  }

  lemma {:induction false} Onward(out: Str, before: Str, value: Str, tail: Str, properties: map<Str, Str>)
    ensures Then(out, Then(before + value, Expand(tail, properties))) == Then(out + before + value, Expand(tail, properties))
  {
    hide Expand;
    ThenThen(out, before + value, Expand(tail, properties));
    assert out + before + value == out + (before + value);
  }

  lemma {:induction false} EmptyThen(a: Option<Str>)
    ensures Then([], a) == a
  {
    if a.Some? {
      assert [] + a.value == a.value;
    }
  }

  // ---------------------------------------------------------------- the grammar

  datatype Token =
    | Text(s: Str)
    | Dollar
    | Reference(name: Str)
    | ReferenceOr(name: Str, default: Str)

  predicate WellFormedToken(t: Token)
  {
    match t
    case Text(s) => DOLLAR !in s
    case Dollar => true
    case Reference(name) => CLOSE !in name && DefaultAt(name).None?
    case ReferenceOr(name, default) => CLOSE !in name && DefaultAt(name).None? && CLOSE !in default
  }

  function Render(t: Token): Str
  {
    match t
    case Text(s) => s
    case Dollar => [DOLLAR, DOLLAR]
    case Reference(name) => [DOLLAR, OPEN] + name + [CLOSE]
    case ReferenceOr(name, default) => [DOLLAR, OPEN] + (name + [COLON, DASH] + default) + [CLOSE]
  }

  function Meaning(t: Token, properties: map<Str, Str>): Option<Str>
  {
    match t
    case Text(s) => Some(s)
    case Dollar => Some([DOLLAR])
    case Reference(name) => if name in properties && properties[name] != [] then Some(properties[name]) else None
    case ReferenceOr(name, default) =>
      Some(if name in properties && properties[name] != [] then properties[name] else default)
  }

  /** The grammar in letters: `$$`, `${name}` and `${name:-default}`, where no text has a `$`, no reference a `}`
      and no name a `:-`. */
  lemma {:induction false} TokensInText(t: Token)
    ensures WellFormedToken(t) <==>
              match t
              case Text(s) => 0x24 !in s
              case Dollar => true
              case Reference(name) => 0x7D !in name && forall i :: 0 <= i < |name| - 1 ==> !(name[i] == 0x3A && name[i + 1] == 0x2D)
              case ReferenceOr(name, default) =>
                0x7D !in name && 0x7D !in default && forall i :: 0 <= i < |name| - 1 ==> !(name[i] == 0x3A && name[i + 1] == 0x2D)
    ensures Render(t)
         == match t
            case Text(s) => s
            case Dollar => [0x24, 0x24]
            case Reference(name) => [0x24, 0x7B] + name + [0x7D]
            case ReferenceOr(name, default) => [0x24, 0x7B] + (name + [0x3A, 0x2D] + default) + [0x7D]
  {
    match t
    case Reference(name) => NoDefault(name);
    case ReferenceOr(name, _) => NoDefault(name);
    case _ =>
  }

  lemma {:induction false} NoDefault(s: Str)
    ensures DefaultAt(s).None? <==> forall i :: 0 <= i < |s| - 1 ==> !(s[i] == 0x3A && s[i + 1] == 0x2D)
    decreases |s|
  {
    if |s| >= 2 {
      NoDefault(s[1..]);
      if DefaultAt(s[1..]).None? && DefaultAt(s).None? {
        forall i | 0 <= i < |s| - 1 ensures !(s[i] == 0x3A && s[i + 1] == 0x2D) {
          if i > 0 {
            assert s[1..][i - 1] == s[i] && s[1..][i] == s[i + 1];
          }
        }
      }
    }
  }

  function RenderAll(ts: seq<Token>): Str
  {
    if ts == [] then [] else Render(ts[0]) + RenderAll(ts[1..])
  }

  /** A path means what its tokens mean, one after the other; one token without a meaning spoils it. */
  function MeaningAll(ts: seq<Token>, properties: map<Str, Str>): Option<Str>
  {
    if ts == [] then Some([])
    else
      match Meaning(ts[0], properties)
      case None => None
      case Some(v) => Then(v, MeaningAll(ts[1..], properties))
  }

  lemma {:induction false} DefaultOf(name: Str, default: Str)
    requires DefaultAt(name).None?
    ensures DefaultAt(name + [COLON, DASH] + default) == Some(|name|)
    decreases |name|
  {
    var s := name + [COLON, DASH] + default;
    if name != [] {
      assert s[1..] == name[1..] + [COLON, DASH] + default;
      if |name| == 1 {
        assert s[0] == name[0] && s[1] == COLON;
      } else {
        assert s[0] == name[0] && s[1] == name[1];
      }
      DefaultOf(name[1..], default);
    }
  }

  lemma {:induction false} TextAhead(s: Str, rest: Str, properties: map<Str, Str>)
    requires DOLLAR !in s
    ensures Expand(s + rest, properties) == Then(s, Expand(rest, properties))
  {
    hide AfterDollar, IndexOf;
    match IndexOf(rest, DOLLAR)
    case None =>
      NoIndex(s + rest, DOLLAR);
    case Some(d) =>
      assert (s + rest)[..|s| + d] == s + rest[..d];
      IndexOfUnique(s + rest, DOLLAR, |s| + d);
      assert (s + rest)[|s| + d + 1..] == rest[d + 1..];
      var item := AfterDollar(rest[d + 1..], properties);
      if item.Some? {
        Onward(s, rest[..d], item.value.value, item.value.tail, properties);
      }
  }

  lemma {:induction false} NoIndex(s: Str, c: byte)
    requires c !in s
    ensures IndexOf(s, c) == None
  {
  }

  lemma {:induction false} ReferenceItem(reference: Str, rest: Str, properties: map<Str, Str>)
    requires CLOSE !in reference
    ensures AfterDollar([OPEN] + reference + [CLOSE] + rest, properties)
         == match Substitute(reference, properties) case None => None case Some(v) => Some(Item(v, rest))
  {
    hide Substitute, IndexOf;
    var after := [OPEN] + reference + [CLOSE] + rest;
    var body := after[1..];
    assert body == reference + [CLOSE] + rest && body[..|reference|] == reference;
    IndexOfUnique(body, CLOSE, |reference|);
    assert body[|reference| + 1..] == rest;
  }

  lemma {:induction false} ReferenceAhead(reference: Str, rest: Str, properties: map<Str, Str>)
    requires CLOSE !in reference
    ensures Expand([DOLLAR, OPEN] + reference + [CLOSE] + rest, properties)
         == match Substitute(reference, properties) case None => None case Some(v) => Then(v, Expand(rest, properties))
  {
    hide Substitute, AfterDollar, IndexOf;
    var raw := [DOLLAR, OPEN] + reference + [CLOSE] + rest;
    IndexOfUnique(raw, DOLLAR, 0);
    assert raw[1..] == [OPEN] + reference + [CLOSE] + rest;
    ReferenceItem(reference, rest, properties);
    var value := Substitute(reference, properties);
    if value.Some? {
      assert raw[..0] + value.value == value.value;
    }
  }

  lemma {:induction false} TokenAhead(t: Token, rest: Str, properties: map<Str, Str>)
    requires WellFormedToken(t)
    ensures Expand(Render(t) + rest, properties)
         == match Meaning(t, properties) case None => None case Some(v) => Then(v, Expand(rest, properties))
  {
    hide Expand;
    match t
    case Text(s) => TextAhead(s, rest, properties);
    case Dollar => DollarAhead(rest, properties);
    case Reference(name) => ReferenceAhead(name, rest, properties);
    case ReferenceOr(name, default) =>
      var reference := name + [COLON, DASH] + default;
      DefaultOf(name, default);
      assert reference[..|name|] == name && reference[|name| + 2..] == default;
      ReferenceAhead(reference, rest, properties);
  }

  lemma {:induction false} DollarAhead(rest: Str, properties: map<Str, Str>)
    ensures Expand([DOLLAR, DOLLAR] + rest, properties) == Then([DOLLAR], Expand(rest, properties))
  {
    hide Substitute;
    var raw := [DOLLAR, DOLLAR] + rest;
    IndexOfUnique(raw, DOLLAR, 0);
    assert raw[1..] == [DOLLAR] + rest && raw[1..][1..] == rest;
    assert raw[..0] + [DOLLAR] == [DOLLAR];
  }

  /** Expansion agrees with the token grammar, for paths of any number of tokens. */
  lemma {:induction false} ExpandIsMeaning(ts: seq<Token>, properties: map<Str, Str>)
    requires forall t :: t in ts ==> WellFormedToken(t)
    ensures Expand(RenderAll(ts), properties) == MeaningAll(ts, properties)
    decreases |ts|
  {
    hide Expand, Render, Meaning, WellFormedToken;
    if ts == [] {
      PlainText([], properties);
    } else {
      TokenAhead(ts[0], RenderAll(ts[1..]), properties);
      ExpandIsMeaning(ts[1..], properties);
    }
  }

  lemma {:induction false} PlainText(s: Str, properties: map<Str, Str>)
    requires DOLLAR !in s
    ensures Expand(s, properties) == Some(s)
  {
    NoIndex(s, DOLLAR);
  }

  lemma {:induction false} FirstDefault(s: Str)
    requires DefaultAt(s).Some?
    ensures DefaultAt(s[..DefaultAt(s).value]).None?
    decreases |s|
  {
    var i := DefaultAt(s).value;
    if i > 0 {
      FirstDefault(s[1..]);
      assert s[..i][1..] == s[1..][..i - 1];
    }
  }

  /** The token that a resolved reference stands for. */
  lemma {:induction false} ReferenceToken(reference: Str) returns (t: Token)
    requires CLOSE !in reference
    ensures WellFormedToken(t) && Render(t) == [DOLLAR, OPEN] + reference + [CLOSE]
  {
    match DefaultAt(reference) {
      case None => t := Reference(reference);
      case Some(i) =>
        t := ReferenceOr(reference[..i], reference[i + 2..]);
        FirstDefault(reference);
        assert reference == reference[..i] + [COLON, DASH] + reference[i + 2..];
    }
  }

  lemma {:induction false} AroundClose(body: Str, end: nat)
    requires end < |body| && body[end] == CLOSE
    ensures [DOLLAR] + ([OPEN] + body) == [DOLLAR, OPEN] + body[..end] + [CLOSE] + body[end + 1..]
  {
    assert body == body[..end] + [CLOSE] + body[end + 1..];
  }

  /** The token at a `$` that the expansion gets past. */
  lemma {:induction false} DollarToken(after: Str, properties: map<Str, Str>) returns (t: Token)
    requires AfterDollar(after, properties).Some?
    ensures WellFormedToken(t) && [DOLLAR] + after == Render(t) + AfterDollar(after, properties).value.tail
  {
    hide Substitute, Render, WellFormedToken, IndexOf;
    if after[0] == DOLLAR {
      t := Dollar;
      DollarRenders();
      assert [DOLLAR] + after == [DOLLAR, DOLLAR] + after[1..];
    } else {
      var body := after[1..];
      var end := IndexOf(body, CLOSE).value;
      t := ReferenceToken(body[..end]);
      assert after == [OPEN] + body;
      AroundClose(body, end);
    }
  }

  lemma {:induction false} DollarRenders()
    ensures WellFormedToken(Dollar) && Render(Dollar) == [DOLLAR, DOLLAR]
  {
  }

  /** Every path that expands at all is written in the grammar. */
  lemma {:induction false} ExpandedHasTokens(raw: Str, properties: map<Str, Str>) returns (ts: seq<Token>)
    requires Expand(raw, properties).Some?
    ensures RenderAll(ts) == raw && forall t :: t in ts ==> WellFormedToken(t)
    decreases |raw|
  {
    hide AfterDollar, RenderAll, IndexOf;
    match IndexOf(raw, DOLLAR) {
      case None =>
        ts := [Text(raw)];
        OneToken(Text(raw));
      case Some(d) =>
        var item := AfterDollar(raw[d + 1..], properties).value;
        var t := DollarToken(raw[d + 1..], properties);
        var more := ExpandedHasTokens(item.tail, properties);
        ts := [Text(raw[..d]), t] + more;
        TwoTokens(Text(raw[..d]), t, more);
        SplitAtDollar(raw, d, Render(t) + item.tail);
    }
  }

  lemma {:induction false} SplitAtDollar(raw: Str, d: nat, rest: Str)
    requires d < |raw| && raw[d] == DOLLAR && [DOLLAR] + raw[d + 1..] == rest
    ensures raw[..d] + rest == raw
  {
  }

  lemma {:induction false} TwoTokens(a: Token, b: Token, more: seq<Token>)
    ensures RenderAll([a, b] + more) == Render(a) + (Render(b) + RenderAll(more))
  {
    hide Render, RenderAll;
    assert [a, b] + more == [a] + ([b] + more);
    TokenFirst(a, [b] + more);
    TokenFirst(b, more);
  }

  lemma {:induction false} OneToken(t: Token)
    ensures RenderAll([t]) == Render(t)
  {
    TokenFirst(t, []);
    assert [t] + [] == [t] && Render(t) + [] == Render(t);
  }

  lemma {:induction false} TokenFirst(t: Token, more: seq<Token>)
    ensures RenderAll([t] + more) == Render(t) + RenderAll(more)
  {
    assert ([t] + more)[1..] == more;
  }

  ghost predicate Written(ts: seq<Token>, raw: Str)
  {
    RenderAll(ts) == raw && forall t :: t in ts ==> WellFormedToken(t)
  }

  /** A path expands to `s` exactly if it is written in the grammar with tokens that mean `s`. */
  lemma {:induction false} ExpandsExactly(raw: Str, properties: map<Str, Str>, s: Str)
    ensures Expand(raw, properties) == Some(s) <==> exists ts :: Written(ts, raw) && MeaningAll(ts, properties) == Some(s)
  {
    hide Expand, RenderAll, MeaningAll, WellFormedToken;
    if Expand(raw, properties) == Some(s) {
      var ts := ExpandedHasTokens(raw, properties);
      ExpandIsMeaning(ts, properties);
      assert Written(ts, raw);
    }
    forall ts | Written(ts, raw) && MeaningAll(ts, properties) == Some(s) ensures Expand(raw, properties) == Some(s) {
      ExpandIsMeaning(ts, properties);
    }
  }

  // ---------------------------------------------------------------- quoting

  /** Every `$` doubled. */
  function Quote(s: Str): Str
  {
    if s == [] then []
    else (if s[0] == DOLLAR then [DOLLAR, DOLLAR] else [s[0]]) + Quote(s[1..])
  }

  /** Expansion undoes quoting, for every string, whatever the properties. */
  lemma {:induction false} ExpandQuoted(s: Str, properties: map<Str, Str>)
    ensures Expand(Quote(s), properties) == Some(s)
    decreases |s|
  {
    hide Expand;
    if s == [] {
      PlainText([], properties);
    } else {
      ExpandQuoted(s[1..], properties);
      if s[0] == DOLLAR {
        DollarAhead(Quote(s[1..]), properties);
      } else {
        TextAhead([s[0]], Quote(s[1..]), properties);
      }
      assert s == [s[0]] + s[1..];
    }
  }
}
