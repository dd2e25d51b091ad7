/** The text of property files: which lines set a property, which bring in another file, and which say
    nothing; and what whole files of written lines load (build_property_parser.rs). */
module PropertyText {
  import opened Base
  import opened BoundedLine
  import opened ImportPath
  import opened PropertyLoader

  // ---------------------------------------------------------------- blanks

  /** Spaces, tabs, newlines, vertical tabs, form feeds and carriage returns. */
  predicate Blanks(s: Str)
  {
    forall c :: c in s ==> c == 32 || 9 <= c <= 13
  }

  /** No blank at either end. */
  predicate Bare(s: Str)
  {
    s == [] || (!Blanks(s[..1]) && !Blanks(s[|s| - 1..]))
  }

  lemma {:induction false} OneBlank(s: Str)
    requires |s| == 1
    ensures Blanks(s) <==> Blank(s[0])
  {
    assert s[0] in s;
  }

  lemma {:induction false} BlanksConcat(a: Str, b: Str)
    ensures Blanks(a + b) <==> Blanks(a) && Blanks(b)
  {
    assert forall c :: c in a + b <==> c in a || c in b;
  }

  lemma {:induction false} TrimStartOf(a: Str, s: Str)
    requires Blanks(a) && (s == [] || !Blanks(s[..1]))
    ensures TrimStart(a + s) == s
    decreases |a|
  {
    hide Blanks;
    if a == [] {
      assert a + s == s;
      if s != [] {
        OneBlank(s[..1]);
      }
    } else {
      assert a == a[..1] + a[1..] && (a + s)[1..] == a[1..] + s && (a + s)[0] == a[..1][0];
      BlanksConcat(a[..1], a[1..]);
      OneBlank(a[..1]);
      TrimStartOf(a[1..], s);
    }
  }

  lemma {:induction false} TrimEndOf(s: Str, d: Str)
    requires Blanks(d) && (s == [] || !Blanks(s[|s| - 1..]))
    ensures TrimEnd(s + d) == s
    decreases |d|
  {
    hide Blanks;
    if d == [] {
      assert s + d == s;
      if s != [] {
        OneBlank(s[|s| - 1..]);
      }
    } else {
      var front, last := d[..|d| - 1], d[|d| - 1..];
      assert d == front + last && (s + d)[..|s + d| - 1] == s + front && (s + d)[|s + d| - 1] == last[0];
      BlanksConcat(front, last);
      OneBlank(last);
      TrimEndOf(s, front);
    }
  }

  lemma {:induction false} TrimStartSplit(s: Str) returns (a: Str)
    ensures s == a + TrimStart(s) && Blanks(a)
    ensures var t := TrimStart(s); t == [] || !Blanks(t[..1])
    decreases |s|
  {
    hide Blanks;
    if s != [] {
      OneBlank(s[..1]);
    }
    if s != [] && Blank(s[0]) {
      var rest := TrimStartSplit(s[1..]);
      a := s[..1] + rest;
      BlanksConcat(s[..1], rest);
      assert s == s[..1] + s[1..];
    } else {
      a := [];
      NoBlanks();
    }
  }

  lemma {:induction false} TrimEndSplit(s: Str) returns (d: Str)
    ensures s == TrimEnd(s) + d && Blanks(d)
    ensures var t := TrimEnd(s); t == [] || !Blanks(t[|t| - 1..])
    decreases |s|
  {
    hide Blanks;
    if s != [] {
      OneBlank(s[|s| - 1..]);
    }
    if s != [] && Blank(s[|s| - 1]) {
      var rest := TrimEndSplit(s[..|s| - 1]);
      d := rest + s[|s| - 1..];
      BlanksConcat(rest, s[|s| - 1..]);
      assert s == s[..|s| - 1] + s[|s| - 1..];
    } else {
      d := [];
      NoBlanks();
    }
  }

  lemma {:induction false} NoBlanks()
    ensures Blanks([])
  {
  }

  /** Trimming takes the blanks around a bare string, and nothing of it. */
  lemma {:induction false} TrimOf(a: Str, s: Str, d: Str)
    requires Blanks(a) && Bare(s) && Blanks(d)
    ensures Trim(a + s + d) == s
  {
    hide Blanks, TrimStart, TrimEnd;
    if s == [] {
      BlanksConcat(a, d);
      assert a + s + d == (a + d) + [];
      TrimStartOf(a + d, s);
      NoBlanks();
      TrimEndOf(s, s);
      assert s + s == s;
    } else {
      assert a + s + d == a + (s + d) && (s + d)[..1] == s[..1];
      TrimStartOf(a, s + d);
      TrimEndOf(s, d);
    }
  }

  lemma {:induction false} TrimSplit(s: Str) returns (a: Str, d: Str)
    ensures s == a + Trim(s) + d && Blanks(a) && Bare(Trim(s)) && Blanks(d)
  {
    hide Blanks, TrimStart, TrimEnd;
    a := TrimStartSplit(s);
    var t := TrimStart(s);
    d := TrimEndSplit(t);
    if Trim(s) != [] {
      assert t[..1] == Trim(s)[..1];
    }
    assert a + (Trim(s) + d) == a + Trim(s) + d;
  }

  // ---------------------------------------------------------------- lines that set a property

  /** Keys with a special meaning are never set from a file. */
  predicate Allowed(key: Str)
  {
    !(Ascii("ctl.") <= key) && key != Ascii("sys.powerctl") && key != Ascii("selinux.restorecon_recursive")
  }

  /** No filter selects everything, a filter that ends in `*` what begins like it, any other itself. */
  ghost predicate Wanted(filter: Str, key: Str)
  {
    filter == [] || key == filter || exists p: Str :: p + [0x2A] == filter && p <= key
  }

  /** `line` is blanks, the key, blanks, `=`, blanks, the value, blanks. */
  predicate Spelled(line: Str, a: Str, key: Str, b: Str, c: Str, value: Str, d: Str)
  {
    Blanks(a) && Blanks(b) && Blanks(c) && Blanks(d) && line == a + key + b + [0x3D] + c + value + d
  }

  /** The line sets `key` to `value`: it begins with neither `#` nor, where imports are followed, `import `. */
  ghost predicate Sets(line: Str, filter: Str, key: Str, value: Str)
  {
    key != [] && key[0] != 0x23 && 0x3D !in key && Bare(key) && Bare(value)
    && exists a, b, c, d ::
         Spelled(line, a, key, b, c, value, d) && (filter == [] ==> !(Ascii("import ") <= key + b))
  }

  /** The line is blanks, `import `, blanks, the path, blanks. */
  ghost predicate Imports(line: Str, path: Str)
  {
    path != [] && Bare(path) && exists a, b, c :: Blanks(a) && Blanks(b) && Blanks(c) && line == a + Ascii("import ") + b + path + c
  }

  lemma {:induction false} ImportLetters()
    ensures Ascii("import ") == [0x69, 0x6D, 0x70, 0x6F, 0x72, 0x74, 0x20]
  {
  }
  lemma {:induction false} AllowedIs(key: Str)
    ensures Disallowed(key) <==> !Allowed(key)
  {
  }

  lemma {:induction false} SelectedIs(filter: Str, key: Str)
    ensures filter == [] || Selected(filter, key) <==> Wanted(filter, key)
  {
    if filter != [] && filter[|filter| - 1] == 0x2A {
      var p := filter[..|filter| - 1];
      assert p + [0x2A] == filter;
      forall q: Str | q + [0x2A] == filter ensures q == p {
        assert (q + [0x2A])[..|filter| - 1] == q;
      }
    } else if filter != [] {
      forall q: Str ensures q + [0x2A] != filter {
        assert (q + [0x2A])[|q|] == 0x2A;
      }
    }
  }

  lemma {:induction false} NotIn(s: Str, t: Str, c: byte)
    requires c !in s && c !in t
    ensures c !in s + t
  {
  }

  lemma {:induction false} BlanksHold(s: Str, c: byte)
    requires Blanks(s) && !(c == 32 || 9 <= c <= 13)
    ensures c !in s
  {
  }

  /** The line without the blanks around it. */
  function Core(key: Str, b: Str, c: Str, value: Str): Str
  {
    key + b + [0x3D] + if value == [] then [] else c + value
  }

  lemma {:induction false} TrimSpelled(line: Str, a: Str, key: Str, b: Str, c: Str, value: Str, d: Str)
    requires Spelled(line, a, key, b, c, value, d) && key != [] && Bare(key) && Bare(value)
    ensures Trim(line) == Core(key, b, c, value)
  {
    hide Blanks, Trim;
    var core := Core(key, b, c, value);
    assert core[..1] == key[..1];
    if value == [] {
      assert core[|core| - 1..] == [0x3D];
      EqualsIsNoBlank();
      assert line == a + core + (c + d);
      BlanksConcat(c, d);
      TrimOf(a, core, c + d);
    } else {
      assert core[|core| - 1..] == value[|value| - 1..];
      assert line == a + core + d;
      TrimOf(a, core, d);
    }
  }

  lemma {:induction false} EqualsIsNoBlank()
    ensures !Blanks([0x3D])
  {
    assert 0x3D in [0x3D];
  }

  lemma {:induction false} CoreParts(key: Str, b: Str, c: Str, value: Str)
    requires key != [] && Bare(key) && Bare(value) && 0x3D !in key && Blanks(b) && Blanks(c)
    ensures var core := Core(key, b, c, value);
            IndexOf(core, 0x3D) == Some(|key + b|) && TrimEnd(core[..|key + b|]) == key && Trim(core[|key + b| + 1..]) == value
  {
    hide Blanks, IndexOf, TrimEnd, Trim;
    var core := Core(key, b, c, value);
    assert core[..|key + b|] == key + b;
    BlanksHold(b, 0x3D);
    NotIn(key, b, 0x3D);
    IndexOfUnique(core, 0x3D, |key + b|);
    TrimEndOf(key, b);
    NoBlanks();
    if value == [] {
      assert core[|key + b| + 1..] == value + value + value;
      TrimOf(value, value, value);
    } else {
      assert core[|key + b| + 1..] == c + value + [];
      TrimOf(c, value, []);
    }
  }

  lemma {:induction false} CoreBegins(key: Str, b: Str, c: Str, value: Str)
    requires 0x3D !in key && Blanks(b) && key != []
    ensures var core := Core(key, b, c, value);
            core != [] && core[0] == key[0] && (Ascii("import ") <= core <==> Ascii("import ") <= key + b)
  {
    hide Blanks;
    var core := Core(key, b, c, value);
    BlanksHold(b, 0x3D);
    NotIn(key, b, 0x3D);
    ImportLetters();
    assert core[..|key + b|] == key + b && core[|key + b|] == 0x3D;
    if Ascii("import ") <= core {
      ImportStops(core, |key + b|);
    }
  }

  lemma {:induction false} ImportStops(core: Str, n: nat)
    requires Ascii("import ") <= core && n < |core| && core[n] == 0x3D
    ensures n >= 7
  {
    ImportLetters();
    var i := Ascii("import ");
    assert forall k :: 0 <= k < |i| ==> core[k] == i[k] != 0x3D;
  }

  /** The line as it is written is what is made of it. */
  lemma {:induction false} SetsIsEntry(line: Str, filter: Str, utf8: Str -> bool, key: Str, value: Str)
    requires Sets(line, filter, key, value) && utf8(line) && Wanted(filter, key) && Allowed(key)
    ensures Classify(line, false, filter, utf8) == Entry(key, value)
  {
    hide Spelled, IndexOf, Trim, TrimEnd, Bare, Wanted, Allowed, Disallowed, Selected, Core, Ascii;
    var a, b, c, d :| Spelled(line, a, key, b, c, value, d) && (filter == [] ==> !(Ascii("import ") <= key + b));
    TrimSpelled(line, a, key, b, c, value, d);
    BlanksOf(line, a, key, b, c, value, d);
    CoreParts(key, b, c, value);
    CoreBegins(key, b, c, value);
    SelectedIs(filter, key);
    AllowedIs(key);
  }

  lemma {:induction false} BlanksOf(line: Str, a: Str, key: Str, b: Str, c: Str, value: Str, d: Str)
    requires Spelled(line, a, key, b, c, value, d)
    ensures Blanks(a) && Blanks(b) && Blanks(c) && Blanks(d)
  {
  }

  lemma {:induction false} EntryIsSet(line: Str, filter: Str, utf8: Str -> bool, key: Str, value: Str)
    requires Classify(line, false, filter, utf8) == Entry(key, value)
    ensures Sets(line, filter, key, value) && Wanted(filter, key) && Allowed(key)
  {
    hide Blanks, IndexOf, Trim, TrimEnd, Wanted, Allowed, Disallowed, Selected, Spelled, Ascii;
    var a, d := TrimSplit(line);
    var core := Trim(line);
    var i := IndexOf(core, 0x3D).value;
    var b := TrimEndSplit(core[..i]);
    var c, d' := TrimSplit(core[i + 1..]);
    assert key[..1] == core[..1] && key[0] == core[0];
    assert 0x3D !in key by { assert core[..i] == key + b; }
    SpelledOut(line, a, core, d, i, key, b, c, value, d');
    assert key + b <= core;
    PrefixTrans(Ascii("import "), key + b, core);
    SelectedIs(filter, key);
    AllowedIs(key);
  }

  lemma {:induction false} PrefixTrans(a: Str, b: Str, c: Str)
    requires b <= c
    ensures a <= b ==> a <= c
  {
  }

  lemma {:induction false} SpelledOut(line: Str, a: Str, core: Str, d: Str, i: nat, key: Str, b: Str, c: Str, value: Str, d': Str)
    requires line == a + core + d && i < |core| && core[i] == 0x3D && core[..i] == key + b && core[i + 1..] == c + value + d'
    requires Blanks(a) && Blanks(b) && Blanks(c) && Blanks(d') && Blanks(d)
    ensures Spelled(line, a, key, b, c, value, d' + d)
  {
    hide Blanks;
    assert core == core[..i] + [0x3D] + core[i + 1..];
    assert line == a + key + b + [0x3D] + c + value + (d' + d);
    BlanksConcat(d', d);
  }

  /** A line is an assignment exactly if it was read whole, is UTF-8, and says so: for a key that is allowed and
      that the filter selects. */
  lemma {:induction false} EntryByText(line: Str, truncated: bool, filter: Str, utf8: Str -> bool, key: Str, value: Str)
    ensures Classify(line, truncated, filter, utf8) == Entry(key, value)
       <==> !truncated && utf8(line) && Sets(line, filter, key, value) && Wanted(filter, key) && Allowed(key)
  {
    hide Sets, Wanted, Allowed;
    if Classify(line, truncated, filter, utf8) == Entry(key, value) {
      EntryIsSet(line, filter, utf8, key, value);
    }
    if !truncated && utf8(line) && Sets(line, filter, key, value) && Wanted(filter, key) && Allowed(key) {
      SetsIsEntry(line, filter, utf8, key, value);
    }
  }

  // ---------------------------------------------------------------- lines that import, and lines that say nothing

  lemma {:induction false} ImportsIsImport(line: Str, utf8: Str -> bool, path: Str)
    requires Imports(line, path) && utf8(line)
    ensures Classify(line, false, [], utf8) == Import(path)
  {
    hide Blanks, IndexOf, Trim, TrimEnd, Ascii;
    var word := Ascii("import ");
    var a, b, c :| Blanks(a) && Blanks(b) && Blanks(c) && line == a + word + b + path + c;
    var core := word + b + path;
    ImportLetters();
    assert core[..1] == word[..1] == [0x69] && core[|core| - 1..] == path[|path| - 1..];
    LetterIsNoBlank();
    assert line == a + core + c;
    TrimOf(a, core, c);
    assert core[|word|..] == b + path + [];
    NoBlanks();
    TrimOf(b, path, []);
  }

  lemma {:induction false} LetterIsNoBlank()
    ensures !Blanks([0x69])
  {
    assert 0x69 in [0x69];
  }

  lemma {:induction false} ImportIsImports(line: Str, filter: Str, utf8: Str -> bool, path: Str)
    requires Classify(line, false, filter, utf8) == Import(path)
    ensures Imports(line, path) && filter == []
  {
    hide Blanks, IndexOf, Trim, TrimEnd, Ascii;
    var word := Ascii("import ");
    var a, d := TrimSplit(line);
    var core := Trim(line);
    var b, d' := TrimSplit(core[|word|..]);
    assert core == word + core[|word|..];
    BlanksConcat(d', d);
    assert line == a + word + b + path + (d' + d);
    BareAfterBlank(core, core[|word|..]);
    assert core[|word|..] == b + (path + d');
    BlanksConcat(b, path + d');
    BlanksConcat(path, d');
    NoBlanks();
  }

  /** What ends bare and begins with `import ` goes on. */
  lemma {:induction false} BareAfterBlank(core: Str, rest: Str)
    requires core == Ascii("import ") + rest
    ensures Bare(core) ==> !Blanks(rest)
  {
    hide Blanks, Ascii;
    ImportLetters();
    OneBlank(core[|core| - 1..]);
    if rest == [] {
      assert core[|core| - 1] == 0x20;
    } else {
      assert core[|core| - 1..] == rest[|rest| - 1..] && rest == rest[..|rest| - 1] + rest[|rest| - 1..];
      BlanksConcat(rest[..|rest| - 1], rest[|rest| - 1..]);
    }
  }

  /** A line is an import exactly if imports are followed, it was read whole, is UTF-8, and says so. */
  lemma {:induction false} ImportByText(line: Str, truncated: bool, filter: Str, utf8: Str -> bool, path: Str)
    ensures Classify(line, truncated, filter, utf8) == Import(path) <==> !truncated && utf8(line) && filter == [] && Imports(line, path)
  {
    hide Imports;
    if Classify(line, truncated, filter, utf8) == Import(path) {
      ImportIsImports(line, filter, utf8, path);
    }
    if !truncated && utf8(line) && filter == [] && Imports(line, path) {
      ImportsIsImport(line, utf8, path);
    }
  }

  /** Blank lines, comments, and lines without `=` that do not begin with `import ` say nothing. */
  lemma {:induction false} NothingByText(line: Str, truncated: bool, filter: Str, utf8: Str -> bool)
    requires Blanks(line) || (exists a: Str, text: Str :: Blanks(a) && line == a + [0x23] + text)
             || (0x3D !in line && !exists path :: Imports(line, path))
    ensures Classify(line, truncated, filter, utf8) == Skipped
  {
    hide Blanks, Sets, Wanted, Allowed, Imports;
    var said := Classify(line, truncated, filter, utf8);
    match said
    case Skipped =>
    case Entry(key, value) =>
      EntryByText(line, truncated, filter, utf8, key, value);
      SetsSomething(line, filter, key, value);
      assert false;
    case Import(path) =>
      ImportByText(line, truncated, filter, utf8, path);
      ImportsSomething(line, path);
      assert false;
  }

  /** Where a line first is not blank. */
  lemma {:induction false} SameStart(a: Str, s: Str, b: Str, t: Str)
    requires a + s == b + t && Blanks(a) && Blanks(b) && s != [] && t != [] && !Blanks(s[..1]) && !Blanks(t[..1])
    ensures s == t
  {
    hide Blanks;
    TrimStartOf(a, s);
    TrimStartOf(b, t);
  }

  lemma {:induction false} SetsSomething(line: Str, filter: Str, key: Str, value: Str)
    requires Sets(line, filter, key, value)
    ensures !Blanks(line) && 0x3D in line && !exists a: Str, text: Str :: Blanks(a) && line == a + [0x23] + text
  {
    hide Blanks;
    var a, b, c, d :| Spelled(line, a, key, b, c, value, d);
    var core := key + b + [0x3D] + c + value + d;
    assert line == a + core && core[..1] == key[..1] && core[0] == key[0];
    assert line[|a + key + b|] == 0x3D;
    if Blanks(line) {
      BlanksHold(line, 0x3D);
    }
    forall a': Str, text: Str | Blanks(a') ensures line != a' + [0x23] + text {
      if line == a' + [0x23] + text {
        HashIsNoBlank();
        var remark: Str := [0x23] + text;
        assert remark[..1] == [0x23] && line == a' + remark;
        SameStart(a, core, a', remark);
      }
    }
  }

  lemma {:induction false} HashIsNoBlank()
    ensures !Blanks([0x23])
  {
    assert 0x23 in [0x23];
  }

  lemma {:induction false} ImportsSomething(line: Str, path: Str)
    requires Imports(line, path)
    ensures !Blanks(line) && !exists a: Str, text: Str :: Blanks(a) && line == a + [0x23] + text
  {
    hide Blanks, Ascii;
    var word := Ascii("import ");
    var a, b, c :| Blanks(a) && Blanks(b) && Blanks(c) && line == a + word + b + path + c;
    ImportLetters();
    LetterIsNoBlank();
    var core := word + b + path + c;
    assert line == a + core && core[..1] == [0x69];
    assert line[|a|] == 0x69;
    if Blanks(line) {
      BlanksHold(line, 0x69);
    }
    forall a': Str, text: Str | Blanks(a') ensures line != a' + [0x23] + text {
      if line == a' + [0x23] + text {
        HashIsNoBlank();
        var remark: Str := [0x23] + text;
        assert remark[..1] == [0x23] && line == a' + remark;
        SameStart(a, core, a', remark);
      }
    }
  }

  // ---------------------------------------------------------------- whole files

  /** What a line says. */
  datatype Said = Setting(key: Str, value: Str) | Importing(path: Str) | Nothing

  /** At most 65536 bytes, not counting a newline at the end. */
  predicate Short(line: Str)
  {
    |line| <= 65_536 || (|line| == 65_537 && line[65_536] == 0x0A)
  }

  ghost predicate SaysSet(line: Str, filter: Str, utf8: Str -> bool, key: Str, value: Str)
  {
    Short(line) && utf8(line) && Sets(line, filter, key, value) && Wanted(filter, key) && Allowed(key)
  }

  ghost predicate SaysImport(line: Str, filter: Str, utf8: Str -> bool, path: Str)
  {
    Short(line) && utf8(line) && filter == [] && Imports(line, path)
  }

  /** The line says just that; it says nothing if it neither sets nor imports anything. */
  ghost predicate Says(line: Str, filter: Str, utf8: Str -> bool, said: Said)
  {
    match said
    case Setting(key, value) => SaysSet(line, filter, utf8, key, value)
    case Importing(path) => SaysImport(line, filter, utf8, path)
    case Nothing =>
      (forall key, value :: !SaysSet(line, filter, utf8, key, value)) && forall path :: !SaysImport(line, filter, utf8, path)
  }

  function LineOf(said: Said): Line
  {
    match said
    case Setting(key, value) => Entry(key, value)
    case Importing(path) => Import(path)
    case Nothing => Skipped
  }

  lemma {:induction false} ShortIsRead(line: Str)
    requires IsLine(line)
    ensures !AsRead(line).truncated <==> Short(line)
    ensures Short(line) ==> AsRead(line).buf == line
  {
    if |line| > 65_537 {
      assert line[65_536] == line[..|line| - 1][65_536];
    }
  }

  /** A line of a file is taken for what it says. */
  lemma {:induction false} LineByText(line: Str, filter: Str, utf8: Str -> bool, said: Said)
    requires IsLine(line) && Says(line, filter, utf8, said)
    ensures Classify(AsRead(line).buf, AsRead(line).truncated, filter, utf8) == LineOf(said)
  {
    hide Sets, Imports, Wanted, Allowed, AsRead, Short, IsLine;
    ShortIsRead(line);
    var read := AsRead(line);
    match said
    case Setting(key, value) => EntryByText(line, read.truncated, filter, utf8, key, value);
    case Importing(path) => ImportByText(line, read.truncated, filter, utf8, path);
    case Nothing => SilentLine(line, filter, utf8);
  }

  lemma {:induction false} SilentLine(line: Str, filter: Str, utf8: Str -> bool)
    requires IsLine(line) && Says(line, filter, utf8, Nothing)
    ensures Classify(AsRead(line).buf, AsRead(line).truncated, filter, utf8) == Skipped
  {
    hide Sets, Imports, Wanted, Allowed, AsRead, Short, IsLine, Classify;
    ShortIsRead(line);
    var read := AsRead(line);
    var c := Classify(read.buf, read.truncated, filter, utf8);
    if read.truncated {
      CutIsSkipped(read.buf, filter, utf8);
    } else {
      assert c.Entry? ==> !SaysSet(line, filter, utf8, c.key, c.value);
      assert c.Import? ==> !SaysImport(line, filter, utf8, c.raw);
      if c.Entry? {
        EntryByText(line, false, filter, utf8, c.key, c.value);
      } else if c.Import? {
        ImportByText(line, false, filter, utf8, c.raw);
      }
    }
  }

  lemma {:induction false} CutIsSkipped(buf: Str, filter: Str, utf8: Str -> bool)
    ensures Classify(buf, true, filter, utf8) == Skipped
  {
  }

  /** Every line says just one thing. */
  lemma {:induction false} LineSays(line: Str, filter: Str, utf8: Str -> bool) returns (said: Said)
    requires IsLine(line)
    ensures forall other :: Says(line, filter, utf8, other) <==> other == said
  {
    hide Sets, Imports, Wanted, Allowed, AsRead, Short, IsLine, Classify;
    var read := AsRead(line);
    var c := Classify(read.buf, read.truncated, filter, utf8);
    said := match c case Entry(key, value) => Setting(key, value) case Import(path) => Importing(path) case Skipped => Nothing;
    forall key, value ensures SaysSet(line, filter, utf8, key, value) <==> c == Entry(key, value) {
      ShortIsRead(line);
      EntryByText(read.buf, read.truncated, filter, utf8, key, value);
    }
    forall path ensures SaysImport(line, filter, utf8, path) <==> c == Import(path) {
      ShortIsRead(line);
      ImportByText(read.buf, read.truncated, filter, utf8, path);
    }
  }

  /** The events of lines that say this: assignments in the order of the lines, and the events of an imported file,
      one level deeper and unfiltered, in the place of its import, whose path sees what was set before it. */
  function SaidTrace(env: Env, said: seq<Said>, depth: nat, stack: set<Str>, p: map<Str, Str>): seq<Event>
    decreases |said|
  {
    if said == [] then []
    else
      var tr :=
        match said[0]
        case Setting(key, value) => [Assign(key, value)]
        case Importing(raw) =>
          (match Expand(raw, p)
           case None => []
           case Some(path) => TraceFile(env, path, [], depth + 1, stack, p))
        case Nothing => [];
      tr + SaidTrace(env, said[1..], depth, stack, Apply(p, tr))
  }

  ghost predicate AllSay(lines: seq<Str>, filter: Str, utf8: Str -> bool, said: seq<Said>)
  {
    |lines| == |said| && forall i :: 0 <= i < |lines| ==> Says(lines[i], filter, utf8, said[i])
  }

  lemma {:induction false} FirstSays(lines: seq<Str>, filter: Str, utf8: Str -> bool, said: seq<Said>)
    requires AllSay(lines, filter, utf8, said) && lines != []
    ensures Says(lines[0], filter, utf8, said[0]) && AllSay(lines[1..], filter, utf8, said[1..])
  {
    hide Says;
  }

  lemma {:induction false} SplitFirst(lines: seq<Str>, data: Str, broken: bool, pos: nat)
    requires IsSplit(lines, data, broken, pos) && lines != []
    ensures IsLine(lines[0]) && pos + |lines[0]| <= |data| && data[pos..pos + |lines[0]|] == lines[0]
    ensures LineEnd(data, pos) == pos + |lines[0]| && Readable(File(data, broken), pos)
    ensures IsSplit(lines[1..], data, broken, pos + |lines[0]|)
  {
    var first, rest := lines[0], lines[1..];
    var end, next := pos + Total(lines), pos + |first|;
    assert Concat(lines) == first + Concat(rest);
    assert data[pos..end][..|first|] == data[pos..next];
    assert data[pos..end][|first|..] == data[next..end];
    forall i | 0 <= i < |rest| ensures IsLine(rest[i]) {
      assert rest[i] == lines[i + 1];
    }
    assert next + Total(rest) == end;
    FirstEnds(lines, data, broken, pos);
  }

  lemma {:induction false} FirstEnds(lines: seq<Str>, data: Str, broken: bool, pos: nat)
    requires IsSplit(lines, data, broken, pos) && lines != [] && pos + |lines[0]| <= |data|
    requires data[pos..pos + |lines[0]|] == lines[0]
    ensures LineEnd(data, pos) == pos + |lines[0]| && (broken ==> Terminated(data, pos))
  {
    hide LineEnd, Concat;
    var first := lines[0];
    var next := pos + |first|;
    assert IsLine(first);
    assert data[pos..next - 1] == first[..|first| - 1];
    assert data[next - 1] == first[|first| - 1];
    LineEndAt(data, pos, next - 1);
    if data[next - 1] != NEWLINE {
      assert |lines| == 1 && !broken && lines[1..] == [];
      assert Total(lines) == |first| + Total(lines[1..]);
      EndOfData(data);
      assert data[pos..next] == first && NEWLINE !in first by {
        assert first == first[..|first| - 1] + [first[|first| - 1]];
      }
      LineEndAt(data, pos, next);
    }
  }

  lemma {:induction false} EndOfData(data: Str)
    ensures LineEnd(data, |data|) == |data|
  {
  }

  lemma {:induction false} SplitNothing(data: Str, broken: bool, pos: nat)
    requires IsSplit([], data, broken, pos)
    ensures pos <= |data| && !Readable(File(data, broken), pos)
  {
    if pos < |data| {
      var e := LineEnd(data, pos);
      assert data[pos..e][|data[pos..e]| - 1] == data[pos..][e - 1 - pos];
    }
  }

  /** The trace of a file's lines is what they say, line after line, for every file. */
  lemma {:induction false} LinesByText(env: Env, data: Str, broken: bool, pos: nat, filter: Str, depth: nat, stack: set<Str>,
                                       p: map<Str, Str>, lines: seq<Str>, said: seq<Said>)
    requires depth <= 8 && IsSplit(lines, data, broken, pos) && AllSay(lines, filter, env.utf8, said)
    ensures pos <= |data| && TraceLines(env, File(data, broken), pos, filter, depth, stack, p) == SaidTrace(env, said, depth, stack, p)
    decreases |lines|
  {
    hide IsSplit, AllSay, Says, LineEnd, IsLine, Classify, AsRead, TraceFile, TraceLines, Apply, Expand, Terminated, Readable;
    if lines == [] {
      assert said == [] by { SameCount(lines, filter, env.utf8, said); }
      SplitNothing(data, broken, pos);
      TraceLinesEnd(env, File(data, broken), pos, filter, depth, stack, p);
    } else {
      SameCount(lines, filter, env.utf8, said);
      SplitFirst(lines, data, broken, pos);
      FirstSays(lines, filter, env.utf8, said);
      NotPast(data, broken, pos);
      LineByText(lines[0], filter, env.utf8, said[0]);
      TraceLinesStep(env, File(data, broken), pos, filter, depth, stack, p);
      var tr := TraceLine(env, LineOf(said[0]), depth, stack, p);
      LinesByText(env, data, broken, pos + |lines[0]|, filter, depth, stack, Apply(p, tr), lines[1..], said[1..]);
    }
  }

  lemma {:induction false} NotPast(data: Str, broken: bool, pos: nat)
    requires pos <= |data| && Readable(File(data, broken), pos)
    ensures pos < |data|
  {
  }

  lemma {:induction false} SameCount(lines: seq<Str>, filter: Str, utf8: Str -> bool, said: seq<Said>)
    requires AllSay(lines, filter, utf8, said)
    ensures |lines| == |said|
  {
  }

  /** Loading a file, nested at most eight deep and not being loaded already: one load, then what its lines say. */
  lemma {:induction false} FileByText(env: Env, filename: Str, filter: Str, depth: nat, stack: set<Str>, p: map<Str, Str>,
                                      lines: seq<Str>, said: seq<Said>)
    requires depth <= 8 && Canonical(env, filename) !in stack && Canonical(env, filename) in env.files
    requires var file := env.files[Canonical(env, filename)];
             IsSplit(lines, file.data, file.broken, 0) && AllSay(lines, filter, env.utf8, said)
    ensures TraceFile(env, filename, filter, depth, stack, p)
         == [Load(filename)] + SaidTrace(env, said, depth, stack + {Canonical(env, filename)}, p)
  {
    hide IsSplit, AllSay, TraceLines, SaidTrace;
    var path := Canonical(env, filename);
    var file := env.files[path];
    LinesByText(env, file.data, file.broken, 0, filter, depth, stack + {path}, p, lines, said);
    assert file == File(file.data, file.broken);
  }

  /** Nothing is loaded more than eight deep, and a file that is being loaded, or is not there, only counts. */
  lemma {:induction false} NoFile(env: Env, filename: Str, filter: Str, depth: nat, stack: set<Str>, p: map<Str, Str>)
    ensures depth > 8 ==> TraceFile(env, filename, filter, depth, stack, p) == [] && Ending(env, filename, depth, stack) == Err(TooDeep)
    ensures depth <= 8 && (Canonical(env, filename) in stack || Canonical(env, filename) !in env.files) ==>
              TraceFile(env, filename, filter, depth, stack, p) == [Load(filename)]
    ensures depth <= 8 && Canonical(env, filename) in stack ==> Ending(env, filename, depth, stack) == Ok(())
    ensures depth <= 8 && Canonical(env, filename) !in stack && Canonical(env, filename) !in env.files ==>
              Ending(env, filename, depth, stack) == Err(Unreadable)
    ensures depth <= 8 && Canonical(env, filename) !in stack && Canonical(env, filename) in env.files ==>
              (Ending(env, filename, depth, stack)
               == if env.files[Canonical(env, filename)].broken then Err(Unreadable) else Ok(()))
  {
  }

  /** The last line of these that sets the key. */
  function LastSet(said: seq<Said>, key: Str): Option<Str>
  {
    if said == [] then None
    else
      match LastSet(said[1..], key)
      case Some(value) => Some(value)
      case None => if said[0].Setting? && said[0].key == key then Some(said[0].value) else None
  }

  /** Without imports, a file leaves every key with the value of the last line that sets it. */
  lemma {:induction false} SettingsLeave(env: Env, said: seq<Said>, depth: nat, stack: set<Str>, p: map<Str, Str>, key: Str)
    requires forall i :: 0 <= i < |said| ==> !said[i].Importing?
    ensures var p', last := Apply(p, SaidTrace(env, said, depth, stack, p)), LastSet(said, key);
            if last.Some? then key in p' && p'[key] == last.value
            else (key in p' <==> key in p) && (key in p ==> p'[key] == p[key])
    decreases |said|
  {
    hide TraceFile, Expand, Apply;
    if said == [] {
      ApplyNothing(p);
    } else {
      var tr := if said[0].Setting? then [Assign(said[0].key, said[0].value)] else [];
      ApplyConcat(p, tr, SaidTrace(env, said[1..], depth, stack, Apply(p, tr)));
      ApplyOne(p, said[0]);
      SettingsLeave(env, said[1..], depth, stack, Apply(p, tr), key);
    }
  }

  lemma {:induction false} ApplyNothing(p: map<Str, Str>)
    ensures Apply(p, []) == p
  {
  }

  lemma {:induction false} ApplyOne(p: map<Str, Str>, said: Said)
    ensures Apply(p, if said.Setting? then [Assign(said.key, said.value)] else [])
         == if said.Setting? then p[said.key := said.value] else p
  {
    if said.Setting? {
      assert [Assign(said.key, said.value)][1..] == [];
    }
  }
}
