/** The orders the repository sorts and searches by, and the sorted view of a set of names. */
module Order {
  import opened Base

  datatype Ordering = Less | Equal | Greater

  /** Byte-wise lexicographic comparison (Rust's `str::cmp`). */
  function Compare(a: Str, b: Str): Ordering
  {
    if a == [] then (if b == [] then Equal else Less)
    else if b == [] then Greater
    else if a[0] < b[0] then Less
    else if a[0] > b[0] then Greater
    else Compare(a[1..], b[1..])
  }

  function CompareNat(a: nat, b: nat): Ordering
  {
    if a < b then Less else if a > b then Greater else Equal
  }

  /** `cmp_prop_name`: shorter names first, equal lengths by bytes. */
  function CompareName(a: Str, b: Str): Ordering
  {
    match CompareNat(|a|, |b|)
    case Equal => Compare(a, b)
    case o => o
  }

  function Flip(o: Ordering): Ordering
  {
    match o
    case Less => Greater
    case Equal => Equal
    case Greater => Less
  }

  lemma {:induction false} CompareTotal(a: Str, b: Str)
    ensures Compare(a, b) == Equal <==> a == b
    ensures Compare(b, a) == Flip(Compare(a, b))
    decreases |a|
  {
    if a != [] && b != [] && a[0] == b[0] {
      CompareTotal(a[1..], b[1..]);
      assert a == [a[0]] + a[1..] && b == [b[0]] + b[1..];
    }
  }

  lemma {:induction false} CompareTransitive(a: Str, b: Str, c: Str)
    requires Compare(a, b) == Less && Compare(b, c) == Less
    ensures Compare(a, c) == Less
    decreases |a|
  {
    if a != [] && b != [] && c != [] && a[0] == b[0] == c[0] {
      CompareTransitive(a[1..], b[1..], c[1..]);
    }
  }

  /** `cmp_prop_name` is a strict total order. */
  lemma {:induction false} CompareNameTotalOrder(a: Str, b: Str, c: Str)
    ensures CompareName(a, b) == Equal <==> a == b
    ensures CompareName(b, a) == Flip(CompareName(a, b))
    ensures CompareName(a, b) == Less && CompareName(b, c) == Less ==> CompareName(a, c) == Less
  {
    CompareTotal(a, b);
    if CompareName(a, b) == Less && CompareName(b, c) == Less && |a| == |b| == |c| {
      CompareTransitive(a, b, c);
    }
  }

  /** The first byte in which two strings differ decides, and of a string and one that continues it the
      shorter comes first. */
  lemma {:induction false} FirstDifference(a: Str, b: Str, k: nat)
    requires k <= |a| && k <= |b| && a[..k] == b[..k]
    ensures k < |a| && k < |b| && a[k] < b[k] ==> Compare(a, b) == Less
    ensures k < |a| && k < |b| && a[k] > b[k] ==> Compare(a, b) == Greater
    ensures k == |a| && k < |b| ==> Compare(a, b) == Less
    ensures k < |a| && k == |b| ==> Compare(a, b) == Greater
    decreases k
  {
    if k > 0 {
      assert a[0] == a[..k][0] == b[..k][0] == b[0];
      assert a[1..][..k - 1] == a[..k][1..] && b[1..][..k - 1] == b[..k][1..];
      FirstDifference(a[1..], b[1..], k - 1);
    }
  }

  /** `cmp_prop_name` in full: the shorter name comes first, and of two of one length the one with the smaller
      byte where they first differ. */
  lemma {:induction false} CompareNameDecides(a: Str, b: Str, k: nat)
    ensures |a| < |b| ==> CompareName(a, b) == Less && CompareName(b, a) == Greater
    ensures k < |a| == |b| && a[..k] == b[..k] && a[k] < b[k] ==> CompareName(a, b) == Less && CompareName(b, a) == Greater
  {
    if k < |a| == |b| && a[..k] == b[..k] {
      FirstDifference(a, b, k);
      FirstDifference(b, a, k);
    }
  }

  // ---------------------------------------------------------------- sorted name lists

  /** The two serialization orders: alphabetical, and longest first with an alphabetical tie-break. */
  datatype SortKind = Alphabetical | LongestFirst

  predicate Before(k: SortKind, a: Str, b: Str)
  {
    match k
    case Alphabetical => Compare(a, b) == Less
    case LongestFirst => |a| > |b| || (|a| == |b| && Compare(a, b) == Less)
  }

  lemma {:induction false} BeforeIsStrictOrder(k: SortKind, a: Str, b: Str, c: Str)
    ensures !Before(k, a, a)
    ensures a != b ==> Before(k, a, b) || Before(k, b, a)
    ensures Before(k, a, b) && Before(k, b, c) ==> Before(k, a, c)
  {
    CompareTotal(a, b);
    CompareTotal(a, a);
    if Compare(a, b) == Less && Compare(b, c) == Less {
      CompareTransitive(a, b, c);
    }
  }

  predicate StrictlySorted(k: SortKind, s: seq<Str>)
  {
    forall i, j :: 0 <= i < j < |s| ==> Before(k, s[i], s[j])
  }

  function Elements<T>(s: seq<T>): set<T>
  {
    set x | x in s
  }

  /** Sorted insertion of a new element. */
  function Insert(k: SortKind, x: Str, s: seq<Str>): (r: seq<Str>)
    requires StrictlySorted(k, s) && x !in s
    ensures StrictlySorted(k, r) && Elements(r) == Elements(s) + {x}
  {
    if s == [] then
      assert Elements([x]) == {x};
      [x]
    else if Before(k, x, s[0]) then
      assert forall j :: 0 < j < |s| ==> Before(k, x, s[j]) by {
        forall j | 0 < j < |s| ensures Before(k, x, s[j]) { BeforeIsStrictOrder(k, x, s[0], s[j]); }
      }
      [x] + s
    else
      var rest := Insert(k, x, s[1..]);
      assert forall y :: y in rest ==> Before(k, s[0], y) by {
        forall y | y in rest ensures Before(k, s[0], y) {
          assert y in Elements(rest);
          if y == x { BeforeIsStrictOrder(k, x, s[0], s[0]); } else { assert y in s[1..]; }
        }
      }
      assert Elements([s[0]] + rest) == {s[0]} + Elements(rest);
      assert Elements(s) == {s[0]} + Elements(s[1..]);
      [s[0]] + rest
  }

  lemma {:induction false} SortedHead(k: SortKind, s: seq<Str>, x: Str)
    requires StrictlySorted(k, s) && x in s
    ensures s[0] == x || Before(k, s[0], x)
  {
    var i :| 0 <= i < |s| && s[i] == x;
  }

  /** A set has at most one strictly sorted listing. */
  lemma {:induction false} SortedUnique(k: SortKind, s: seq<Str>, t: seq<Str>)
    requires StrictlySorted(k, s) && StrictlySorted(k, t) && Elements(s) == Elements(t)
    ensures s == t
    decreases |s|
  {
    assert forall x :: x in s <==> x in Elements(s);
    assert forall x :: x in t <==> x in Elements(t);
    assert t == [] || t[0] in s;
    if s != [] {
      assert s[0] in t;
      assert t[0] in s;
      SortedHead(k, s, t[0]);
      SortedHead(k, t, s[0]);
      BeforeIsStrictOrder(k, s[0], t[0], s[0]);
      BeforeIsStrictOrder(k, s[0], s[0], s[0]);
      assert Elements(s[1..]) == Elements(s) - {s[0]};
      assert Elements(t[1..]) == Elements(t) - {t[0]};
      SortedUnique(k, s[1..], t[1..]);
      assert s == [s[0]] + s[1..] && t == [t[0]] + t[1..];
    }
  }

  lemma {:induction false} SortedExists(k: SortKind, names: set<Str>)
    ensures exists s :: StrictlySorted(k, s) && Elements(s) == names
  {
    if names == {} {
      var none: seq<Str> := [];
      assert StrictlySorted(k, none) && Elements(none) == names;
    } else {
      var x :| x in names;
      SortedExists(k, names - {x});
      var s :| StrictlySorted(k, s) && Elements(s) == names - {x};
      assert x !in s;
      assert Elements(Insert(k, x, s)) == names;
    }
  }

  /** The strictly sorted listing of a set of names. */
  ghost function Sorted(k: SortKind, names: set<Str>): (s: seq<Str>)
    ensures StrictlySorted(k, s) && Elements(s) == names
    ensures forall x :: x in s <==> x in names
  {
    SortedExists(k, names);
    var s :| StrictlySorted(k, s) && Elements(s) == names;
    assert forall x :: x in s <==> x in Elements(s);
    s
  }

  /** Collecting a hash set in whatever order it comes and sorting gives the one sorted listing. */
  method SortNames(k: SortKind, names: set<Str>) returns (s: seq<Str>)
    ensures s == Sorted(k, names)
  {
    s := [];
    var left := names;
    while left != {}
      invariant left <= names
      invariant StrictlySorted(k, s) && Elements(s) == names - left
      decreases left
    {
      var x :| x in left;
      assert x !in Elements(s);
      s := Insert(k, x, s);
      left := left - {x};
    }
    SortedUnique(k, s, Sorted(k, names));
  }

  // ---------------------------------------------------------------- binary search

  /** `f` never steps back down: all `Less` come first, all `Greater` last. */
  ghost predicate Monotone(len: nat, f: nat -> Ordering)
  {
    forall i, j :: 0 <= i < j < len ==> (f(j) == Less ==> f(i) == Less) && (f(i) == Greater ==> f(j) == Greater)
                                        && (f(i) == Equal ==> f(j) == Greater) && (f(j) == Equal ==> f(i) == Less)
  }

  /** The lo/hi search of the image reader.  A hit is a hit on any input; a miss is a miss only
      when the probes are monotone, which is why the reader distrusts unsorted tables. */
  method Find(len: nat, f: nat -> Ordering) returns (r: Option<nat>)
    ensures r.Some? ==> r.value < len && f(r.value) == Equal
    ensures r.None? && Monotone(len, f) ==> forall i :: 0 <= i < len ==> f(i) != Equal
  {
    var lo, hi := 0, len;
    while lo < hi
      invariant 0 <= lo <= hi <= len
      invariant Monotone(len, f) ==> forall i :: 0 <= i < lo ==> f(i) == Less
      invariant Monotone(len, f) ==> forall i :: hi <= i < len ==> f(i) == Greater
    {
      var mid := lo + (hi - lo) / 2;
      match f(mid) {
        case Equal => return Some(mid);
        case Less => lo := mid + 1;
        case Greater => hi := mid;
      }
    }
    return None;
  }

  /** Probing a strictly sorted list against one key is monotone. */
  lemma {:induction false} SortedProbesMonotone(s: seq<Str>, key: Str, f: nat -> Ordering)
    requires StrictlySorted(Alphabetical, s)
    requires forall i :: 0 <= i < |s| ==> f(i) == Compare(s[i], key)
    ensures Monotone(|s|, f)
  {
    forall i, j | 0 <= i < j < |s|
      ensures (f(j) == Less ==> f(i) == Less) && (f(i) == Greater ==> f(j) == Greater)
              && (f(i) == Equal ==> f(j) == Greater) && (f(j) == Equal ==> f(i) == Less)
    {
      CompareTotal(s[i], s[j]);
      CompareTotal(s[i], key);
      CompareTotal(s[j], key);
      if Compare(s[j], key) == Less { CompareTransitive(s[i], s[j], key); }
      if Compare(key, s[i]) == Less { CompareTransitive(key, s[i], s[j]); }
    }
  }
}
