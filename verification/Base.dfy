/** Bytes, 32-bit words and C strings: the vocabulary every other module shares.

    Memory is a sequence of bytes.  Words are laid out in little-endian order, which is the
    host order on every target the repository supports. */
module Base {

  type byte = b: int | 0 <= b < 0x100

  /** Rust's `str`, seen as its bytes. */
  type Str = seq<byte>

  const U32_MAX: nat := 0xFFFF_FFFF

  const DOT: byte := 0x2E

  datatype Option<+T> = None | Some(value: T)

  /** Rust's `Result`. */
  datatype Outcome<+T, +E> = Ok(value: T) | Err(error: E) {
    predicate IsFailure() { Err? }
    function PropagateFailure<U>(): Outcome<U, E>
      requires Err?
    {
      Err(error)
    }
    function Extract(): T
      requires Ok?
    {
      value
    }
  }

  function Min(a: nat, b: nat): nat
  {
    if a <= b then a else b
  }

  /** The bytes of an ASCII string. */
  function Ascii(s: string): (b: Str)
    ensures |b| == |s|
  {
    seq(|s|, i requires 0 <= i < |s| => s[i] as int % 0x100)
  }

  /** `n` is a multiple of four, by counting down: division stays out of the layout proofs. */
  predicate Aligned(n: nat)
  {
    n == 0 || (n >= 4 && Aligned(n - 4))
  }

  lemma {:induction false} AlignedIsMod(n: nat)
    ensures Aligned(n) <==> n % 4 == 0
  {
    if n >= 4 {
      AlignedIsMod(n - 4);
    }
  }

  lemma {:induction false} AlignedSum(a: nat, b: nat)
    requires Aligned(a)
    ensures Aligned(a + b) <==> Aligned(b)
  {
    if a > 0 {
      AlignedSum(a - 4, b);
    }
  }

  lemma {:induction false} AlignedTimes4(n: nat)
    ensures Aligned(4 * n)
  {
    if n > 0 {
      AlignedTimes4(n - 1);
    }
  }

  /** Rounds `n` up to a multiple of four (`bionic_align` with alignment 4). */
  function Align4(n: nat): (r: nat)
    ensures Aligned(r) && n <= r < n + 4
  {
    if n == 0 then 0 else 4 + Align4(if n < 4 then 0 else n - 4)
  }

  /** The closed form the code computes, `(n + 3) & !3`. */
  lemma {:induction false} Align4ClosedForm(n: nat)
    ensures Align4(n) == (n + 3) / 4 * 4
  {
    if n >= 4 {
      Align4ClosedForm(n - 4);
    }
  }

  function Zeros(n: nat): (z: Str)
    ensures |z| == n && forall i :: 0 <= i < n ==> z[i] == 0
  {
    seq(n, _ => 0)
  }

  // ---------------------------------------------------------------- words

  /** Byte `j` of the 32-bit truncation of `w`: the `as u32` cast is part of the encoding. */
  function ByteOf(w: int, j: nat): byte
    requires j < 4
  {
    match j
    case 0 => w % 0x100
    case 1 => w / 0x100 % 0x100
    case 2 => w / 0x1_0000 % 0x100
    case _ => w / 0x100_0000 % 0x100
  }

  function WordsBytes(ws: seq<int>): (b: Str)
    ensures |b| == 4 * |ws|
  {
    if ws == [] then []
    else
      var w := ws[|ws| - 1];
      WordsBytes(ws[..|ws| - 1]) + [ByteOf(w, 0), ByteOf(w, 1), ByteOf(w, 2), ByteOf(w, 3)]
  }

  function Word(m: Str, off: nat): (w: nat)
    requires off + 4 <= |m|
    ensures w <= U32_MAX
  {
    var b0: int, b1: int, b2: int, b3: int := m[off], m[off + 1], m[off + 2], m[off + 3];
    b0 + 0x100 * b1 + 0x1_0000 * b2 + 0x100_0000 * b3
  }

  /** The four bytes of a word that fits in 32 bits add up to the word again. */
  lemma {:induction false} BytesSumToWord(w: nat)
    requires w <= U32_MAX
    ensures ByteOf(w, 0) + 0x100 * ByteOf(w, 1) + 0x1_0000 * ByteOf(w, 2) + 0x100_0000 * ByteOf(w, 3) == w
  {
    assert w / 0x100 / 0x100 == w / 0x1_0000;
    assert w / 0x1_0000 / 0x100 == w / 0x100_0000;
  }

  lemma {:induction false} WordOfWords(ws: seq<int>, i: nat)
    requires i < |ws| && 0 <= ws[i] <= U32_MAX
    ensures Word(WordsBytes(ws), 4 * i) == ws[i]
  {
    if i < |ws| - 1 {
      WordOfWords(ws[..|ws| - 1], i);
    } else {
      BytesSumToWord(ws[i]);
    }
  }

  /** Overwrites `part` at `off`. */
  function Poke(m: Str, off: nat, part: Str): (r: Str)
    requires off + |part| <= |m|
    ensures |r| == |m|
    ensures forall i :: 0 <= i < |m| ==> r[i] == if off <= i < off + |part| then part[i - off] else m[i]
  {
    m[..off] + part + m[off + |part|..]
  }

  // ---------------------------------------------------------------- sub-ranges

  /** `part` occupies `m` from `off` on. */
  predicate Sub(m: Str, off: nat, part: Str)
  {
    off + |part| <= |m| && m[off..off + |part|] == part
  }

  lemma {:induction false} SubBounds(m: Str, off: nat, part: Str)
    requires Sub(m, off, part)
    ensures off + |part| <= |m|
  {
  }

  lemma {:induction false} SubSplit(m: Str, off: nat, a: Str, b: Str)
    requires Sub(m, off, a + b)
    ensures Sub(m, off, a) && Sub(m, off + |a|, b)
  {
    var whole := m[off..off + |a + b|];
    assert m[off..off + |a|] == whole[..|a|] == a;
    assert m[off + |a|..off + |a| + |b|] == whole[|a|..] == b;
  }

  lemma {:induction false} SubWord(m: Str, off: nat, part: Str, k: nat)
    requires Sub(m, off, part) && k + 4 <= |part|
    ensures Word(m, off + k) == Word(part, k)
  {
    var whole := m[off..off + |part|];
    assert whole[k] == m[off + k] && whole[k + 1] == m[off + k + 1];
    assert whole[k + 2] == m[off + k + 2] && whole[k + 3] == m[off + k + 3];
  }

  lemma {:induction false} SubWords(m: Str, off: nat, ws: seq<int>, i: nat)
    requires Sub(m, off, WordsBytes(ws))
    requires i < |ws| && 0 <= ws[i] <= U32_MAX
    ensures off + 4 * i + 4 <= |m| && Word(m, off + 4 * i) == ws[i]
  {
    SubWord(m, off, WordsBytes(ws), 4 * i);
    WordOfWords(ws, i);
  }

  // ---------------------------------------------------------------- stores

  /** The bytes of one word. */
  function WordBytes(w: int): (b: Str)
    ensures |b| == 4
  {
    WordsBytes([w])
  }

  lemma {:induction false} SubOfWord(m: Str, off: nat, w: nat)
    requires w <= U32_MAX && Sub(m, off, WordBytes(w))
    ensures Word(m, off) == w
  {
    SubWords(m, off, [w], 0);
  }

  /** `m` and `m'` differ at most on `[lo, hi)`. */
  predicate Agree(m: Str, m': Str, lo: int, hi: int)
  {
    |m| == |m'| && forall i :: 0 <= i < |m| && !(lo <= i < hi) ==> m[i] == m'[i]
  }

  lemma {:induction false} AgreeTrans(a: Str, b: Str, c: Str, lo: int, hi: int)
    requires Agree(a, b, lo, hi) && Agree(b, c, lo, hi)
    ensures Agree(a, c, lo, hi)
  {
  }

  lemma {:induction false} AgreeWiden(a: Str, b: Str, lo: int, hi: int, lo': int, hi': int)
    requires Agree(a, b, lo, hi) && lo' <= lo && hi <= hi'
    ensures Agree(a, b, lo', hi')
  {
  }

  lemma {:induction false} SubAgrees(m: Str, m': Str, lo: int, hi: int, off: nat, part: Str)
    requires Agree(m, m', lo, hi) && Sub(m, off, part) && (off + |part| <= lo || hi <= off)
    ensures Sub(m', off, part)
  {
    var was, now := m[off..off + |part|], m'[off..off + |part|];
    assert forall i :: 0 <= i < |part| ==> was[i] == now[i];
  }

  lemma {:induction false} WordAgrees(m: Str, m': Str, lo: int, hi: int, off: nat)
    requires Agree(m, m', lo, hi) && off + 4 <= |m| && (off + 4 <= lo || hi <= off)
    ensures Word(m', off) == Word(m, off)
  {
  }

  // ---------------------------------------------------------------- C strings

  /** Position of the first NUL at or after `off`. */
  function NulAt(m: Str, off: nat): (p: Option<nat>)
    requires off <= |m|
    ensures p.Some? ==> off <= p.value < |m| && m[p.value] == 0 && 0 !in m[off..p.value]
    ensures p.None? ==> 0 !in m[off..]
    decreases |m| - off
  {
    if off == |m| then None
    else if m[off] == 0 then Some(off)
    else
      var p := NulAt(m, off + 1);
      assert p.Some? ==> m[off..p.value] == [m[off]] + m[off + 1..p.value];
      assert m[off..] == [m[off]] + m[off + 1..];
      p
  }

  /** The NUL-terminated string at `off`; `None` when `off` is out of bounds or no NUL follows. */
  function CStr(m: Str, off: nat): (s: Option<Str>)
    ensures s.Some? ==> 0 !in s.value && Sub(m, off, s.value + [0])
  {
    if off > |m| then None
    else
      match NulAt(m, off)
      case None => None
      case Some(p) =>
        assert m[off..p + 1] == m[off..p] + [0];
        Some(m[off..p])
  }

  lemma {:induction false} NulAtUnique(m: Str, off: nat, p: nat)
    requires off <= p < |m| && m[p] == 0 && forall i :: off <= i < p ==> m[i] != 0
    ensures NulAt(m, off) == Some(p)
    decreases p - off
  {
    if off < p {
      NulAtUnique(m, off + 1, p);
    }
  }

  /** A NUL-free string followed by a NUL reads back whole. */
  lemma {:induction false} CStrOf(m: Str, off: nat, s: Str)
    requires 0 !in s && Sub(m, off, s + [0])
    ensures CStr(m, off) == Some(s)
  {
    SubSplit(m, off, s, [0]);
    var q := off + |s|;
    assert m[q] == m[q..q + 1][0] == 0;
    forall i | off <= i < q ensures m[i] != 0 {
      assert m[i] == s[i - off];
    }
    NulAtUnique(m, off, q);
  }

  /** The bytes from `off` up to the first NUL, at most `limit` of them. */
  function UpToNul(m: Str, off: nat, limit: nat): (s: Str)
    requires off + limit <= |m|
    ensures |s| <= limit
    decreases limit
  {
    if limit == 0 || m[off] == 0 then [] else [m[off]] + UpToNul(m, off + 1, limit - 1)
  }

  lemma {:induction false} UpToNulReads(m: Str, off: nat, limit: nat, s: Str)
    requires off + limit <= |m| && |s| < limit && 0 !in s && Sub(m, off, s + [0])
    ensures UpToNul(m, off, limit) == s
    decreases limit
  {
    var there := m[off..off + |s| + 1];
    assert there == s + [0] && m[off] == there[0];
    if s != [] {
      assert m[off + 1..off + 1 + |s[1..]| + 1] == there[1..] == s[1..] + [0];
      UpToNulReads(m, off + 1, limit - 1, s[1..]);
    }
  }

  // ---------------------------------------------------------------- dotted names

  /** Position of the first `c` in `s`. */
  function IndexOf(s: Str, c: byte): (p: Option<nat>)
    ensures p.Some? ==> p.value < |s| && s[p.value] == c && c !in s[..p.value]
    ensures p.None? ==> c !in s
  {
    if s == [] then None
    else if s[0] == c then Some(0)
    else
      var p := IndexOf(s[1..], c);
      assert p.Some? ==> s[..p.value + 1] == [s[0]] + s[1..][..p.value];
      match p
      case None => None
      case Some(i) => Some(i + 1)
  }

  /** `IndexOf` finds the position that its contract describes, and only that one. */
  lemma {:induction false} IndexOfUnique(s: Str, c: byte, p: nat)
    requires p < |s| && s[p] == c && c !in s[..p]
    ensures IndexOf(s, c) == Some(p)
    decreases p
  {
    if p > 0 {
      assert s[0] == s[..p][0] != c;
      assert forall x :: x in s[1..][..p - 1] ==> x in s[..p];
      IndexOfUnique(s[1..], c, p - 1);
    }
  }

  /** `name.split('.')`. */
  function Segments(name: Str): (parts: seq<Str>)
    ensures |parts| > 0
    decreases |name|
  {
    match IndexOf(name, DOT)
    case None => [name]
    case Some(i) => [name[..i]] + Segments(name[i + 1..])
  }
}
