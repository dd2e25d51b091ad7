/** The growing bump arena the serializer writes through (trie_node_arena.rs). */
module TrieNodeArena {
  import opened Base
  import opened ImageFormat
  import opened TrieBuilder

  function ZeroWords(n: nat): (ws: seq<int>)
    ensures |ws| == n && forall i :: 0 <= i < n ==> ws[i] == 0
  {
    seq(n, _ => 0)
  }

  lemma {:induction false} ZeroBytes(n: nat)
    ensures WordsBytes(ZeroWords(n)) == Zeros(4 * n)
  {
    if n > 0 {
      ZeroBytes(n - 1);
      assert ZeroWords(n)[..n - 1] == ZeroWords(n - 1);
      assert Zeros(4 * n) == Zeros(4 * (n - 1)) + [0, 0, 0, 0];
    }
  }

  lemma {:induction false} WordsAppend(xs: seq<int>, ys: seq<int>)
    ensures WordsBytes(xs + ys) == WordsBytes(xs) + WordsBytes(ys)
    decreases |ys|
  {
    if ys == [] {
      assert xs + ys == xs;
    } else {
      var n := |ys| - 1;
      assert (xs + ys)[..|xs + ys| - 1] == xs + ys[..n];
      WordsAppend(xs, ys[..n]);
    }
  }

  lemma {:induction false} PokeMiddle(pre: Str, mid: Str, post: Str, part: Str)
    requires |mid| == |part|
    ensures Poke(pre + mid + post, |pre|, part) == pre + part + post
  {
  }

  /** Patching an array in place, whatever was allocated around it since. */
  lemma {:induction false} PokeWords(pre: Str, ws: seq<int>, post: Str, xs: seq<int>)
    requires |ws| == |xs|
    ensures Poke(pre + WordsBytes(ws) + post, |pre|, WordsBytes(xs)) == pre + WordsBytes(xs) + post
  {
    PokeMiddle(pre, WordsBytes(ws), post, WordsBytes(xs));
  }

  lemma {:induction false} Regroup(pre: Str, a: Str, x: Str, b: Str, post: Str)
    ensures pre + (a + x + b) + post == (pre + a) + x + (b + post)
  {
  }

  lemma {:induction false} PokeInside(pre: Str, a: Str, x: Str, b: Str, post: Str, y: Str)
    requires |x| == |y|
    ensures Poke(pre + (a + x + b) + post, |pre| + |a|, y) == pre + (a + y + b) + post
  {
    hide Poke;
    Regroup(pre, a, x, b, post);
    Regroup(pre, a, y, b, post);
    PokeMiddle(pre + a, x, b + post, y);
  }

  lemma {:induction false} WordsAround(a: seq<int>, w: int, b: seq<int>)
    ensures WordsBytes(a + [w] + b) == WordsBytes(a) + WordsBytes([w]) + WordsBytes(b)
  {
    WordsAppend(a + [w], b);
    WordsAppend(a, [w]);
  }

  /** Patching one field of a record in place, whatever was allocated around it since. */
  lemma {:induction false} PokeField(pre: Str, ws: seq<int>, post: Str, k: nat, w: int)
    requires k < |ws|
    ensures Poke(pre + WordsBytes(ws) + post, |pre| + 4 * k, WordsBytes([w])) == pre + WordsBytes(ws[k := w]) + post
  {
    hide WordsBytes, Poke;
    var a, b := ws[..k], ws[k + 1..];
    assert ws == a + [ws[k]] + b && ws[k := w] == a + [w] + b;
    WordsAround(a, ws[k], b);
    WordsAround(a, w, b);
    PokeInside(pre, WordsBytes(a), WordsBytes([ws[k]]), WordsBytes(b), post, WordsBytes([w]));
  }

  class Arena {
    /** The backing buffer, growth slack included. */
    var data: Str
    var used: nat

    predicate Valid()
      reads this
    {
      used <= |data| && used <= U32_MAX && Aligned(used) && forall i :: used <= i < |data| ==> data[i] == 0
    }

    /** The allocated extent: what a reader of the arena may see. */
    function Image(): (img: Str)
      requires Valid()
      reads this
      ensures |img| == used
    {
      data[..used]
    }

    constructor ()
      ensures Valid() && Image() == []
    {
      data := [];
      used := 0;
    }

    /** Appends zeros; fails exactly when an offset would leave the 32-bit space. */
    method AllocateData(size: nat) returns (r: Result<nat>)
      requires Valid()
      modifies this
      ensures Valid()
      ensures r.Ok? <==> old(used) + Align4(size) <= U32_MAX
      ensures r.Ok? ==> r.value == old(used) && Image() == old(Image()) + Zeros(Align4(size))
      ensures r.Err? ==> Image() == old(Image())
    {
      var alignedSize := Align4(size);
      var needed := used + alignedSize;
      if needed > U32_MAX {
        return Err(ImageTooLarge);
      }
      var byteLen := |data|;
      if needed > byteLen {
        var targetBytes := if needed < 2 * byteLen then 2 * byteLen else needed;
        data := data + Zeros(Align4(targetBytes) - byteLen);
      }
      var offset := used;
      AlignedSum(used, alignedSize);
      used := used + alignedSize;
      assert Image() == old(Image()) + Zeros(alignedSize);
      return Ok(offset);
    }

    /** A zeroed record or array of `n` words. */
    method AllocateWords(n: nat) returns (r: Result<nat>)
      requires Valid()
      modifies this
      ensures Valid()
      ensures r.Ok? <==> old(used) + 4 * n <= U32_MAX
      ensures r.Ok? ==> r.value == old(used) && Image() == old(Image()) + WordsBytes(ZeroWords(n))
    {
      AlignedTimes4(n);
      AlignOfAligned(4 * n);
      ZeroBytes(n);
      r := AllocateData(4 * n);
    }

    method AllocateAndWriteString(s: Str) returns (r: Result<nat>)
      requires Valid()
      modifies this
      ensures Valid()
      ensures r.Ok? <==> old(used) + |EmitStr(s)| <= U32_MAX
      ensures r.Ok? ==> r.value == old(used) && Image() == old(Image()) + EmitStr(s)
    {
      r := AllocateData(|s| + 1);
      if r.Ok? {
        var start := r.value;
        data := Poke(data, start, s + [0]);
        assert Image() == old(Image()) + EmitStr(s);
      }
    }

    method AllocateAndWriteWord(w: int) returns (r: Result<()>)
      requires Valid()
      modifies this
      ensures Valid()
      ensures r.Ok? <==> old(used) + 4 <= U32_MAX
      ensures r.Ok? ==> Image() == old(Image()) + WordsBytes([w])
    {
      var a := AllocateWords(1);
      if a.Err? {
        return Err(a.error);
      }
      var off := a.value;
      data := Poke(data, off, WordsBytes([w]));
      PokeMiddle(old(Image()), WordsBytes(ZeroWords(1)), [], WordsBytes([w]));
      assert old(Image()) + WordsBytes([w]) + [] == old(Image()) + WordsBytes([w]);
      assert old(Image()) + WordsBytes(ZeroWords(1)) + [] == old(Image()) + WordsBytes(ZeroWords(1));
      assert Image() == old(Image()) + WordsBytes([w]);
      return Ok(());
    }

    /** `get_object(offset)?.field = w` for word `k` of a record of `words` words. */
    method SetField(offset: nat, words: nat, k: nat, w: int) returns (r: Result<()>)
      requires Valid() && k < words
      modifies this
      ensures Valid()
      ensures r.Ok? <==> Aligned(offset) && offset + 4 * words <= used
      ensures r.Ok? ==> used == old(used) && Image() == Poke(old(Image()), offset + 4 * k, WordsBytes([w]))
      ensures r.Err? ==> Image() == old(Image())
    {
      if offset + 4 * words > used || !Aligned(offset) {
        return Err(OutOfBounds);
      }
      data := Poke(data, offset + 4 * k, WordsBytes([w]));
      return Ok(());
    }

    /** `uint32_array(offset, len)?.copy_from_slice(ws)`. */
    method SetArray(offset: nat, ws: seq<int>) returns (r: Result<()>)
      requires Valid()
      modifies this
      ensures Valid()
      ensures r.Ok? <==> Aligned(offset) && offset + 4 * |ws| <= used
      ensures r.Ok? ==> used == old(used) && Image() == Poke(old(Image()), offset, WordsBytes(ws))
      ensures r.Err? ==> Image() == old(Image())
    {
      if offset + 4 * |ws| > used || !Aligned(offset) {
        return Err(OutOfBounds);
      }
      data := Poke(data, offset, WordsBytes(ws));
      return Ok(());
    }
  }

  lemma {:induction false} AlignOfAligned(n: nat)
    requires Aligned(n)
    ensures Align4(n) == n
  {
    AlignedIsMod(n);
    AlignedIsMod(Align4(n));
  }
}
