/** The serialized property-info image: what its bytes mean, and a one-pass emitter for it.

    `NodeAt` and `TableAt` say that the bytes of an image at an offset encode a given trie node or
    string table.  `EmitImage` lays a trie out front to back with every offset known in advance; it
    is the specification of the serializer, which instead allocates first and patches later. */
module ImageFormat {
  import opened Base

  /** "No context/type": the in-band sentinel. */
  const NO_INDEX: nat := U32_MAX

  const HEADER_SIZE: nat := 24
  const NODE_SIZE: nat := 28
  const ENTRY_SIZE: nat := 16

  /** A property entry with its context and type resolved to string-table indexes. */
  datatype Ent = Ent(name: Str, ctx: nat, typ: nat)

  /** A trie node as the image stores it: entries and children in serialization order. */
  datatype TNode = TNode(entry: Ent, prefixes: seq<Ent>, exacts: seq<Ent>, children: seq<TNode>)

  // ---------------------------------------------------------------- what the bytes mean

  predicate EntAt(img: Str, off: nat, e: Ent)
  {
    Aligned(off) && off + ENTRY_SIZE <= |img|
    && CStr(img, Word(img, off)) == Some(e.name)
    && Word(img, off + 4) == |e.name| && Word(img, off + 8) == e.ctx && Word(img, off + 12) == e.typ
  }

  predicate EntsAt(img: Str, arr: nat, es: seq<Ent>)
  {
    Aligned(arr) && arr + 4 * |es| <= |img|
    && forall i :: 0 <= i < |es| ==> EntAt(img, Word(img, arr + 4 * i), es[i])
  }

  predicate NodeAt(img: Str, off: nat, n: TNode)
    decreases n
  {
    Aligned(off) && off + NODE_SIZE <= |img|
    && EntAt(img, Word(img, off), n.entry)
    && Word(img, off + 12) == |n.prefixes| && EntsAt(img, Word(img, off + 16), n.prefixes)
    && Word(img, off + 20) == |n.exacts| && EntsAt(img, Word(img, off + 24), n.exacts)
    && Word(img, off + 4) == |n.children|
    && var arr := Word(img, off + 8);
    Aligned(arr) && arr + 4 * |n.children| <= |img|
    && forall i :: 0 <= i < |n.children| ==> NodeAt(img, Word(img, arr + 4 * i), n.children[i])
  }

  predicate TableAt(img: Str, off: nat, ss: seq<Str>)
  {
    Aligned(off) && off + 4 + 4 * |ss| <= |img| && Word(img, off) == |ss|
    && forall i :: 0 <= i < |ss| ==> CStr(img, Word(img, off + 4 + 4 * i)) == Some(ss[i])
  }

  /** The header's two table offsets lead to these tables. */
  predicate TablesAt(img: Str, ctxs: seq<Str>, typs: seq<Str>)
  {
    HEADER_SIZE <= |img| && TableAt(img, Word(img, 12), ctxs) && TableAt(img, Word(img, 16), typs)
  }

  predicate ImageAt(img: Str, ctxs: seq<Str>, typs: seq<Str>, root: TNode)
  {
    TablesAt(img, ctxs, typs) && NodeAt(img, Word(img, 20), root) && Word(img, 8) == |img|
  }

  /** The records in bytes: an entry is four words, the offset and length of its name and its two indexes; a node is
      seven, the offset of its entry, the number and offset array of its children, of its prefixes and of its exact
      matches. */
  lemma {:induction false} RecordsInBytes(img: Str, off: nat, e: Ent, n: TNode)
    ensures EntAt(img, off, e) <==>
              off % 4 == 0 && off + 16 <= |img| && CStr(img, Word(img, off)) == Some(e.name)
              && Word(img, off + 4) == |e.name| && Word(img, off + 8) == e.ctx && Word(img, off + 12) == e.typ
    ensures NodeAt(img, off, n) <==>
              off % 4 == 0 && off + 28 <= |img| && EntAt(img, Word(img, off), n.entry)
              && Word(img, off + 4) == |n.children| && NodesAt(img, Word(img, off + 8), n.children)
              && Word(img, off + 12) == |n.prefixes| && EntsAt(img, Word(img, off + 16), n.prefixes)
              && Word(img, off + 20) == |n.exacts| && EntsAt(img, Word(img, off + 24), n.exacts)
  {
    hide Word, CStr, EntsAt;
    AlignedIsMod(off);
    if off + 28 <= |img| {
      AlignedIsMod(Word(img, off + 8));
    }
  }

  /** An array of offsets that lead to these nodes. */
  predicate NodesAt(img: Str, arr: nat, ns: seq<TNode>)
  {
    arr % 4 == 0 && arr + 4 * |ns| <= |img| && forall i :: 0 <= i < |ns| ==> NodeAt(img, Word(img, arr + 4 * i), ns[i])
  }

  lemma {:induction false} EntsAtUnique(img: Str, arr: nat, a: seq<Ent>, b: seq<Ent>)
    requires EntsAt(img, arr, a) && EntsAt(img, arr, b) && |a| == |b|
    ensures a == b
  {
    hide Word, CStr, Aligned;
    forall i | 0 <= i < |a| ensures a[i] == b[i] {
      assert EntAt(img, Word(img, arr + 4 * i), a[i]) && EntAt(img, Word(img, arr + 4 * i), b[i]);
    }
  }

  lemma {:induction false} ChildAt(img: Str, off: nat, n: TNode, i: nat)
    requires NodeAt(img, off, n) && i < |n.children|
    ensures off + NODE_SIZE <= |img| && Word(img, off + 8) + 4 * i + 4 <= |img|
    ensures NodeAt(img, Word(img, Word(img, off + 8) + 4 * i), n.children[i])
  {
    hide Word, Aligned, EntAt, EntsAt;
  }

  /** Decoding is unambiguous: an image encodes at most one trie at any offset. */
  lemma {:induction false} NodeAtUnique(img: Str, off: nat, a: TNode, b: TNode)
    requires NodeAt(img, off, a) && NodeAt(img, off, b)
    ensures a == b
    decreases a
  {
    hide Word, Aligned, NodeAt;
    SameFields(img, off, a, b);
    forall i | 0 <= i < |a.children| ensures a.children[i] == b.children[i] {
      ChildAt(img, off, a, i);
      ChildAt(img, off, b, i);
      NodeAtUnique(img, Word(img, Word(img, off + 8) + 4 * i), a.children[i], b.children[i]);
    }
    assert a.children == b.children;
  }

  lemma {:induction false} SameFields(img: Str, off: nat, a: TNode, b: TNode)
    requires NodeAt(img, off, a) && NodeAt(img, off, b)
    ensures a.entry == b.entry && a.prefixes == b.prefixes && a.exacts == b.exacts && |a.children| == |b.children|
  {
    hide Word, Aligned, CStr, EntsAt;
    EntsAtUnique(img, Word(img, off + 16), a.prefixes, b.prefixes);
    EntsAtUnique(img, Word(img, off + 24), a.exacts, b.exacts);
  }

  // ---------------------------------------------------------------- the one-pass emitter

  function EmitStr(s: Str): (r: Str)
    ensures |r| == Align4(|s| + 1)
  {
    s + Zeros(Align4(|s| + 1) - |s|)
  }

  /** An entry record followed by its name. */
  function EmitEnt(e: Ent, base: nat): (r: Str)
    ensures |r| == ENTRY_SIZE + Align4(|e.name| + 1)
  {
    WordsBytes([base + ENTRY_SIZE, |e.name|, e.ctx, e.typ]) + EmitStr(e.name)
  }

  /** The first `k` entries, back to back from `base`. */
  function EmitEnts(es: seq<Ent>, k: nat, base: nat): Str
    requires k <= |es|
  {
    if k == 0 then []
    else
      var front := EmitEnts(es, k - 1, base);
      front + EmitEnt(es[k - 1], base + |front|)
  }

  function EntOffsets(es: seq<Ent>, k: nat, base: nat): (r: seq<int>)
    requires k <= |es|
    ensures |r| == k
  {
    if k == 0 then [] else EntOffsets(es, k - 1, base) + [base + |EmitEnts(es, k - 1, base)|]
  }

  /** An offset array at `arr` followed by the entries it points to. */
  function EmitEntArray(es: seq<Ent>, arr: nat): (r: Str)
    ensures 4 * |es| <= |r|
  {
    WordsBytes(EntOffsets(es, |es|, arr + 4 * |es|)) + EmitEnts(es, |es|, arr + 4 * |es|)
  }

  function EmitStrs(ss: seq<Str>, k: nat): Str
    requires k <= |ss|
  {
    if k == 0 then [] else EmitStrs(ss, k - 1) + EmitStr(ss[k - 1])
  }

  function StrOffsets(ss: seq<Str>, k: nat, base: nat): (r: seq<int>)
    requires k <= |ss|
    ensures |r| == k
  {
    if k == 0 then [] else StrOffsets(ss, k - 1, base) + [base + |EmitStrs(ss, k - 1)|]
  }

  /** A string table: count, offset array, strings. */
  function EmitTable(ss: seq<Str>, off: nat): Str
  {
    WordsBytes([|ss|]) + WordsBytes(StrOffsets(ss, |ss|, off + 4 + 4 * |ss|)) + EmitStrs(ss, |ss|)
  }

  /** What follows a node record at `base`, up to its child array: the entry (`k == 1`), then the
      prefixes (`k == 2`), then the exact matches (`k == 3`). */
  function NodeFront(n: TNode, k: nat, base: nat): Str
    requires k <= 3
    decreases k
  {
    if k == 0 then []
    else
      var front := NodeFront(n, k - 1, base);
      front + FrontPart(n, k, base + NODE_SIZE + |front|)
  }

  function FrontPart(n: TNode, k: nat, at: nat): Str
  {
    if k == 1 then EmitEnt(n.entry, at)
    else EmitEntArray(if k == 2 then n.prefixes else n.exacts, at)
  }

  /** The seven words of a node record. */
  function NodeWords(n: TNode, base: nat): (ws: seq<int>)
    ensures |ws| == 7
  {
    [base + NODE_SIZE,
     |n.children|, base + NODE_SIZE + |NodeFront(n, 3, base)|,
     |n.prefixes|, base + NODE_SIZE + |NodeFront(n, 1, base)|,
     |n.exacts|, base + NODE_SIZE + |NodeFront(n, 2, base)|]
  }

  /** A node record, its entry, its three offset arrays and everything they point to. */
  function EmitNode(n: TNode, base: nat): Str
    decreases n, |n.children| + 1
  {
    var front := NodeFront(n, 3, base);
    var first := base + NODE_SIZE + |front| + 4 * |n.children|;
    WordsBytes(NodeWords(n, base)) + front
    + WordsBytes(ChildOffsets(n, |n.children|, first)) + EmitNodes(n, |n.children|, first)
  }

  /** The first `k` children of `n`, back to back from `base`. */
  function EmitNodes(n: TNode, k: nat, base: nat): Str
    requires k <= |n.children|
    decreases n, k, 0
  {
    if k == 0 then []
    else
      var front := EmitNodes(n, k - 1, base);
      front + EmitNode(n.children[k - 1], base + |front|)
  }

  function ChildOffsets(n: TNode, k: nat, base: nat): (r: seq<int>)
    requires k <= |n.children|
    ensures |r| == k
    decreases n, k, 0
  {
    if k == 0 then [] else ChildOffsets(n, k - 1, base) + [base + |EmitNodes(n, k - 1, base)|]
  }

  function TypesOffset(ctxs: seq<Str>): nat
  {
    HEADER_SIZE + |EmitTable(ctxs, HEADER_SIZE)|
  }

  function RootOffset(ctxs: seq<Str>, typs: seq<Str>): nat
  {
    TypesOffset(ctxs) + |EmitTable(typs, TypesOffset(ctxs))|
  }

  function EmitImage(ctxs: seq<Str>, typs: seq<Str>, root: TNode): Str
  {
    var to, ro := TypesOffset(ctxs), RootOffset(ctxs, typs);
    var body := EmitNode(root, ro);
    WordsBytes([1, 1, ro + |body|, HEADER_SIZE, to, ro])
    + EmitTable(ctxs, HEADER_SIZE) + EmitTable(typs, to) + body
  }

  // ---------------------------------------------------------------- how many bytes that is

  /** A string with its NUL, rounded up to a multiple of four. */
  function StrBytes(s: Str): nat
  {
    (|s| + 4) / 4 * 4
  }

  /** An entry is four words and its name. */
  function EntBytes(e: Ent): nat
  {
    16 + StrBytes(e.name)
  }

  /** Every entry of a list has an offset word. */
  function EntsBytes(es: seq<Ent>): nat
  {
    if es == [] then 0 else EntsBytes(es[..|es| - 1]) + 4 + EntBytes(es[|es| - 1])
  }

  function StrsBytes(ss: seq<Str>): nat
  {
    if ss == [] then 0 else StrsBytes(ss[..|ss| - 1]) + 4 + StrBytes(ss[|ss| - 1])
  }

  /** A node is seven words, its entry, its two lists, and its children, which have an offset word each. */
  function NodeBytes(n: TNode): nat
    decreases n, |n.children| + 1
  {
    28 + EntBytes(n.entry) + EntsBytes(n.prefixes) + EntsBytes(n.exacts) + ChildrenBytes(n, |n.children|)
  }

  function ChildrenBytes(n: TNode, k: nat): nat
    requires k <= |n.children|
    decreases n, k
  {
    if k == 0 then 0 else ChildrenBytes(n, k - 1) + 4 + NodeBytes(n.children[k - 1])
  }

  /** Six words of header, two tables with a count word each, and the trie. */
  function ImageBytes(ctxs: seq<Str>, typs: seq<Str>, root: TNode): nat
  {
    24 + (4 + StrsBytes(ctxs)) + (4 + StrsBytes(typs)) + NodeBytes(root)
  }

  lemma {:induction false} EntSize(e: Ent, base: nat)
    ensures |EmitEnt(e, base)| == EntBytes(e)
  {
    hide Align4;
    Align4ClosedForm(|e.name| + 1);
  }

  lemma {:induction false} EntsSize(es: seq<Ent>, k: nat, base: nat)
    requires k <= |es|
    ensures |EmitEnts(es, k, base)| + 4 * k == EntsBytes(es[..k])
    decreases k
  {
    hide EmitEnt, EntBytes;
    if k > 0 {
      EntsSize(es, k - 1, base);
      EntSize(es[k - 1], base + |EmitEnts(es, k - 1, base)|);
      assert es[..k][..k - 1] == es[..k - 1];
    }
  }

  lemma {:induction false} EntArraySize(es: seq<Ent>, arr: nat)
    ensures |EmitEntArray(es, arr)| == EntsBytes(es)
  {
    hide EmitEnts, EntsBytes, EntOffsets;
    EntsSize(es, |es|, arr + 4 * |es|);
    assert es[..|es|] == es;
  }

  lemma {:induction false} StrsSize(ss: seq<Str>, k: nat)
    requires k <= |ss|
    ensures |EmitStrs(ss, k)| + 4 * k == StrsBytes(ss[..k])
    decreases k
  {
    hide Align4;
    if k > 0 {
      StrsSize(ss, k - 1);
      Align4ClosedForm(|ss[k - 1]| + 1);
      assert ss[..k][..k - 1] == ss[..k - 1];
    }
  }

  lemma {:induction false} TableSize(ss: seq<Str>, off: nat)
    ensures |EmitTable(ss, off)| == 4 + StrsBytes(ss)
  {
    hide EmitStrs, StrsBytes, StrOffsets;
    StrsSize(ss, |ss|);
    assert ss[..|ss|] == ss;
  }

  lemma {:induction false} FrontSize(n: TNode, base: nat)
    ensures |NodeFront(n, 3, base)| == EntBytes(n.entry) + EntsBytes(n.prefixes) + EntsBytes(n.exacts)
  {
    hide EmitEnt, EmitEntArray, EntBytes, EntsBytes;
    EntSize(n.entry, base + NODE_SIZE + |NodeFront(n, 0, base)|);
    EntArraySize(n.prefixes, base + NODE_SIZE + |NodeFront(n, 1, base)|);
    EntArraySize(n.exacts, base + NODE_SIZE + |NodeFront(n, 2, base)|);
    FrontStep(n, 1, base);
    FrontStep(n, 2, base);
    FrontStep(n, 3, base);
  }

  lemma {:induction false} FrontStep(n: TNode, k: nat, base: nat)
    requires 0 < k <= 3
    ensures |NodeFront(n, 0, base)| == 0
    ensures |NodeFront(n, k, base)| == |NodeFront(n, k - 1, base)| + |FrontPart(n, k, base + NODE_SIZE + |NodeFront(n, k - 1, base)|)|
  {
    hide FrontPart;
  }

  lemma {:induction false} NodeSizeIs(n: TNode, base: nat)
    ensures |EmitNode(n, base)| == NodeBytes(n)
    decreases n, |n.children| + 1
  {
    hide NodeFront, EntBytes, EntsBytes, ChildOffsets, NodeWords;
    FrontSize(n, base);
    NodesSize(n, |n.children|, base + NODE_SIZE + |NodeFront(n, 3, base)| + 4 * |n.children|);
  }

  lemma {:induction false} NodesSize(n: TNode, k: nat, base: nat)
    requires k <= |n.children|
    ensures |EmitNodes(n, k, base)| + 4 * k == ChildrenBytes(n, k)
    decreases n, k
  {
    hide EmitNode, NodeBytes;
    if k > 0 {
      NodesSize(n, k - 1, base);
      NodeSizeIs(n.children[k - 1], base + |EmitNodes(n, k - 1, base)|);
    }
  }

  /** An image has exactly these bytes, and starts with two version words, its size, and the offsets of its
      tables and its trie. */
  lemma {:induction false} ImageSizeIs(ctxs: seq<Str>, typs: seq<Str>, root: TNode)
    ensures var img := EmitImage(ctxs, typs, root);
            |img| == ImageBytes(ctxs, typs, root)
            && (|img| <= 0xFFFF_FFFF ==>
                  Word(img, 0) == 1 && Word(img, 4) == 1 && Word(img, 8) == |img| && Word(img, 12) == 24
                  && Word(img, 16) == 28 + StrsBytes(ctxs) && Word(img, 20) == 32 + StrsBytes(ctxs) + StrsBytes(typs))
  {
    hide EmitTable, EmitNode, NodeBytes, StrsBytes, Word, WordsBytes;
    var to, ro := TypesOffset(ctxs), RootOffset(ctxs, typs);
    TableSize(ctxs, HEADER_SIZE);
    TableSize(typs, to);
    NodeSizeIs(root, ro);
    var ws := [1, 1, ro + |EmitNode(root, ro)|, HEADER_SIZE, to, ro];
    var img := EmitImage(ctxs, typs, root);
    if |img| <= U32_MAX {
      assert Sub(img, 0, WordsBytes(ws));
      SubWords(img, 0, ws, 0);
      SubWords(img, 0, ws, 1);
      SubWords(img, 0, ws, 2);
      SubWords(img, 0, ws, 3);
      SubWords(img, 0, ws, 4);
      SubWords(img, 0, ws, 5);
    }
  }

  // ---------------------------------------------------------------- emitting and decoding

  /** No name carries a NUL, and indexes fit their fields. */
  predicate EntEncodable(e: Ent)
  {
    0 !in e.name && e.ctx <= U32_MAX && e.typ <= U32_MAX
  }

  predicate Encodable(n: TNode)
  {
    EntEncodable(n.entry)
    && (forall e :: e in n.prefixes ==> EntEncodable(e))
    && (forall e :: e in n.exacts ==> EntEncodable(e))
    && forall c :: c in n.children ==> Encodable(c)
  }

  lemma {:induction false} StrDecodes(img: Str, off: nat, s: Str)
    requires Sub(img, off, EmitStr(s)) && 0 !in s
    ensures CStr(img, off) == Some(s)
  {
    var pad := Align4(|s| + 1) - |s| - 1;
    assert EmitStr(s) == (s + [0]) + Zeros(pad);
    SubSplit(img, off, s + [0], Zeros(pad));
    CStrOf(img, off, s);
  }

  lemma {:induction false} EntDecodes(img: Str, off: nat, e: Ent)
    requires |img| <= U32_MAX && Aligned(off)
    requires EntEncodable(e) && Sub(img, off, EmitEnt(e, off))
    ensures EntAt(img, off, e)
  {
    hide Word, WordsBytes, CStr, Aligned, Sub, EmitStr;
    var ws := [off + ENTRY_SIZE, |e.name|, e.ctx, e.typ];
    SubSplit(img, off, WordsBytes(ws), EmitStr(e.name));
    SubBounds(img, off, WordsBytes(ws) + EmitStr(e.name));
    SubWords(img, off, ws, 0);
    SubWords(img, off, ws, 1);
    SubWords(img, off, ws, 2);
    SubWords(img, off, ws, 3);
    StrDecodes(img, off + ENTRY_SIZE, e.name);
  }

  lemma {:induction false} EntsSplit(img: Str, base: nat, es: seq<Ent>, k: nat, i: nat)
    requires i < k <= |es| && Sub(img, base, EmitEnts(es, k, base))
    ensures EntOffsets(es, k, base)[i] == base + |EmitEnts(es, i, base)|
    ensures Sub(img, EntOffsets(es, k, base)[i], EmitEnt(es[i], EntOffsets(es, k, base)[i]))
    decreases k
  {
    hide EmitEnt;
    var front := EmitEnts(es, k - 1, base);
    SubSplit(img, base, front, EmitEnt(es[k - 1], base + |front|));
    if i < k - 1 {
      EntsSplit(img, base, es, k - 1, i);
    }
  }

  lemma {:induction false} EntAligned(e: Ent, base: nat)
    ensures Aligned(|EmitEnt(e, base)|)
  {
    AlignedSum(ENTRY_SIZE, Align4(|e.name| + 1));
  }

  lemma {:induction false} EntsAligned(es: seq<Ent>, k: nat, base: nat)
    requires k <= |es|
    ensures Aligned(|EmitEnts(es, k, base)|)
  {
    hide EmitEnt;
    if k > 0 {
      EntsAligned(es, k - 1, base);
      EntAligned(es[k - 1], base + |EmitEnts(es, k - 1, base)|);
      AlignedSum(|EmitEnts(es, k - 1, base)|, |EmitEnt(es[k - 1], base + |EmitEnts(es, k - 1, base)|)|);
    }
  }

  lemma {:induction false} EntArraySplit(img: Str, arr: nat, es: seq<Ent>)
    requires Sub(img, arr, EmitEntArray(es, arr))
    ensures Sub(img, arr, WordsBytes(EntOffsets(es, |es|, arr + 4 * |es|)))
    ensures Sub(img, arr + 4 * |es|, EmitEnts(es, |es|, arr + 4 * |es|))
  {
    var base := arr + 4 * |es|;
    SubSplit(img, arr, WordsBytes(EntOffsets(es, |es|, base)), EmitEnts(es, |es|, base));
  }

  lemma {:induction false} EntDecodesAt(img: Str, arr: nat, es: seq<Ent>, i: nat, base: nat)
    requires |img| <= U32_MAX && Aligned(base) && i < |es| && EntEncodable(es[i])
    requires Sub(img, arr, WordsBytes(EntOffsets(es, |es|, base)))
    requires Sub(img, base, EmitEnts(es, |es|, base))
    ensures arr + 4 * i + 4 <= |img| && EntAt(img, Word(img, arr + 4 * i), es[i])
  {
    hide EmitEnt, EntAt;
    EntsSplit(img, base, es, |es|, i);
    SubWords(img, arr, EntOffsets(es, |es|, base), i);
    EntsAligned(es, i, base);
    AlignedSum(base, |EmitEnts(es, i, base)|);
    EntDecodes(img, EntOffsets(es, |es|, base)[i], es[i]);
  }

  lemma {:induction false} EntsDecode(img: Str, arr: nat, es: seq<Ent>)
    requires |img| <= U32_MAX && Aligned(arr)
    requires forall e :: e in es ==> EntEncodable(e)
    requires Sub(img, arr, EmitEntArray(es, arr))
    ensures EntsAt(img, arr, es)
  {
    hide EmitEntArray, EntAt;
    EntArraySplit(img, arr, es);
    AlignedTimes4(|es|);
    AlignedSum(arr, 4 * |es|);
    forall i | 0 <= i < |es| ensures EntAt(img, Word(img, arr + 4 * i), es[i]) {
      EntDecodesAt(img, arr, es, i, arr + 4 * |es|);
    }
  }

  lemma {:induction false} StrsSplit(img: Str, base: nat, ss: seq<Str>, k: nat, i: nat)
    requires i < k <= |ss| && Sub(img, base, EmitStrs(ss, k))
    ensures StrOffsets(ss, k, base)[i] == base + |EmitStrs(ss, i)|
    ensures Sub(img, StrOffsets(ss, k, base)[i], EmitStr(ss[i]))
    decreases k
  {
    SubSplit(img, base, EmitStrs(ss, k - 1), EmitStr(ss[k - 1]));
    if i < k - 1 {
      StrsSplit(img, base, ss, k - 1, i);
    }
  }

  lemma {:induction false} TableSplit(img: Str, off: nat, ss: seq<Str>)
    requires Sub(img, off, EmitTable(ss, off))
    ensures Sub(img, off, WordsBytes([|ss|]))
    ensures Sub(img, off + 4, WordsBytes(StrOffsets(ss, |ss|, off + 4 + 4 * |ss|)))
    ensures Sub(img, off + 4 + 4 * |ss|, EmitStrs(ss, |ss|))
  {
    var offs := StrOffsets(ss, |ss|, off + 4 + 4 * |ss|);
    SubSplit(img, off, WordsBytes([|ss|]) + WordsBytes(offs), EmitStrs(ss, |ss|));
    SubSplit(img, off, WordsBytes([|ss|]), WordsBytes(offs));
  }

  lemma {:induction false} StrDecodesAt(img: Str, arr: nat, ss: seq<Str>, i: nat, base: nat)
    requires |img| <= U32_MAX && i < |ss| && 0 !in ss[i]
    requires Sub(img, arr, WordsBytes(StrOffsets(ss, |ss|, base)))
    requires Sub(img, base, EmitStrs(ss, |ss|))
    ensures arr + 4 * i + 4 <= |img| && CStr(img, Word(img, arr + 4 * i)) == Some(ss[i])
  {
    StrsSplit(img, base, ss, |ss|, i);
    SubWords(img, arr, StrOffsets(ss, |ss|, base), i);
    StrDecodes(img, StrOffsets(ss, |ss|, base)[i], ss[i]);
  }

  lemma {:induction false} TableDecodes(img: Str, off: nat, ss: seq<Str>)
    requires |img| <= U32_MAX && Aligned(off)
    requires forall s :: s in ss ==> 0 !in s
    requires Sub(img, off, EmitTable(ss, off))
    ensures TableAt(img, off, ss)
  {
    hide EmitTable, Word, WordsBytes, CStr, Aligned, Sub, EmitStrs, StrOffsets;
    TableSplit(img, off, ss);
    SubBounds(img, off + 4, WordsBytes(StrOffsets(ss, |ss|, off + 4 + 4 * |ss|)));
    SubWords(img, off, [|ss|], 0);
    forall i | 0 <= i < |ss| ensures CStr(img, Word(img, off + 4 + 4 * i)) == Some(ss[i]) {
      StrDecodesAt(img, off + 4, ss, i, off + 4 + 4 * |ss|);
    }
  }

  lemma {:induction false} NodesSplit(img: Str, base: nat, n: TNode, k: nat, i: nat)
    requires i < k <= |n.children| && Sub(img, base, EmitNodes(n, k, base))
    ensures ChildOffsets(n, k, base)[i] == base + |EmitNodes(n, i, base)|
    ensures Sub(img, ChildOffsets(n, k, base)[i], EmitNode(n.children[i], ChildOffsets(n, k, base)[i]))
    decreases k
  {
    hide EmitNode;
    var front := EmitNodes(n, k - 1, base);
    SubSplit(img, base, front, EmitNode(n.children[k - 1], base + |front|));
    if i < k - 1 {
      NodesSplit(img, base, n, k - 1, i);
    }
  }

  lemma {:induction false} ArrayAligned(es: seq<Ent>, arr: nat)
    ensures Aligned(|EmitEntArray(es, arr)|)
  {
    EntsAligned(es, |es|, arr + 4 * |es|);
    AlignedTimes4(|es|);
    AlignedSum(4 * |es|, |EmitEnts(es, |es|, arr + 4 * |es|)|);
  }

  /** The parts of a node are whole words long. */
  lemma {:induction false} FrontAligned(n: TNode, k: nat, base: nat)
    requires k <= 3
    ensures Aligned(|NodeFront(n, k, base)|)
  {
    hide EmitEnt, EmitEntArray;
    if k > 0 {
      FrontAligned(n, k - 1, base);
      var front := NodeFront(n, k - 1, base);
      var at := base + NODE_SIZE + |front|;
      if k == 1 { EntAligned(n.entry, at); } else { ArrayAligned(if k == 2 then n.prefixes else n.exacts, at); }
      AlignedSum(|front|, |FrontPart(n, k, at)|);
    }
  }

  lemma {:induction false} AlignedNodeLength(front: nat, kids: nat, rest: nat)
    requires Aligned(front) && Aligned(rest)
    ensures Aligned(NODE_SIZE + front + 4 * kids + rest)
  {
    AlignedSum(NODE_SIZE, front);
    AlignedTimes4(kids);
    AlignedSum(NODE_SIZE + front, 4 * kids);
    AlignedSum(NODE_SIZE + front + 4 * kids, rest);
  }

  lemma {:induction false} NodeLength(n: TNode, base: nat)
    ensures var first := base + NODE_SIZE + |NodeFront(n, 3, base)| + 4 * |n.children|;
            |EmitNode(n, base)|
            == NODE_SIZE + |NodeFront(n, 3, base)| + 4 * |n.children| + |EmitNodes(n, |n.children|, first)|
  {
    hide NodeFront;
  }

  lemma {:induction false} NodeAligned(n: TNode, base: nat)
    ensures Aligned(|EmitNode(n, base)|)
    decreases n, |n.children| + 1
  {
    hide EmitEnt, EmitEntArray, NodeFront;
    FrontAligned(n, 3, base);
    var first := base + NODE_SIZE + |NodeFront(n, 3, base)| + 4 * |n.children|;
    NodesAligned(n, |n.children|, first);
    AlignedNodeLength(|NodeFront(n, 3, base)|, |n.children|, |EmitNodes(n, |n.children|, first)|);
    NodeLength(n, base);
  }

  lemma {:induction false} NodesAligned(n: TNode, k: nat, base: nat)
    requires k <= |n.children|
    ensures Aligned(|EmitNodes(n, k, base)|)
    decreases n, k, 0
  {
    hide EmitEnt, EmitEntArray, NodeFront, EmitNode;
    if k > 0 {
      NodesAligned(n, k - 1, base);
      var at := base + |EmitNodes(n, k - 1, base)|;
      NodeAligned(n.children[k - 1], at);
      AlignedSum(|EmitNodes(n, k - 1, base)|, |EmitNode(n.children[k - 1], at)|);
    }
  }

  /** The parts of an emitted node sit where its record says they do. */
  lemma {:induction false} NodeSplit(img: Str, off: nat, n: TNode)
    requires Sub(img, off, EmitNode(n, off))
    ensures Sub(img, off, WordsBytes(NodeWords(n, off)))
    ensures Sub(img, off + NODE_SIZE, NodeFront(n, 3, off))
    ensures var arr := off + NODE_SIZE + |NodeFront(n, 3, off)|;
            var first := arr + 4 * |n.children|;
            Sub(img, arr, WordsBytes(ChildOffsets(n, |n.children|, first)))
            && Sub(img, first, EmitNodes(n, |n.children|, first))
            && first <= |img|
  {
    hide NodeFront, NodeWords;
    var ws, front := WordsBytes(NodeWords(n, off)), NodeFront(n, 3, off);
    var first := off + NODE_SIZE + |front| + 4 * |n.children|;
    var offs := WordsBytes(ChildOffsets(n, |n.children|, first));
    SubSplit(img, off, ws + front + offs, EmitNodes(n, |n.children|, first));
    SubSplit(img, off, ws + front, offs);
    SubSplit(img, off, ws, front);
  }

  lemma {:induction false} FrontSplit(img: Str, off: nat, n: TNode, k: nat)
    requires 0 < k <= 3 && Sub(img, off + NODE_SIZE, NodeFront(n, k, off))
    ensures Sub(img, off + NODE_SIZE, NodeFront(n, k - 1, off))
    ensures var at := off + NODE_SIZE + |NodeFront(n, k - 1, off)|; Sub(img, at, FrontPart(n, k, at))
  {
    hide FrontPart;
    var front := NodeFront(n, k - 1, off);
    SubSplit(img, off + NODE_SIZE, front, FrontPart(n, k, off + NODE_SIZE + |front|));
  }

  lemma {:induction false} FrontAt(img: Str, off: nat, n: TNode, k: nat)
    requires 0 < k <= 3 && Aligned(off) && Sub(img, off + NODE_SIZE, NodeFront(n, k, off))
    ensures Sub(img, off + NODE_SIZE, NodeFront(n, k - 1, off))
    ensures var at := off + NODE_SIZE + |NodeFront(n, k - 1, off)|; Aligned(at) && Sub(img, at, FrontPart(n, k, at))
  {
    hide FrontPart, Sub;
    FrontSplit(img, off, n, k);
    FrontAligned(n, k - 1, off);
    AlignedTimes4(7);
    AlignedSum(off, NODE_SIZE);
    AlignedSum(off + NODE_SIZE, |NodeFront(n, k - 1, off)|);
  }

  lemma {:induction false} FrontDecodes(img: Str, off: nat, n: TNode)
    requires |img| <= U32_MAX && Aligned(off) && Encodable(n)
    requires Sub(img, off + NODE_SIZE, NodeFront(n, 3, off))
    ensures EntAt(img, off + NODE_SIZE, n.entry)
    ensures EntsAt(img, off + NODE_SIZE + |NodeFront(n, 1, off)|, n.prefixes)
    ensures EntsAt(img, off + NODE_SIZE + |NodeFront(n, 2, off)|, n.exacts)
  {
    hide EmitEntArray, EmitEnt, Sub, EntAt, EntsAt;
    FrontAt(img, off, n, 3);
    EntsDecode(img, off + NODE_SIZE + |NodeFront(n, 2, off)|, n.exacts);
    FrontAt(img, off, n, 2);
    EntsDecode(img, off + NODE_SIZE + |NodeFront(n, 1, off)|, n.prefixes);
    FrontAt(img, off, n, 1);
    EntDecodes(img, off + NODE_SIZE, n.entry);
  }

  lemma {:induction false} FrontLengths(n: TNode, off: nat)
    ensures |NodeFront(n, 1, off)| + 4 * |n.prefixes| <= |NodeFront(n, 2, off)|
    ensures |NodeFront(n, 2, off)| + 4 * |n.exacts| <= |NodeFront(n, 3, off)|
  {
    hide EmitEnt, EmitEntArray;
    assert |NodeFront(n, 2, off)|
        == |NodeFront(n, 1, off)| + |FrontPart(n, 2, off + NODE_SIZE + |NodeFront(n, 1, off)|)|;
  }

  lemma {:induction false} RecordDecodes(img: Str, off: nat, n: TNode)
    requires |img| <= U32_MAX && Sub(img, off, EmitNode(n, off))
    ensures off + NODE_SIZE <= |img|
    ensures forall i :: 0 <= i < 7 ==> Word(img, off + 4 * i) == NodeWords(n, off)[i]
  {
    hide NodeFront, EmitNode;
    NodeSplit(img, off, n);
    FrontLengths(n, off);
    var ws := NodeWords(n, off);
    forall i | 0 <= i < 7 ensures Word(img, off + 4 * i) == ws[i] {
      SubWords(img, off, ws, i);
    }
  }

  lemma {:induction false} ChildSits(img: Str, off: nat, n: TNode, i: nat)
    requires |img| <= U32_MAX && Aligned(off) && i < |n.children|
    requires Sub(img, off, EmitNode(n, off))
    ensures var arr := off + NODE_SIZE + |NodeFront(n, 3, off)|;
            arr + 4 * i + 4 <= |img|
            && Aligned(Word(img, arr + 4 * i))
            && Sub(img, Word(img, arr + 4 * i), EmitNode(n.children[i], Word(img, arr + 4 * i)))
  {
    hide NodeFront, EmitNode, EmitNodes, ChildOffsets, Aligned, WordsBytes, Word;
    NodeSplit(img, off, n);
    var arr := off + NODE_SIZE + |NodeFront(n, 3, off)|;
    var first := arr + 4 * |n.children|;
    NodesSplit(img, first, n, |n.children|, i);
    SubWords(img, arr, ChildOffsets(n, |n.children|, first), i);
    FrontAligned(n, 3, off);
    NodesAligned(n, i, first);
    AlignedTimes4(7);
    AlignedSum(off, NODE_SIZE);
    AlignedSum(off + NODE_SIZE, |NodeFront(n, 3, off)|);
    AlignedTimes4(|n.children|);
    AlignedSum(arr, 4 * |n.children|);
    AlignedSum(first, |EmitNodes(n, i, first)|);
  }

  /** The seven words of a node's record, one by one. */
  lemma {:induction false} RecordFields(img: Str, off: nat, n: TNode)
    requires |img| <= U32_MAX && Sub(img, off, EmitNode(n, off))
    ensures off + NODE_SIZE <= |img| && Word(img, off) == off + NODE_SIZE
    ensures Word(img, off + 4) == |n.children| && Word(img, off + 8) == off + NODE_SIZE + |NodeFront(n, 3, off)|
    ensures Word(img, off + 12) == |n.prefixes| && Word(img, off + 16) == off + NODE_SIZE + |NodeFront(n, 1, off)|
    ensures Word(img, off + 20) == |n.exacts| && Word(img, off + 24) == off + NODE_SIZE + |NodeFront(n, 2, off)|
  {
    hide NodeFront, EmitNode, Sub, Word;
    RecordDecodes(img, off, n);
    var ws := NodeWords(n, off);
    assert Word(img, off + 4 * 0) == ws[0] && Word(img, off + 4 * 1) == ws[1] && Word(img, off + 4 * 2) == ws[2]
        && Word(img, off + 4 * 3) == ws[3] && Word(img, off + 4 * 4) == ws[4]
        && Word(img, off + 4 * 5) == ws[5] && Word(img, off + 4 * 6) == ws[6];
  }

  /** The record of an emitted node, field by field. */
  lemma {:induction false} NodeFields(img: Str, off: nat, n: TNode)
    requires |img| <= U32_MAX && Aligned(off)
    requires Encodable(n) && Sub(img, off, EmitNode(n, off))
    ensures off + NODE_SIZE <= |img|
    ensures EntAt(img, Word(img, off), n.entry)
    ensures Word(img, off + 4) == |n.children|
    ensures Word(img, off + 8) == off + NODE_SIZE + |NodeFront(n, 3, off)|
    ensures Aligned(Word(img, off + 8)) && Word(img, off + 8) + 4 * |n.children| <= |img|
    ensures Word(img, off + 12) == |n.prefixes| && EntsAt(img, Word(img, off + 16), n.prefixes)
    ensures Word(img, off + 20) == |n.exacts| && EntsAt(img, Word(img, off + 24), n.exacts)
  {
    hide NodeFront, EmitNode, Sub, EntAt, EntsAt, Word, Aligned;
    NodeSplit(img, off, n);
    FrontDecodes(img, off, n);
    RecordFields(img, off, n);
    FrontAligned(n, 3, off);
    AlignedTimes4(7);
    AlignedSum(off, NODE_SIZE);
    AlignedSum(off + NODE_SIZE, |NodeFront(n, 3, off)|);
  }

  /** Round trip: decoding an emitted node gives the node back. */
  lemma {:induction false} NodeDecodes(img: Str, off: nat, n: TNode)
    requires |img| <= U32_MAX && Aligned(off)
    requires Encodable(n) && Sub(img, off, EmitNode(n, off))
    ensures NodeAt(img, off, n)
    decreases n
  {
    hide NodeFront, EmitNode, Sub, EntAt, EntsAt;
    NodeFields(img, off, n);
    var arr := off + NODE_SIZE + |NodeFront(n, 3, off)|;
    forall i | 0 <= i < |n.children| ensures NodeAt(img, Word(img, arr + 4 * i), n.children[i]) {
      ChildSits(img, off, n, i);
      NodeDecodes(img, Word(img, arr + 4 * i), n.children[i]);
    }
  }

  lemma {:induction false} StrsAligned(ss: seq<Str>, k: nat)
    requires k <= |ss|
    ensures Aligned(|EmitStrs(ss, k)|)
  {
    if k > 0 {
      StrsAligned(ss, k - 1);
      AlignedSum(|EmitStrs(ss, k - 1)|, |EmitStr(ss[k - 1])|);
    }
  }

  lemma {:induction false} EmitTableAligned(ss: seq<Str>, off: nat)
    ensures Aligned(|EmitTable(ss, off)|)
  {
    StrsAligned(ss, |ss|);
    AlignedTimes4(1 + |ss|);
    AlignedSum(4 * (1 + |ss|), |EmitStrs(ss, |ss|)|);
  }

  lemma {:induction false} ImageSplit(img: Str, ctxs: seq<Str>, typs: seq<Str>, root: TNode)
    requires img == EmitImage(ctxs, typs, root)
    ensures var to, ro := TypesOffset(ctxs), RootOffset(ctxs, typs);
            Sub(img, 0, WordsBytes([1, 1, |img|, HEADER_SIZE, to, ro]))
            && Sub(img, HEADER_SIZE, EmitTable(ctxs, HEADER_SIZE))
            && Sub(img, to, EmitTable(typs, to))
            && Sub(img, ro, EmitNode(root, ro))
  {
    hide EmitTable, EmitNode;
    var to, ro := TypesOffset(ctxs), RootOffset(ctxs, typs);
    var body := EmitNode(root, ro);
    var ws := WordsBytes([1, 1, ro + |body|, HEADER_SIZE, to, ro]);
    var t1, t2 := EmitTable(ctxs, HEADER_SIZE), EmitTable(typs, to);
    assert Sub(img, 0, ws + t1 + t2 + body);
    SubSplit(img, 0, ws + t1 + t2, body);
    SubSplit(img, 0, ws + t1, t2);
    SubSplit(img, 0, ws, t1);
  }

  /** Round trip for the whole image. */
  lemma {:induction false} ImageDecodes(ctxs: seq<Str>, typs: seq<Str>, root: TNode)
    requires |EmitImage(ctxs, typs, root)| <= U32_MAX
    requires (forall s :: s in ctxs ==> 0 !in s) && (forall s :: s in typs ==> 0 !in s) && Encodable(root)
    ensures ImageAt(EmitImage(ctxs, typs, root), ctxs, typs, root)
  {
    hide EmitTable, EmitNode, TableAt, NodeAt, EmitImage;
    var img := EmitImage(ctxs, typs, root);
    var to, ro := TypesOffset(ctxs), RootOffset(ctxs, typs);
    ImageSplit(img, ctxs, typs, root);
    var ws := [1, 1, |img|, HEADER_SIZE, to, ro];
    forall i | 0 <= i < 6 ensures Word(img, 4 * i) == ws[i] {
      SubWords(img, 0, ws, i);
    }
    assert Word(img, 8) == ws[2] && Word(img, 12) == ws[3] && Word(img, 16) == ws[4] && Word(img, 20) == ws[5];
    EmitTableAligned(ctxs, HEADER_SIZE);
    EmitTableAligned(typs, to);
    AlignedTimes4(6);
    AlignedSum(HEADER_SIZE, |EmitTable(ctxs, HEADER_SIZE)|);
    AlignedSum(to, |EmitTable(typs, to)|);
    TableDecodes(img, HEADER_SIZE, ctxs);
    TableDecodes(img, to, typs);
    NodeDecodes(img, ro, root);
  }
}
