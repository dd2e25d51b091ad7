/** Reading lines with bounded memory (`read_bounded_line`, build_property_parser.rs), from a reader that
    hands out its bytes in chunks of any sizes. */
module BoundedLine {
  import opened Base

  const NEWLINE: byte := 0x0A
  const MAX_LINE_LEN: nat := 64 * 1024

  /** Just past the line that starts at `pos`: after its newline, or at the end. */
  function LineEnd(data: Str, pos: nat): (e: nat)
    requires pos <= |data|
    ensures pos <= e <= |data| && (pos < |data| ==> pos < e)
    decreases |data| - pos
  {
    if pos == |data| then pos
    else if data[pos] == NEWLINE then pos + 1
    else LineEnd(data, pos + 1)
  }

  predicate EndsInNewline(line: Str)
  {
    line != [] && line[|line| - 1] == NEWLINE
  }

  /** Length of a line without its newline. */
  function ContentLength(line: Str): nat
  {
    if EndsInNewline(line) then |line| - 1 else |line|
  }

  /** What a read reports: the bytes kept, the bytes consumed, and whether the line was cut. */
  datatype LineRead = LineRead(buf: Str, count: nat, truncated: bool)

  /** A line is kept whole unless its content exceeds the bound. */
  function AsRead(line: Str): LineRead
  {
    var truncated := ContentLength(line) > MAX_LINE_LEN;
    LineRead(if truncated then line[..MAX_LINE_LEN] else line, |line|, truncated)
  }

  function AsReads(lines: seq<Str>): (r: seq<LineRead>)
    ensures |r| == |lines| && forall i :: 0 <= i < |lines| ==> r[i] == AsRead(lines[i])
  {
    if lines == [] then [] else AsReads(lines[..|lines| - 1]) + [AsRead(lines[|lines| - 1])]
  }

  /** The line at `pos` has its newline. */
  predicate Terminated(data: Str, pos: nat)
    requires pos <= |data|
  {
    EndsInNewline(data[pos..LineEnd(data, pos)])
  }

  /** The position of a first newline settles where the line ends. */
  lemma {:induction false} LineEndAt(data: Str, pos: nat, nl: nat)
    requires pos <= nl <= |data| && NEWLINE !in data[pos..nl]
    ensures LineEnd(data, pos) == LineEnd(data, nl)
    ensures nl < |data| && data[nl] == NEWLINE ==> LineEnd(data, pos) == nl + 1
    decreases nl - pos
  {
    if pos < nl {
      assert data[pos] == data[pos..nl][0];
      assert data[pos + 1..nl] == data[pos..nl][1..];
      LineEndAt(data, pos + 1, nl);
    }
  }

  /** The bytes of a line hold a newline at most at their end. */
  lemma {:induction false} LineEndFacts(data: Str, pos: nat)
    requires pos < |data|
    ensures var e := LineEnd(data, pos);
            NEWLINE !in data[pos..e - 1] && (data[e - 1] == NEWLINE || e == |data|)
    decreases |data| - pos
  {
    var e := LineEnd(data, pos);
    if data[pos] != NEWLINE && pos + 1 < |data| {
      LineEndFacts(data, pos + 1);
      assert data[pos..e - 1] == [data[pos]] + data[pos + 1..e - 1];
    } else {
      assert data[pos..e - 1] == [];
    }
  }

  /** The lines that can be read from `pos` on, newlines included.  A `broken` stream ends in a read
      error, which takes an unterminated last line with it. */
  function Lines(data: Str, broken: bool, pos: nat): seq<Str>
    requires pos <= |data|
    decreases |data| - pos
  {
    if pos == |data| || (broken && !Terminated(data, pos)) then []
    else [data[pos..LineEnd(data, pos)]] + Lines(data, broken, LineEnd(data, pos))
  }

  function Concat(parts: seq<Str>): Str
  {
    if parts == [] then [] else parts[0] + Concat(parts[1..])
  }

  function Total(parts: seq<Str>): nat
  {
    if parts == [] then 0 else |parts[0]| + Total(parts[1..])
  }

  predicate IsLine(line: Str)
  {
    line != [] && NEWLINE !in line[..|line| - 1]
  }

  /** Non-empty lines with a newline at most at their end, which all but the last must have.  Put together
      they are the stream from `pos` on, so their lengths add up to its length; of a broken stream exactly
      the bytes after the last newline are missing. */
  predicate IsSplit(lines: seq<Str>, data: Str, broken: bool, pos: nat)
  {
    var end := pos + Total(lines);
    end <= |data| && Concat(lines) == data[pos..end]
    && (if broken then NEWLINE !in data[end..] else end == |data|)
    && (forall i :: 0 <= i < |lines| ==> IsLine(lines[i]))
    && (forall i :: 0 <= i < (if broken then |lines| else |lines| - 1) ==> EndsInNewline(lines[i]))
  }

  /** Every stream is split at its newlines, and there only. */
  lemma {:induction false} LinesSplit(data: Str, broken: bool, pos: nat)
    requires pos <= |data|
    ensures IsSplit(Lines(data, broken, pos), data, broken, pos)
    decreases |data| - pos
  {
    hide IsSplit, LineEnd;
    if pos == |data| || (broken && !Terminated(data, pos)) {
      NothingToSplit(data, broken, pos);
    } else {
      LinesSplit(data, broken, LineEnd(data, pos));
      SplitStep(data, broken, pos, Lines(data, broken, LineEnd(data, pos)));
    }
  }

  lemma {:induction false} NothingToSplit(data: Str, broken: bool, pos: nat)
    requires pos == |data| || (pos < |data| && broken && !Terminated(data, pos))
    ensures IsSplit([], data, broken, pos)
  {
    if pos < |data| {
      var e := LineEnd(data, pos);
      LineEndFacts(data, pos);
      assert data[pos..] == data[pos..e - 1] + [data[e - 1]];
    }
  }

  lemma {:induction false} SplitStep(data: Str, broken: bool, pos: nat, rest: seq<Str>)
    requires pos < |data| && IsSplit(rest, data, broken, LineEnd(data, pos)) && (broken ==> Terminated(data, pos))
    ensures IsSplit([data[pos..LineEnd(data, pos)]] + rest, data, broken, pos)
  {
    hide LineEnd, Concat, Total;
    var e := LineEnd(data, pos);
    var first := data[pos..e];
    LineEndFacts(data, pos);
    assert first[..|first| - 1] == data[pos..e - 1];
    Join(data, pos, e, e + Total(rest));
    LinesStep(first, rest);
    if rest != [] {
      SomeLeft(rest);
    }
  }

  lemma {:induction false} SomeLeft(lines: seq<Str>)
    requires lines != [] && IsLine(lines[0])
    ensures Total(lines) > 0
  {
  }

  lemma {:induction false} LinesStep(first: Str, rest: seq<Str>)
    ensures Concat([first] + rest) == first + Concat(rest) && Total([first] + rest) == |first| + Total(rest)
  {
    assert ([first] + rest)[1..] == rest;
  }

  lemma {:induction false} TotalConcat(a: seq<Str>, b: seq<Str>)
    ensures Total(a + b) == Total(a) + Total(b)
    decreases |a|
  {
    if a == [] {
      assert a + b == b;
    } else {
      assert (a + b)[0] == a[0] && (a + b)[1..] == a[1..] + b;
      TotalConcat(a[1..], b);
    }
  }

  lemma {:induction false} LastLine(data: Str, start: nat)
    requires start <= |data| && NEWLINE !in data[start..]
    ensures LineEnd(data, start) == |data| && !Terminated(data, start)
  {
    LineEndAt(data, start, |data|);
  }

  lemma {:induction false} Join(data: Str, a: nat, b: nat, c: nat)
    requires a <= b <= c <= |data|
    ensures data[a..b] + data[b..c] == data[a..c]
  {
  }

  /** What one chunk tells about the line in progress. */
  lemma {:induction false} ChunkTells(data: Str, pos: nat, part: Str)
    requires pos <= |data| && part <= data[pos..]
    ensures pos + |part| <= |data| && part == data[pos..pos + |part|]
    ensures match IndexOf(part, NEWLINE)
            case Some(nl) => LineEnd(data, pos) == pos + nl + 1 && part[..nl + 1] == data[pos..pos + nl + 1]
            case None => LineEnd(data, pos) == LineEnd(data, pos + |part|)
  {
    match IndexOf(part, NEWLINE)
    case Some(nl) =>
      assert part[..nl] == data[pos..pos + nl] && data[pos + nl] == part[nl];
      LineEndAt(data, pos, pos + nl);
    case None =>
      assert part == data[pos..pos + |part|];
      LineEndAt(data, pos, pos + |part|);
  }

  lemma {:induction false} LinesFrom(data: Str, broken: bool, pos: nat)
    requires pos <= |data|
    ensures pos < |data| ==> LineEnd(data, pos) > pos
    ensures !Terminated(data, |data|)
    ensures Lines(data, broken, pos)
         == if pos == |data| || (broken && !Terminated(data, pos)) then []
            else [data[pos..LineEnd(data, pos)]] + Lines(data, broken, LineEnd(data, pos))
  {
  }

  function Consumed(got: seq<LineRead>): nat
  {
    if got == [] then 0 else Consumed(got[..|got| - 1]) + got[|got| - 1].count
  }

  lemma {:induction false} ConsumedTotal(lines: seq<Str>)
    ensures Consumed(AsReads(lines)) == Total(lines)
    decreases |lines|
  {
    if lines != [] {
      var front, last := lines[..|lines| - 1], lines[|lines| - 1];
      ConsumedTotal(front);
      assert lines == front + [last];
      LinesStep(last, []);
      assert [last] + [] == [last];
      TotalConcat(front, [last]);
      assert AsReads(lines)[..|front|] == AsReads(front);
    }
  }

  lemma {:induction false} AllConsumed(data: Str, broken: bool)
    ensures !broken ==> Total(Lines(data, broken, 0)) == |data|
  {
    hide Lines, Total, Concat;
    LinesSplit(data, broken, 0);
  }

  lemma {:induction false} OneMoreRead(done: seq<Str>, l: Str, rest: seq<Str>)
    ensures AsReads(done + [l]) == AsReads(done) + [AsRead(l)]
    ensures done + ([l] + rest) == done + [l] + rest
  {
    assert (done + [l])[..|done|] == done;
  }

  /** A buffered reader over a stream that ends after `data`, or with a read error if it is `broken`.
      `chunk` says how many bytes it offers at each position: any number, but at least one before the end. */
  class Reader {
    const data: Str
    const broken: bool
    const chunk: nat -> nat
    var pos: nat

    ghost predicate Valid()
      reads this
    {
      pos <= |data|
    }

    constructor (data: Str, broken: bool, chunk: nat -> nat)
      ensures Valid() && this.data == data && this.broken == broken && this.chunk == chunk && pos == 0
    {
      this.data := data;
      this.broken := broken;
      this.chunk := chunk;
      pos := 0;
    }

    /** What `fill_buf` offers: some bytes, none at the end, or a read error. */
    function Available(): (a: Option<Str>)
      requires Valid()
      reads this
      ensures a.None? <==> pos == |data| && broken
      ensures a.Some? ==> a.value <= data[pos..] && (a.value == [] <==> pos == |data|)
    {
      var left := |data| - pos;
      if left == 0 then if broken then None else Some([])
      else Some(data[pos..][..Min(if chunk(pos) == 0 then 1 else chunk(pos), left)])
    }

    /** `read_until` a newline, at most `limit` bytes. */
    method ReadUntil(limit: nat) returns (ok: bool, buf: Str)
      requires Valid()
      modifies this`pos
      ensures Valid() && pos == old(pos) + |buf| && buf == data[old(pos)..pos]
      ensures |buf| == Min(limit, LineEnd(data, old(pos)) - old(pos))
      ensures !ok <==> broken && |buf| < limit && !Terminated(data, old(pos))
    {
      hide LineEnd, IndexOf;
      buf := [];
      while |buf| < limit
        invariant Valid() && pos == old(pos) + |buf| && buf == data[old(pos)..pos] && |buf| <= limit
        invariant LineEnd(data, pos) == LineEnd(data, old(pos)) && NEWLINE !in buf
        decreases |data| - pos
      {
        var available := Available();
        if available.None? || available.value == [] {
          LastLine(data, old(pos));
          return available.Some?, buf;
        }
        var part := available.value[..Min(limit - |buf|, |available.value|)];
        ChunkTells(data, pos, part);
        var nl := IndexOf(part, NEWLINE);
        var taken := if nl.Some? then nl.value + 1 else |part|;
        Join(data, old(pos), pos, pos + taken);
        buf := buf + part[..taken];
        pos := pos + taken;
        if nl.Some? {
          TerminatedBy(data, old(pos), pos);
          return true, buf;
        }
      }
      ok := true;
    }

    /** Reads one line under the memory bound: whatever the chunks, it consumes exactly the line, and fails
        exactly when the stream breaks before the line is over. */
    method ReadBoundedLine() returns (r: Option<LineRead>)
      requires Valid()
      modifies this`pos
      ensures Valid() && pos == LineEnd(data, old(pos))
      ensures r == if broken && !Terminated(data, old(pos)) then None else Some(AsRead(data[old(pos)..pos]))
    {
      hide LineEnd, IndexOf, Terminated, AsRead, Available;
      ghost var start, e := pos, LineEnd(data, pos);
      var ok, buf := ReadUntil(MAX_LINE_LEN + 1);
      if !ok {
        return None;
      }
      if |buf| <= MAX_LINE_LEN || buf[|buf| - 1] == NEWLINE {
        EndsHere(data, start, pos);
        return Some(LineRead(buf, |buf|, false));
      }
      PastTheBound(data, start, pos);
      buf := buf[..MAX_LINE_LEN];
      var total := MAX_LINE_LEN + 1;
      while true
        invariant Valid() && start + MAX_LINE_LEN < pos <= e && total == pos - start && LineEnd(data, pos) == e
        invariant data[pos - 1] != NEWLINE
        decreases |data| - pos
      {
        var available := Available();
        if available.None? || available.value == [] {
          TerminatedBy(data, start, e);
          return if available.None? then None else Some(LineRead(buf, total, true));
        }
        ChunkTells(data, pos, available.value);
        var nl := IndexOf(available.value, NEWLINE);
        var taken := if nl.Some? then nl.value + 1 else |available.value|;
        pos := pos + taken;
        total := total + taken;
        if nl.Some? {
          TerminatedBy(data, start, e);
          return Some(LineRead(buf, total, true));
        }
      }
    }

    /** The loop around it, to the end of the stream or the error: it reports every line that can be read,
        once and in order, and of a stream that does not break the counts add up to its length. */
    method ReadLines() returns (got: seq<LineRead>, ok: bool)
      requires Valid() && pos == 0
      modifies this`pos
      ensures got == AsReads(Lines(data, broken, 0)) && ok == !broken
      ensures Consumed(got) == if ok then |data| else Total(Lines(data, broken, 0))
    {
      hide LineEnd, Terminated, Lines, AsReads, Total, Consumed, Concat;
      got := [];
      ghost var done: seq<Str> := [];
      while true
        invariant Valid() && got == AsReads(done) && Lines(data, broken, 0) == done + Lines(data, broken, pos)
        decreases |data| - pos
      {
        ghost var start := pos;
        LinesFrom(data, broken, start);
        var line := ReadBoundedLine();
        if line.None? || line.value.count == 0 {
          assert done + [] == done;
          ConsumedTotal(done);
          AllConsumed(data, broken);
          return got, line.Some?;
        }
        ghost var l := data[start..pos];
        OneMoreRead(done, l, Lines(data, broken, pos));
        got := got + [line.value];
        done := done + [l];
      }
    }
  }

  /** Within a line a newline comes last. */
  lemma {:induction false} NewlineEndsLine(data: Str, start: nat, pos: nat)
    requires start < |data| && start < pos <= LineEnd(data, start)
    ensures data[pos - 1] == NEWLINE ==> pos == LineEnd(data, start)
    decreases |data| - start
  {
    if data[start] != NEWLINE && start + 1 < pos {
      NewlineEndsLine(data, start + 1, pos);
    }
  }

  /** A read that stays within the bound or ends in a newline is the whole line. */
  lemma {:induction false} EndsHere(data: Str, start: nat, pos: nat)
    requires start <= pos <= |data| && pos - start == Min(MAX_LINE_LEN + 1, LineEnd(data, start) - start)
    requires pos - start <= MAX_LINE_LEN || data[pos - 1] == NEWLINE
    ensures pos == LineEnd(data, start) && AsRead(data[start..pos]) == LineRead(data[start..pos], pos - start, false)
    ensures pos - start > MAX_LINE_LEN ==> Terminated(data, start)
  {
    if start < pos {
      NewlineEndsLine(data, start, pos);
    }
  }

  /** A longer one is cut short. */
  lemma {:induction false} PastTheBound(data: Str, start: nat, pos: nat)
    requires start < pos <= |data| && pos <= LineEnd(data, start) && pos - start == MAX_LINE_LEN + 1 && data[pos - 1] != NEWLINE
    ensures var e := LineEnd(data, start);
            LineEnd(data, pos) == e && AsRead(data[start..e]) == LineRead(data[start..pos][..MAX_LINE_LEN], e - start, true)
  {
    var e := LineEnd(data, start);
    NoNewlineYet(data, start, pos);
    LineEndAt(data, start, pos);
    if data[e - 1] == NEWLINE {
      assert e > pos;
    }
    assert data[start..e][..MAX_LINE_LEN] == data[start..pos][..MAX_LINE_LEN];
  }

  lemma {:induction false} TerminatedBy(data: Str, start: nat, e: nat)
    requires start < |data| && e == LineEnd(data, start)
    ensures Terminated(data, start) <==> data[e - 1] == NEWLINE
  {
  }

  lemma {:induction false} NoNewlineYet(data: Str, start: nat, pos: nat)
    requires start < pos <= |data| && pos <= LineEnd(data, start) && data[pos - 1] != NEWLINE
    ensures NEWLINE !in data[start..pos]
  {
    forall i | start <= i < pos - 1 ensures data[i] != NEWLINE {
      NewlineEndsLine(data, start, i + 1);
    }
  }
}
