/** The property-service wire protocol: the client's frames and send loop (system_property_set.rs), the
    server's decoders (socket_service.rs), and the validators both share (wire.rs). */
module Wire {
  import opened Base
  import opened TrieBuilder
  import opened PropertySerial
  import opened PropertyMemory
  import opened PropertyAreas
  import opened SystemProperty
  import opened BoundedLine

  /** Size of the name field of a V1 message, with its terminating NUL. */
  const PROP_NAME_MAX: nat := 32
  const PROP_MSG_SETPROP: nat := 1
  const PROP_MSG_SETPROP2: nat := 0x0002_0001
  const MAX_WIRE_NAME_LEN: nat := 1024
  const MAX_WIRE_VALUE_LEN: nat := 8192

  datatype WireError = Rejected | TimedOut | Closed | Broken | Refused

  type WireResult<T> = Outcome<T, WireError>

  // ---------------------------------------------------------------- names

  predicate NameChar(c: byte)
  {
    0x30 <= c <= 0x39 || 0x41 <= c <= 0x5A || 0x61 <= c <= 0x7A  // digits and letters
    || c == 0x5F || c == DOT || c == 0x2D || c == 0x40 || c == 0x3A  // _ . - @ :
  }

  /** Legal names: dot-separated non-empty segments of legal characters. */
  predicate LegalName(name: Str)
  {
    (forall c :: c in name ==> NameChar(c)) && [] !in Segments(name)
  }

  /** `validate_property_name`: one pass, remembering whether the last character was a dot. */
  method ValidatePropertyName(name: Str) returns (ok: bool)
    ensures ok <==> LegalName(name)
  {
    hide Segments, NameChar;
    SegmentsByDots(name);
    if name == [] || name[0] == DOT || name[|name| - 1] == DOT {
      return false;
    }
    var prevDot, i := false, 0;
    while i < |name|
      invariant 0 <= i <= |name|
      invariant forall k :: 0 <= k < i ==> NameChar(name[k])
      invariant forall k :: 0 <= k < i - 1 ==> !(name[k] == DOT && name[k + 1] == DOT)
      invariant prevDot <==> i > 0 && name[i - 1] == DOT
    {
      var c := name[i];
      if !NameChar(c) || (c == DOT && prevDot) {
        return false;
      }
      prevDot := c == DOT;
      i := i + 1;
    }
    return true;
  }

  /** The names taken, in bytes: digits, letters and `_ . - @ :`, with no dot at either end or next to another. */
  lemma {:induction false} LegalByText(name: Str)
    ensures LegalName(name) <==>
              name != [] && name[0] != 0x2E && name[|name| - 1] != 0x2E
              && (forall i :: 0 <= i < |name| - 1 ==> !(name[i] == 0x2E && name[i + 1] == 0x2E))
              && forall i :: 0 <= i < |name| ==>
                   0x30 <= name[i] <= 0x39 || 0x41 <= name[i] <= 0x5A || 0x61 <= name[i] <= 0x7A
                   || name[i] == 0x5F || name[i] == 0x2E || name[i] == 0x2D || name[i] == 0x40 || name[i] == 0x3A
  {
    hide Segments;
    SegmentsByDots(name);
    assert (forall c :: c in name ==> NameChar(c)) <==> forall i :: 0 <= i < |name| ==> NameChar(name[i]);
  }

  lemma {:induction false} LegalHasNoNul(name: Str)
    requires LegalName(name)
    ensures 0 !in name && name != []
  {
    SegmentsByDots(name);
    assert !NameChar(0);
  }

  // ---------------------------------------------------------------- sending

  /** How one write attempt goes: some bytes are taken, a signal interrupts it, or it fails. */
  datatype Attempt = Takes(n: nat) | Interrupted | Breaks

  /** What the attempts take together. */
  function Taken(attempts: seq<Attempt>): nat
  {
    if attempts == [] then 0 else (if attempts[0].Takes? then attempts[0].n else 0) + Taken(attempts[1..])
  }

  /** None of them breaks or takes nothing. */
  predicate Smooth(attempts: seq<Attempt>)
  {
    forall a :: a in attempts ==> a != Breaks && a != Takes(0)
  }

  /** Before anything goes wrong, if it does, `n` bytes have been taken. */
  ghost predicate Enough(attempts: seq<Attempt>, n: nat)
  {
    exists k: nat :: k <= |attempts| && Smooth(attempts[..k]) && Taken(attempts[..k]) >= n
  }

  /** The first attempt that goes wrong is this one. */
  predicate FailsAt(attempts: seq<Attempt>, k: nat)
  {
    k < |attempts| && Smooth(attempts[..k]) && (attempts[k] == Breaks || attempts[k] == Takes(0))
  }

  /** Whether a send of `n` bytes succeeds over these attempts, and how it fails: for want of time, because the
      connection is closed, or because it breaks. */
  ghost predicate EndsAs(attempts: seq<Attempt>, n: nat, r: WireResult<()>)
  {
    r != Err(Rejected) && r != Err(Refused)
    && (r.Ok? <==> Enough(attempts, n))
    && (r == Err(TimedOut) <==> !Enough(attempts, n) && Smooth(attempts))
    && (r.Err? ==> forall k: nat :: FailsAt(attempts, k) ==> r == Err(if attempts[k].Breaks? then Broken else Closed))
  }

  /** What becomes of the last `left` bytes, attempt by attempt. */
  function Sent(attempts: seq<Attempt>, left: nat): WireResult<()>
    decreases |attempts|
  {
    if left == 0 then Ok(())
    else if attempts == [] then Err(TimedOut)
    else
      match attempts[0]
      case Takes(n) => if n == 0 then Err(Closed) else Sent(attempts[1..], left - Min(n, left))
      case Interrupted => Sent(attempts[1..], left)
      case Breaks => Err(Broken)
  }

  lemma {:induction false} FirstOf(attempts: seq<Attempt>, k: nat)
    requires 0 < k <= |attempts|
    ensures attempts[..k][0] == attempts[0] && attempts[..k][1..] == attempts[1..][..k - 1]
    ensures Smooth(attempts[..k]) <==> attempts[0] != Breaks && attempts[0] != Takes(0) && Smooth(attempts[1..][..k - 1])
    ensures Taken(attempts[..k]) == (if attempts[0].Takes? then attempts[0].n else 0) + Taken(attempts[1..][..k - 1])
  {
    assert attempts[..k] == [attempts[0]] + attempts[1..][..k - 1];
    SmoothFirst(attempts[0], attempts[1..][..k - 1]);
  }

  lemma {:induction false} SmoothFirst(a: Attempt, rest: seq<Attempt>)
    ensures Smooth([a] + rest) <==> a != Breaks && a != Takes(0) && Smooth(rest)
  {
    var all := [a] + rest;
    assert a in all by { assert all[0] == a; }
    forall x | x in rest ensures x in all {
      var i :| 0 <= i < |rest| && rest[i] == x;
      assert all[i + 1] == x;
    }
  }

  lemma {:induction false} EnoughStep(attempts: seq<Attempt>, left: nat)
    requires attempts != [] && left > 0
    ensures Enough(attempts, left)
       <==> attempts[0] != Breaks && attempts[0] != Takes(0)
            && Enough(attempts[1..], if attempts[0].Takes? then left - Min(attempts[0].n, left) else left)
  {
    hide Smooth;
    var rest := attempts[1..];
    var less := if attempts[0].Takes? then left - Min(attempts[0].n, left) else left;
    forall k: nat | k <= |attempts| && Smooth(attempts[..k]) && Taken(attempts[..k]) >= left
      ensures attempts[0] != Breaks && attempts[0] != Takes(0) && Enough(rest, less)
    {
      NothingTaken(attempts);
      FirstOf(attempts, k);
      assert Smooth(rest[..k - 1]) && Taken(rest[..k - 1]) >= less;
    }
    if attempts[0] != Breaks && attempts[0] != Takes(0) && Enough(rest, less) {
      var j: nat :| j <= |rest| && Smooth(rest[..j]) && Taken(rest[..j]) >= less;
      FirstOf(attempts, j + 1);
      assert Smooth(attempts[..j + 1]) && Taken(attempts[..j + 1]) >= left;
    }
  }

  lemma {:induction false} NothingTaken(attempts: seq<Attempt>)
    ensures Taken(attempts[..0]) == 0
  {
  }

  lemma {:induction false} FailsStep(attempts: seq<Attempt>, k: nat)
    requires FailsAt(attempts, k)
    ensures k < |attempts|
    ensures if attempts[0] == Breaks || attempts[0] == Takes(0) then k == 0 else k > 0 && FailsAt(attempts[1..], k - 1)
  {
    if k > 0 {
      FirstOf(attempts, k);
    }
  }

  /** The attempts decide as `EndsAs` says. */
  lemma {:induction false} SentEndsAs(attempts: seq<Attempt>, left: nat)
    ensures EndsAs(attempts, left, Sent(attempts, left))
    decreases |attempts|
  {
    hide Enough, FailsAt, Taken, Smooth;
    if left == 0 || attempts == [] {
      AtOnce(attempts, left);
    } else {
      EnoughStep(attempts, left);
      forall k: nat | FailsAt(attempts, k)
        ensures k < |attempts|
        ensures if attempts[0] == Breaks || attempts[0] == Takes(0) then k == 0 else k > 0 && FailsAt(attempts[1..], k - 1)
      {
        FailsStep(attempts, k);
      }
      assert attempts == [attempts[0]] + attempts[1..];
      SmoothFirst(attempts[0], attempts[1..]);
      SentEndsAs(attempts[1..], if attempts[0].Takes? then left - Min(attempts[0].n, left) else left);
    }
  }

  lemma {:induction false} AtOnce(attempts: seq<Attempt>, left: nat)
    requires left == 0 || attempts == []
    ensures EndsAs(attempts, left, if left == 0 then Ok(()) else Err(TimedOut))
  {
    if left == 0 {
      assert Smooth(attempts[..0]) && Taken(attempts[..0]) >= 0;
    }
  }

  /** The client's end of a connection.  `attempts` is what the write calls will meet; when they are used
      up the time budget is too. */
  class Connection {
    var delivered: Str
    var attempts: seq<Attempt>

    constructor (attempts: seq<Attempt>)
      ensures delivered == [] && this.attempts == attempts
    {
      delivered := [];
      this.attempts := attempts;
    }

    /** `write_vectored`: at most all of the bytes offered; `None` for an interrupted call. */
    method WriteVectored(slices: seq<Str>) returns (r: WireResult<Option<nat>>)
      requires attempts != []
      modifies this
      ensures attempts == old(attempts)[1..]
      ensures match old(attempts)[0]
              case Takes(n) =>
                r == Ok(Some(Min(n, |Concat(slices)|))) && delivered == old(delivered) + Concat(slices)[..Min(n, |Concat(slices)|)]
              case Interrupted => r == Ok(None) && delivered == old(delivered)
              case Breaks => r == Err(Broken) && delivered == old(delivered)
    {
      var attempt := attempts[0];
      attempts := attempts[1..];
      match attempt {
        case Takes(n) =>
          var all := Concat(slices);
          var taken := Min(n, |all|);
          delivered := delivered + all[..taken];
          return Ok(Some(taken));
        case Interrupted => return Ok(None);
        case Breaks => return Err(Broken);
      }
    }
  }

  lemma {:induction false} ConcatAppend(parts: seq<Str>, part: Str)
    ensures Concat(parts + [part]) == Concat(parts) + part
    decreases |parts|
  {
    if parts == [] {
      assert [] + [part] == [part];
      assert Concat([part]) == part + Concat([part][1..]);
    } else {
      assert (parts + [part])[0] == parts[0] && (parts + [part])[1..] == parts[1..] + [part];
      ConcatAppend(parts[1..], part);
      assert Concat(parts + [part]) == parts[0] + (Concat(parts[1..]) + part);
    }
  }

  class ServiceWriter {
    var buffers: seq<Str>

    constructor ()
      ensures buffers == [] && Frame() == []
    {
      buffers := [];
    }

    /** The bytes that are to go out. */
    function Frame(): Str
      reads this
    {
      Concat(buffers)
    }

    method WriteU32(value: nat)
      requires value <= U32_MAX
      modifies this
      ensures Frame() == old(Frame()) + WordBytes(value)
    {
      ConcatAppend(buffers, WordBytes(value));
      buffers := buffers + [WordBytes(value)];
    }

    method WriteBytes(value: Str)
      modifies this
      ensures Frame() == old(Frame()) + value
    {
      ConcatAppend(buffers, value);
      buffers := buffers + [value];
    }

    /** A string with its length in front; a string too long for a 32-bit length is refused. */
    method WriteStr(value: Str) returns (r: WireResult<()>)
      modifies this
      ensures r.Ok? <==> |value| <= U32_MAX
      ensures Frame() == if r.Ok? then old(Frame()) + Prefixed(value) else old(Frame())
    {
      if |value| > U32_MAX {
        return Err(Rejected);
      }
      ghost var before := Frame();
      WriteU32(|value|);
      WriteBytes(value);
      assert before + WordBytes(|value|) + value == before + (WordBytes(|value|) + value);
      return Ok(());
    }

    /** The slices that are still to go out after the first `written` bytes. */
    method SlicesFrom(written: nat) returns (slices: seq<Str>)
      requires written <= |Frame()|
      ensures Concat(slices) == Frame()[written..]
    {
      var skip: nat, i: nat := written, 0;
      slices := [];
      assert buffers[0..] == buffers;
      while i < |buffers|
        invariant 0 <= i <= |buffers|
        invariant skip <= |Concat(buffers[i..])|
        invariant Frame()[written..] == Concat(slices) + Concat(buffers[i..])[skip..]
      {
        var buf := buffers[i];
        assert buffers[i..][0] == buf && buffers[i..][1..] == buffers[i + 1..];
        ghost var tail := Concat(buffers[i + 1..]);
        assert Concat(buffers[i..]) == buf + tail;
        if skip >= |buf| {
          assert (buf + tail)[skip..] == tail[skip - |buf|..];
          skip := skip - |buf|;
        } else {
          ConcatAppend(slices, buf[skip..]);
          assert Concat(slices) + (buf + tail)[skip..] == Concat(slices) + buf[skip..] + tail[0..];
          slices := slices + [buf[skip..]];
          skip := 0;
        }
        i := i + 1;
      }
    }

    /** Sends the frame, however the writes are cut up or interrupted: it succeeds exactly if the attempts are
        enough.  Success means that every byte went out, in order and once; failure that a proper part of the
        frame did. */
    method Send(conn: Connection) returns (r: WireResult<()>)
      modifies conn
      ensures EndsAs(old(conn.attempts), |Frame()|, r)
      ensures r.Ok? ==> conn.delivered == old(conn.delivered) + Frame()
      ensures r.Err? ==> exists n :: 0 <= n < |Frame()| && conn.delivered == old(conn.delivered) + Frame()[..n]
    {
      hide EndsAs, Concat;
      var total, written := |Frame()|, 0;
      ghost var frame, before := Frame(), conn.delivered;
      SentEndsAs(conn.attempts, total);
      while written < total
        invariant 0 <= written <= total && conn.delivered == before + frame[..written]
        invariant Frame() == frame && Sent(old(conn.attempts), total) == Sent(conn.attempts, total - written)
        decreases |conn.attempts|
      {
        if conn.attempts == [] {
          assert conn.delivered == old(conn.delivered) + Frame()[..written];
          return Err(TimedOut);
        }
        var slices := SlicesFrom(written);
        var outcome := conn.WriteVectored(slices);
        match outcome {
          case Err(e) =>
            assert conn.delivered == old(conn.delivered) + Frame()[..written];
            return Err(e);
          case Ok(None) =>
          case Ok(Some(n)) =>
            if n == 0 {
              assert conn.delivered == old(conn.delivered) + Frame()[..written];
              return Err(Closed);
            }
            assert frame[written..][..n] == frame[written..written + n];
            assert frame[..written] + frame[written..written + n] == frame[..written + n];
            written := written + n;
        }
      }
      assert frame[..total] == frame;
      return Ok(());
    }
  }

  // ---------------------------------------------------------------- frames

  function Prefixed(s: Str): Str
  {
    WordBytes(|s|) + s
  }

  function FrameV2(name: Str, value: Str): Str
  {
    WordBytes(PROP_MSG_SETPROP2) + Prefixed(name) + Prefixed(value)
  }

  /** A field of fixed size, NUL-padded. */
  function Padded(s: Str, size: nat): Str
    requires |s| <= size
  {
    s + Zeros(size - |s|)
  }

  function FrameV1(name: Str, value: Str): Str
    requires |name| < PROP_NAME_MAX && |value| < PROP_VALUE_MAX
  {
    WordBytes(PROP_MSG_SETPROP) + Padded(name, PROP_NAME_MAX) + Padded(value, PROP_VALUE_MAX)
  }

  lemma {:induction false} WordInBytes(w: nat)
    requires w < 0x1_0000
    ensures WordBytes(w) == [w % 256, w / 256, 0, 0]
  {
    assert w / 0x1_0000 == 0 && w / 0x100_0000 == 0;
    assert [w][..0] == [];
  }

  /** A V2 request, byte by byte: the command, and name and value with their lengths in front. */
  lemma {:induction false} FrameV2InBytes(name: Str, value: Str)
    requires |name| <= 1024 && |value| <= 8192
    ensures FrameV2(name, value)
         == [1, 0, 2, 0] + [|name| % 256, |name| / 256, 0, 0] + name + [|value| % 256, |value| / 256, 0, 0] + value
  {
    hide WordBytes;
    CommandBytes();
    WordInBytes(|name|);
    WordInBytes(|value|);
  }

  /** A V1 request, byte by byte: the command, the name in 32 bytes, and the value in 92. */
  lemma {:induction false} FrameV1InBytes(name: Str, value: Str)
    requires |name| < 32 && |value| < 92
    ensures FrameV1(name, value) == [1, 0, 0, 0] + name + Zeros(32 - |name|) + value + Zeros(92 - |value|)
  {
    hide WordBytes;
    WordInBytes(1);
  }

  lemma {:induction false} CommandBytes()
    ensures WordBytes(PROP_MSG_SETPROP2) == [1, 0, 2, 0]
  {
    assert [PROP_MSG_SETPROP2][..0] == [];
    assert 0x2_0001 % 0x100 == 1 && 0x2_0001 / 0x100 % 0x100 == 0 && 0x2_0001 / 0x1_0000 % 0x100 == 2 && 0x2_0001 / 0x100_0000 == 0;
  }

  // ---------------------------------------------------------------- decoding

  datatype Request = Request(name: Str, value: Str)

  /** What a server makes of the bytes of one connection. */
  datatype Decoded = Accepted(request: Request) | UnknownCommand | Malformed | Truncated

  /** `read_exact` and `read_string`: the string of `len` bytes at `off`. */
  function StringAt(b: Str, off: nat, len: nat): Decoded
  {
    if off + len > |b| then Truncated
    else if 0 in b[off..off + len] then Malformed
    else Accepted(Request(b[off..off + len], []))
  }

  /** `handle_setprop2`, after the command word. */
  function DecodeV2(b: Str): Decoded
  {
    if |b| < 8 then Truncated
    else
      var nameLen := Word(b, 4);
      if nameLen > MAX_WIRE_NAME_LEN then Malformed
      else
        match StringAt(b, 8, nameLen)
        case Accepted(n) =>
          var at := 8 + nameLen;
          if at + 4 > |b| then Truncated
          else if Word(b, at) > MAX_WIRE_VALUE_LEN then Malformed
          else
            (match StringAt(b, at + 4, Word(b, at))
             case Accepted(v) => Accepted(Request(n.name, v.name))
             case d => d)
        case d => d
  }

  /** `string_from_fixed`: up to the first NUL. */
  function FromFixed(field: Str): Str
  {
    match IndexOf(field, 0)
    case None => field
    case Some(i) => field[..i]
  }

  /** `handle_setprop_v1`: fixed fields, whose last byte counts as NUL whatever was sent. */
  function DecodeV1(b: Str): Decoded
  {
    if |b| < 4 + PROP_NAME_MAX + PROP_VALUE_MAX then Truncated
    else
      var name := b[4..4 + PROP_NAME_MAX - 1] + [0];
      var value := b[4 + PROP_NAME_MAX..4 + PROP_NAME_MAX + PROP_VALUE_MAX - 1] + [0];
      Accepted(Request(FromFixed(name), FromFixed(value)))
  }

  /** `handle_client`. */
  function Decode(b: Str): Decoded
  {
    if |b| < 4 then Truncated
    else if Word(b, 0) == PROP_MSG_SETPROP then DecodeV1(b)
    else if Word(b, 0) == PROP_MSG_SETPROP2 then DecodeV2(b)
    else UnknownCommand
  }

  // ---------------------------------------------------------------- the service

  /** The service takes the request: its validators accept it, and then the store does. */
  ghost predicate Settable(store: SystemProperties, request: Request)
    reads store, store.area, store.area.mem
  {
    LegalName(request.name) && ValidateValue(request.name, request.value).Ok?
    && (if request.name in store.area.contents then CanUpdate(request.name, request.value)
        else 0 in store.area.shape.nodes
             && CanAdd(store.area.shape, store.area.mem.Length, request.name, request.value))
  }

  /** The map after a request, given whether it was carried out. */
  function With(contents: map<Str, Str>, request: Request, ok: bool): map<Str, Str>
  {
    if ok then contents[request.name := request.value] else contents
  }

  /** `PropertiesService::handle`: the validators, then the store. */
  method HandleRequest(request: Request, store: SystemProperties) returns (ok: bool)
    requires store.Valid()
    modifies store, store.area, store.area.mem
    ensures store.Valid()
    ensures store.area.contents == With(old(store.area.contents), request, ok)
    ensures Follows(old(store.area.contents), store.area.contents)
    ensures ok <==> old(Settable(store, request))
  {
    hide LegalName, ValidateValue, CanUpdate, CanAdd, Follows, Linearizes, IndexesStay, SystemProperties.Valid;
    NothingFollows(store.area.contents);
    var legal := ValidatePropertyName(request.name);
    if !legal {
      return false;
    }
    if ValidateValue(request.name, request.value).Err? {
      return false;
    }
    var r := store.Set(request.name, request.value);
    return r.Ok?;
  }

  // ---------------------------------------------------------------- the server

  const PROP_SUCCESS: int := 0
  const PROP_ERROR: int := -1

  /** Two's complement. */
  function I32Word(v: int): nat
    requires -0x8000_0000 <= v < 0x8000_0000
  {
    if v < 0 then v + 0x1_0000_0000 else v
  }

  function I32Of(w: nat): int
    requires w <= U32_MAX
  {
    if w >= 0x8000_0000 then w - 0x1_0000_0000 else w
  }

  /** What the server answers (`send_response`). */
  function ReplyTo(ok: bool): Str
  {
    WordBytes(I32Word(if ok then PROP_SUCCESS else PROP_ERROR))
  }

  lemma {:induction false} ReplyInBytes()
    ensures ReplyTo(true) == [0, 0, 0, 0] && ReplyTo(false) == [255, 255, 255, 255]
  {
    WordInBytes(0);
    var w: int := 0xFFFF_FFFF;
    assert [w][..0] == [];
    assert w % 0x100 == 255 && w / 0x100 % 0x100 == 255 && w / 0x1_0000 % 0x100 == 255 && w / 0x100_0000 % 0x100 == 255;
  }

  /** What the server answers on a connection that brought `b`: nothing to a V1 message or when it ends before
      the first length word is complete, otherwise a status. */
  function Answer(b: Str, ok: bool): Str
  {
    if |b| < 4 || Word(b, 0) == PROP_MSG_SETPROP || (Word(b, 0) == PROP_MSG_SETPROP2 && |b| < 8) then [] else ReplyTo(ok)
  }

  /** The server's end of a connection: the bytes that arrive before it is closed, and the answer. */
  class ServerStream {
    const data: Str
    var pos: nat
    var answer: Str

    ghost predicate Valid()
      reads this
    {
      pos <= |data|
    }

    constructor (data: Str)
      ensures Valid() && this.data == data && pos == 0 && answer == []
    {
      this.data := data;
      pos := 0;
      answer := [];
    }

    /** `read_exact`: all of it, or the end of the stream. */
    method ReadExact(n: nat) returns (r: Option<Str>)
      requires Valid()
      modifies this`pos
      ensures Valid()
      ensures if old(pos) + n <= |data| then r == Some(data[old(pos)..old(pos) + n]) && pos == old(pos) + n else r == None
    {
      if pos + n > |data| {
        pos := |data|;
        return None;
      }
      r := Some(data[pos..pos + n]);
      pos := pos + n;
    }

    method ReadU32() returns (r: Option<nat>)
      requires Valid()
      modifies this`pos
      ensures Valid()
      ensures if old(pos) + 4 <= |data| then r == Some(Word(data, old(pos))) && pos == old(pos) + 4 else r == None
    {
      var b := ReadExact(4);
      if b.None? {
        return None;
      }
      return Some(Word(b.value, 0));
    }

    /** `read_string`: a NUL within the declared length makes the frame malformed. */
    method ReadString(len: nat) returns (r: Decoded)
      requires Valid()
      modifies this`pos
      ensures Valid() && r == StringAt(data, old(pos), len)
      ensures r.Accepted? ==> pos == old(pos) + len
    {
      if len == 0 {
        assert data[pos..pos] == [];
        return Accepted(Request([], []));
      }
      var buf := ReadExact(len);
      if buf.None? {
        return Truncated;
      }
      return if 0 in buf.value then Malformed else Accepted(Request(buf.value, []));
    }

    method SendResponse(ok: bool)
      modifies this`answer
      ensures answer == old(answer) + ReplyTo(ok)
    {
      answer := answer + ReplyTo(ok);
    }

    /** The fields of a V2 frame.  Whatever is wrong after the first length word is answered with an error. */
    method ReadSetprop2() returns (r: Decoded)
      requires Valid() && pos == 4 && answer == []
      modifies this`pos, this`answer
      ensures Valid() && r == DecodeV2(data)
      ensures answer == if r.Accepted? || |data| < 8 then [] else ReplyTo(false)
    {
      hide Word, ReplyTo;
      var nameLen := ReadU32();
      if nameLen.None? {
        return Truncated;
      }
      if nameLen.value > MAX_WIRE_NAME_LEN {
        SendResponse(false);
        return Malformed;
      }
      var name := ReadString(nameLen.value);
      if !name.Accepted? {
        SendResponse(false);
        return name;
      }
      var valueLen := ReadU32();
      if valueLen.None? {
        SendResponse(false);
        return Truncated;
      }
      if valueLen.value > MAX_WIRE_VALUE_LEN {
        SendResponse(false);
        return Malformed;
      }
      var value := ReadString(valueLen.value);
      if !value.Accepted? {
        SendResponse(false);
        return value;
      }
      return Accepted(Request(name.request.name, value.request.name));
    }

    /** A V2 exchange: every request is answered with its outcome. */
    method HandleSetprop2(store: SystemProperties) returns (r: Decoded, ok: bool)
      requires Valid() && pos == 4 && answer == [] && store.Valid()
      modifies this, store, store.area, store.area.mem
      ensures r == DecodeV2(data) && (ok <==> r.Accepted? && old(Settable(store, r.request)))
      ensures answer == if |data| < 8 then [] else ReplyTo(ok)
      ensures store.Valid() && Follows(old(store.area.contents), store.area.contents)
      ensures store.area.contents == if r.Accepted? then With(old(store.area.contents), r.request, ok) else old(store.area.contents)
    {
      hide Settable, Follows, ReplyTo, SystemProperties.Valid;
      NothingFollows(store.area.contents);
      r := ReadSetprop2();
      ok := false;
      if r.Accepted? {
        ok := HandleRequest(r.request, store);
        SendResponse(ok);
      }
    }

    /** The fields of a V1 message, whose last bytes count as NUL whatever was sent. */
    method ReadSetpropV1() returns (r: Decoded)
      requires Valid() && pos == 4
      modifies this`pos
      ensures Valid() && r == DecodeV1(data)
    {
      var nameBuf := ReadExact(PROP_NAME_MAX);
      if nameBuf.None? {
        return Truncated;
      }
      var valueBuf := ReadExact(PROP_VALUE_MAX);
      if valueBuf.None? {
        return Truncated;
      }
      var name, value := nameBuf.value[PROP_NAME_MAX - 1 := 0], valueBuf.value[PROP_VALUE_MAX - 1 := 0];
      assert name == data[4..4 + PROP_NAME_MAX - 1] + [0];
      assert value == data[4 + PROP_NAME_MAX..4 + PROP_NAME_MAX + PROP_VALUE_MAX - 1] + [0];
      return Accepted(Request(FromFixed(name), FromFixed(value)));
    }

    /** A V1 exchange: nothing is ever answered. */
    method HandleSetpropV1(store: SystemProperties) returns (r: Decoded, ok: bool)
      requires Valid() && pos == 4 && store.Valid()
      modifies this`pos, store, store.area, store.area.mem
      ensures r == DecodeV1(data) && (ok <==> r.Accepted? && old(Settable(store, r.request)))
      ensures store.Valid() && Follows(old(store.area.contents), store.area.contents)
      ensures store.area.contents == if r.Accepted? then With(old(store.area.contents), r.request, ok) else old(store.area.contents)
    {
      hide Settable, Follows, SystemProperties.Valid;
      NothingFollows(store.area.contents);
      r := ReadSetpropV1();
      ok := false;
      if r.Accepted? {
        ok := HandleRequest(r.request, store);
      }
    }

    /** One client exchange: what is decoded is carried out, and the answer tells whether it was. */
    method HandleClient(store: SystemProperties) returns (r: Decoded, ok: bool)
      requires Valid() && pos == 0 && answer == [] && store.Valid()
      modifies this, store, store.area, store.area.mem
      ensures r == Decode(data) && (ok <==> r.Accepted? && old(Settable(store, r.request)))
      ensures answer == Answer(data, ok)
      ensures store.Valid() && Follows(old(store.area.contents), store.area.contents)
      ensures store.area.contents == if r.Accepted? then With(old(store.area.contents), r.request, ok) else old(store.area.contents)
    {
      hide DecodeV1, DecodeV2, Word, Settable, Follows, ReplyTo, SystemProperties.Valid;
      NothingFollows(store.area.contents);
      var cmd := ReadU32();
      if cmd.None? {
        return Truncated, false;
      }
      if cmd.value == PROP_MSG_SETPROP {
        r, ok := HandleSetpropV1(store);
      } else if cmd.value == PROP_MSG_SETPROP2 {
        r, ok := HandleSetprop2(store);
      } else {
        SendResponse(false);
        r, ok := UnknownCommand, false;
      }
    }
  }

  // ---------------------------------------------------------------- round trips

  lemma {:induction false} WordAhead(pre: Str, w: nat, post: Str)
    requires w <= U32_MAX
    ensures Word(pre + WordBytes(w) + post, |pre|) == w
  {
    var m := pre + WordBytes(w) + post;
    assert m[|pre|..|pre| + 4] == WordBytes(w);
    SubOfWord(m, |pre|, w);
  }

  lemma {:induction false} StringAhead(pre: Str, s: Str, post: Str)
    requires 0 !in s
    ensures StringAt(pre + s + post, |pre|, |s|) == Accepted(Request(s, []))
  {
    MiddleIs(pre, s, post);
  }

  /** The V2 decoder undoes the V2 frame, whatever follows it. */
  lemma {:induction false} DecodesV2(name: Str, value: Str, more: Str)
    requires |name| <= MAX_WIRE_NAME_LEN && |value| <= MAX_WIRE_VALUE_LEN && 0 !in name && 0 !in value
    ensures Decode(FrameV2(name, value) + more) == Accepted(Request(name, value))
  {
    hide Word, WordBytes, StringAt;
    var b := FrameV2(name, value) + more;
    var c, n, v := WordBytes(PROP_MSG_SETPROP2), WordBytes(|name|), WordBytes(|value|);
    assert b == [] + c + (n + name + v + value + more);
    WordAhead([], PROP_MSG_SETPROP2, n + name + v + value + more);
    assert b == c + n + (name + v + value + more);
    WordAhead(c, |name|, name + v + value + more);
    assert b == (c + n) + name + (v + value + more);
    StringAhead(c + n, name, v + value + more);
    assert b == (c + n + name) + v + (value + more);
    WordAhead(c + n + name, |value|, value + more);
    assert b == (c + n + name + v) + value + more;
    StringAhead(c + n + name + v, value, more);
  }

  lemma {:induction false} PaddedReads(s: Str, size: nat)
    requires |s| < size && 0 !in s
    ensures FromFixed(Padded(s, size)[..size - 1] + [0]) == s
  {
    var field := Padded(s, size)[..size - 1] + [0];
    assert field[|s|] == 0 && field[..|s|] == s;
    IndexOfUnique(field, 0, |s|);
  }

  /** The V1 decoder undoes the V1 message: what fits its fields with a NUL to spare comes back whole. */
  lemma {:induction false} DecodesV1(name: Str, value: Str)
    requires |name| < PROP_NAME_MAX && |value| < PROP_VALUE_MAX && 0 !in name && 0 !in value
    ensures Decode(FrameV1(name, value)) == Accepted(Request(name, value))
  {
    hide Word, WordBytes, FromFixed, Padded;
    var b := FrameV1(name, value);
    var c, n, v := WordBytes(PROP_MSG_SETPROP), Padded(name, PROP_NAME_MAX), Padded(value, PROP_VALUE_MAX);
    PaddedLength(name, PROP_NAME_MAX);
    PaddedLength(value, PROP_VALUE_MAX);
    assert b == [] + c + (n + v);
    WordAhead([], PROP_MSG_SETPROP, n + v);
    assert b[4..4 + PROP_NAME_MAX - 1] == n[..PROP_NAME_MAX - 1];
    assert b[4 + PROP_NAME_MAX..4 + PROP_NAME_MAX + PROP_VALUE_MAX - 1] == v[..PROP_VALUE_MAX - 1];
    PaddedReads(name, PROP_NAME_MAX);
    PaddedReads(value, PROP_VALUE_MAX);
  }

  lemma {:induction false} PaddedLength(s: Str, size: nat)
    requires |s| <= size
    ensures |Padded(s, size)| == size
  {
  }

  lemma {:induction false} MiddleIs(pre: Str, s: Str, post: Str)
    ensures (pre + s + post)[|pre|..|pre| + |s|] == s
  {
  }

  lemma {:induction false} SliceOfPrefix(b: Str, n: nat, lo: nat, hi: nat)
    requires lo <= hi <= n <= |b|
    ensures b[..n][lo..hi] == b[lo..hi]
  {
  }

  lemma {:induction false} WordOfPrefix(b: Str, n: nat, at: nat)
    requires at + 4 <= n <= |b|
    ensures Word(b[..n], at) == Word(b, at)
  {
  }

  /** No proper part of a frame decodes to anything: a send that failed half-way sets nothing. */
  lemma {:induction false} PartOfV2(name: Str, value: Str, n: nat)
    requires |name| <= MAX_WIRE_NAME_LEN && |value| <= MAX_WIRE_VALUE_LEN && 0 !in name && 0 !in value
    requires n < |FrameV2(name, value)|
    ensures Decode(FrameV2(name, value)[..n]) == Truncated
  {
    hide Word, WordBytes;
    var frame := FrameV2(name, value);
    var b := frame[..n];
    var c, l, v := WordBytes(PROP_MSG_SETPROP2), WordBytes(|name|), WordBytes(|value|);
    assert frame == [] + c + (l + name + v + value) == c + l + (name + v + value) == (c + l + name) + v + value;
    WordAhead([], PROP_MSG_SETPROP2, l + name + v + value);
    WordAhead(c, |name|, name + v + value);
    WordAhead(c + l + name, |value|, value);
    if n >= 8 {
      WordOfPrefix(frame, n, 0);
      WordOfPrefix(frame, n, 4);
      if n >= 8 + |name| {
        assert frame == (c + l) + name + (v + value);
        MiddleIs(c + l, name, v + value);
        SliceOfPrefix(frame, n, 8, 8 + |name|);
        if n >= 8 + |name| + 4 {
          WordOfPrefix(frame, n, 8 + |name|);
        }
      }
    } else if n >= 4 {
      WordOfPrefix(frame, n, 0);
    }
  }

  lemma {:induction false} PartOfV1(name: Str, value: Str, n: nat)
    requires |name| < PROP_NAME_MAX && |value| < PROP_VALUE_MAX && n < |FrameV1(name, value)|
    ensures Decode(FrameV1(name, value)[..n]) == Truncated
  {
    hide Word, WordBytes;
    var frame := FrameV1(name, value);
    var rest := Padded(name, PROP_NAME_MAX) + Padded(value, PROP_VALUE_MAX);
    assert frame == [] + WordBytes(PROP_MSG_SETPROP) + rest;
    WordAhead([], PROP_MSG_SETPROP, rest);
    if n >= 4 {
      WordOfPrefix(frame, n, 0);
    }
  }

  lemma {:induction false} BytesOfWord(b0: byte, b1: byte, b2: byte, b3: byte)
    ensures var w: int := b0 as int + 0x100 * b1 as int + 0x1_0000 * b2 as int + 0x100_0000 * b3 as int;
            ByteOf(w, 0) == b0 && ByteOf(w, 1) == b1 && ByteOf(w, 2) == b2 && ByteOf(w, 3) == b3
  {
    var c0: nat, c1: nat, c2: nat, c3: nat := b0, b1, b2, b3;
    Quotient(c1 + 0x100 * c2 + 0x1_0000 * c3, 0x100, c0);
    Quotient(c2 + 0x100 * c3, 0x100, c1);
    Quotient(c2 + 0x100 * c3, 0x1_0000, c0 + 0x100 * c1);
    Quotient(c3, 0x100, c2);
    Quotient(c3, 0x100_0000, c0 + 0x100 * c1 + 0x1_0000 * c2);
    Quotient(0, 0x100, c3);
  }

  lemma {:induction false} WordBytesOf(b: Str, at: nat)
    requires at + 4 <= |b|
    ensures WordBytes(Word(b, at)) == b[at..at + 4]
  {
    hide ByteOf;
    BytesOfWord(b[at], b[at + 1], b[at + 2], b[at + 3]);
    var w := Word(b, at);
    assert [w][..0] == [];
    assert WordBytes(w) == [ByteOf(w, 0), ByteOf(w, 1), ByteOf(w, 2), ByteOf(w, 3)];
  }

  /** The server takes a V2 request exactly from the bytes of its frame, whatever follows them, within the caps. */
  lemma {:induction false} DecodesExactlyV2(b: Str, name: Str, value: Str)
    ensures |b| >= 4 && b[..4] == [1, 0, 2, 0] && Decode(b) == Accepted(Request(name, value))
       <==> |name| <= 1024 && |value| <= 8192 && 0 !in name && 0 !in value && FrameV2(name, value) <= b
  {
    hide Decode, FrameV2;
    if |b| >= 4 && b[..4] == [1, 0, 2, 0] && Decode(b) == Accepted(Request(name, value)) {
      DecodedIsFrame(b, name, value);
    }
    if |name| <= 1024 && |value| <= 8192 && 0 !in name && 0 !in value && FrameV2(name, value) <= b {
      var frame := FrameV2(name, value);
      assert b == frame + b[|frame|..];
      DecodesV2(name, value, b[|frame|..]);
      FrameV2InBytes(name, value);
      assert frame[..4] == [1, 0, 2, 0];
    }
  }

  lemma {:induction false} DecodedIsFrame(b: Str, name: Str, value: Str)
    requires |b| >= 4 && b[..4] == [1, 0, 2, 0] && Decode(b) == Accepted(Request(name, value))
    ensures |name| <= 1024 && |value| <= 8192 && 0 !in name && 0 !in value && FrameV2(name, value) <= b
  {
    hide Word, WordBytes;
    CommandIs(b);
    WordBytesOf(b, 0);
    WordBytesOf(b, 4);
    WordBytesOf(b, 8 + |name|);
    assert name == b[8..8 + |name|] && value == b[12 + |name|..12 + |name| + |value|];
    var n := 12 + |name| + |value|;
    assert b[..n] == b[0..4] + (b[4..8] + b[8..8 + |name|]) + (b[8 + |name|..12 + |name|] + b[12 + |name|..n]);
    assert FrameV2(name, value) == b[..n];
  }

  lemma {:induction false} CommandIs(b: Str)
    requires |b| >= 4
    ensures b[..4] == [1, 0, 2, 0] <==> Word(b, 0) == 0x2_0001
    ensures b[..4] == [1, 0, 0, 0] <==> Word(b, 0) == 1
  {
    hide Word, WordBytes;
    WordBytesOf(b, 0);
    CommandBytes();
    WordInBytes(1);
    assert b[0..4] == b[..4];
    CommandWord(b);
  }

  lemma {:induction false} CommandWord(b: Str)
    requires |b| >= 4
    ensures b[..4] == [1, 0, 2, 0] ==> Word(b, 0) == 0x2_0001
    ensures b[..4] == [1, 0, 0, 0] ==> Word(b, 0) == 1
  {
    assert b[0] == b[..4][0] && b[1] == b[..4][1] && b[2] == b[..4][2] && b[3] == b[..4][3];
  }

  /** The server takes a V1 request from 128 bytes: what its fields hold up to a NUL, which the last byte of each
      counts as. */
  lemma {:induction false} DecodesExactlyV1(b: Str, name: Str, value: Str)
    requires |b| >= 4 && b[..4] == [1, 0, 0, 0]
    ensures Decode(b) == Accepted(Request(name, value))
       <==> |b| >= 128 && FieldHolds(b[4..36], name) && FieldHolds(b[36..128], value)
  {
    hide Word, FromFixed, FieldHolds;
    CommandIs(b);
    if |b| >= 128 {
      assert b[4..36][..31] == b[4..35] && b[36..128][..91] == b[36..127];
      HoldsExactly(b[4..36], name);
      HoldsExactly(b[36..128], value);
    }
  }

  /** The field begins with `s`, which has no NUL and leaves out at least the last byte, and a NUL or only that last
      byte follows it. */
  predicate FieldHolds(field: Str, s: Str)
  {
    |s| < |field| && s <= field && 0 !in s && (field[|s|] == 0 || |s| == |field| - 1)
  }

  lemma {:induction false} HoldsExactly(field: Str, s: Str)
    requires field != []
    ensures FromFixed(field[..|field| - 1] + [0]) == s <==> FieldHolds(field, s)
  {
    var forced := field[..|field| - 1] + [0];
    assert forced[|field| - 1] == 0;
    var p := FromFixed(forced);
    assert p == forced[..|p|] && p == field[..|p|];
    if FieldHolds(field, s) {
      assert forced[..|s|] == s;
      IndexOfUnique(forced, 0, |s|);
    }
  }

  /** What is answered, in bytes: nothing to less than a command word, to a V1 request, or to a V2 request without its
      first length; four bytes otherwise. */
  lemma {:induction false} AnswerInBytes(b: Str, ok: bool)
    ensures Answer(b, ok)
         == if |b| < 4 || b[..4] == [1, 0, 0, 0] || (b[..4] == [1, 0, 2, 0] && |b| < 8) then []
            else if ok then [0, 0, 0, 0] else [255, 255, 255, 255]
  {
    hide Word, ReplyTo;
    ReplyInBytes();
    if |b| >= 4 {
      CommandIs(b);
    }
  }

  // ---------------------------------------------------------------- the client

  datatype Version = V1 | V2

  /** What the client takes, by protocol version. */
  predicate Sendable(name: Str, value: Str, version: Version)
  {
    LegalName(name) && ValidateValue(name, value).Ok?
    && match version
       case V1 => |name| < PROP_NAME_MAX && |value| < PROP_VALUE_MAX
       case V2 => |name| <= MAX_WIRE_NAME_LEN && |value| <= MAX_WIRE_VALUE_LEN
  }

  /** The caps in numbers: over V1 names of up to 31 bytes and values of up to 91; over V2 names of up to 1024 bytes,
      and values of up to 91 unless the name begins with `ro.`, which may have up to 8192. */
  lemma {:induction false} SendableInNumbers(name: Str, value: Str, version: Version)
    ensures Sendable(name, value, version) <==>
              LegalName(name) && 0 !in value
              && (match version
                  case V1 => |name| <= 31 && |value| <= 91
                  case V2 => |name| <= 1024 && |value| <= if name[..Min(3, |name|)] == [0x72, 0x6F, 0x2E] then 8192 else 91)
  {
    hide LegalName;
    ValidatorsByBytes(name, value);
    assert 0 !in value <==> forall i :: 0 <= i < |value| ==> value[i] != 0;
  }

  function FrameOf(name: Str, value: Str, version: Version): Str
    requires Sendable(name, value, version)
  {
    match version
    case V1 => FrameV1(name, value)
    case V2 => FrameV2(name, value)
  }

  /** Whatever part of a frame arrives: all of it decodes to the request, less to nothing. */
  lemma {:induction false} PartDecodes(name: Str, value: Str, version: Version, n: nat)
    requires Sendable(name, value, version) && n <= |FrameOf(name, value, version)|
    ensures var frame := FrameOf(name, value, version);
            Decode(frame[..n]) == if n == |frame| then Accepted(Request(name, value)) else Truncated
  {
    hide LegalName, ValidateValue, Decode, FrameV1, FrameV2;
    var frame := FrameOf(name, value, version);
    LegalHasNoNul(name);
    StorableHasNoNul(name, value);
    assert frame[..|frame|] == frame == frame + [];
    if version == V1 {
      if n == |frame| { DecodesV1(name, value); } else { PartOfV1(name, value, n); }
    } else {
      if n == |frame| { DecodesV2(name, value, []); } else { PartOfV2(name, value, n); }
    }
  }

  /** The client's `set`, up to the end of the send: it succeeds exactly if the client takes the request and the
      attempts are enough for its frame.  If it succeeds the server decodes exactly this name and value from what
      was delivered and its validators accept them; if it fails the server decodes no request at all. */
  method SendRequest(conn: Connection, name: Str, value: Str, version: Version) returns (r: WireResult<()>)
    requires conn.delivered == []
    modifies conn
    ensures r.Ok? ==> Sendable(name, value, version) && Decode(conn.delivered) == Accepted(Request(name, value))
    ensures r.Err? ==> Decode(conn.delivered) == Truncated
    ensures r == Err(Rejected) <==> !Sendable(name, value, version)
    ensures if Sendable(name, value, version)
            then EndsAs(old(conn.attempts), |FrameOf(name, value, version)|, r) && conn.delivered <= FrameOf(name, value, version)
            else conn.delivered == []
  {
    hide Enough, FailsAt, LegalName, ValidateValue, Decode, FrameV1, FrameV2, WordBytes;
    NothingDecodes();
    var legal := ValidatePropertyName(name);
    if !legal || ValidateValue(name, value).Err? {
      return Err(Rejected);
    }
    if version == V1 && (|name| >= PROP_NAME_MAX || |value| >= PROP_VALUE_MAX) {
      return Err(Rejected);
    }
    if version == V2 && (|name| > MAX_WIRE_NAME_LEN || |value| > MAX_WIRE_VALUE_LEN) {
      return Err(Rejected);
    }
    var writer := new ServiceWriter();
    ghost var frame := FrameOf(name, value, version);
    if version == V1 {
      writer.WriteBytes(FrameV1(name, value));
    } else {
      writer.WriteU32(PROP_MSG_SETPROP2);
      // Within the caps the length always fits its word.
      var nameWritten := writer.WriteStr(name);
      var valueWritten := writer.WriteStr(value);
    }
    FrameBuilt(name, value);
    assert [] + frame == frame;
    assert writer.Frame() == frame;
    r := writer.Send(conn);
    ghost var n :| 0 <= n <= |frame| && conn.delivered == frame[..n] && (r.Ok? <==> n == |frame|);
    PartDecodes(name, value, version, n);
  }

  lemma {:induction false} NothingDecodes()
    ensures Decode([]) == Truncated
  {
  }

  lemma {:induction false} StorableHasNoNul(name: Str, value: Str)
    requires ValidateValue(name, value).Ok?
    ensures 0 !in value
  {
  }

  lemma {:induction false} FrameBuilt(name: Str, value: Str)
    ensures [] + WordBytes(PROP_MSG_SETPROP2) + Prefixed(name) + Prefixed(value) == FrameV2(name, value)
  {
  }

  // ---------------------------------------------------------------- the reply

  /** What the attempts can give together: a read that gives anything gives at least a byte. */
  function Offered(attempts: seq<Attempt>): nat
  {
    if attempts == [] then 0
    else (if attempts[0].Takes? then (if attempts[0].n == 0 then 1 else attempts[0].n) else 0) + Offered(attempts[1..])
  }

  /** Of `left` bytes, `need` are given before anything breaks. */
  ghost predicate Comes(attempts: seq<Attempt>, need: nat, left: nat)
  {
    left >= need && exists k: nat :: k <= |attempts| && Breaks !in attempts[..k] && Offered(attempts[..k]) >= need
  }

  /** All of the `left` bytes, too few, are given, and then the end is read. */
  ghost predicate EndsEarly(attempts: seq<Attempt>, need: nat, left: nat)
  {
    left < need
    && exists k: nat ::
         k < |attempts| && Breaks !in attempts[..k] && Offered(attempts[..k]) >= left && attempts[k].Takes?
  }

  /** How reading `need` of `left` bytes ends: with all of them, at the end of the stream, with a broken
      connection, or for want of time. */
  ghost predicate ComesAs(attempts: seq<Attempt>, need: nat, left: nat, r: WireResult<()>)
  {
    r == if Comes(attempts, need, left) then Ok(()) else if EndsEarly(attempts, need, left) then Err(Closed)
         else if Breaks in attempts then Err(Broken) else Err(TimedOut)
  }

  /** What becomes of the last `need` bytes, attempt by attempt, when `left` are still to come. */
  function Received(attempts: seq<Attempt>, need: nat, left: nat): WireResult<()>
    decreases |attempts|
  {
    if need == 0 then Ok(())
    else if attempts == [] then Err(TimedOut)
    else
      match attempts[0]
      case Takes(n) =>
        if left == 0 then Err(Closed)
        else var given := Given(n, need, left); Received(attempts[1..], need - given, left - given)
      case Interrupted => Received(attempts[1..], need, left)
      case Breaks => Err(Broken)
  }

  function Given(n: nat, need: nat, left: nat): (g: nat)
    ensures g <= need && g <= left
  {
    Min(if n == 0 then 1 else n, Min(need, left))
  }

  lemma {:induction false} FirstOffered(attempts: seq<Attempt>, k: nat)
    requires 0 < k <= |attempts|
    ensures Breaks in attempts[..k] <==> attempts[0] == Breaks || Breaks in attempts[1..][..k - 1]
    ensures Offered(attempts[..k]) == Offered(attempts[..1]) + Offered(attempts[1..][..k - 1])
  {
    var front, rest := attempts[..1], attempts[1..][..k - 1];
    assert attempts[..k] == front + rest && attempts[..k][1..] == rest && front[1..] == [];
    assert front[0] == attempts[0] == attempts[..k][0];
  }

  lemma {:induction false} OfferedOne(attempts: seq<Attempt>)
    requires attempts != []
    ensures Offered(attempts[..0]) == 0
    ensures Offered(attempts[..1]) == if attempts[0].Takes? then (if attempts[0].n == 0 then 1 else attempts[0].n) else 0
  {
    assert attempts[..1][1..] == [];
  }

  /** What is still to come after the first attempt. */
  function After(attempts: seq<Attempt>, need: nat, left: nat, of: nat): nat
    requires attempts != [] && of >= Min(need, left)
  {
    if attempts[0].Takes? then of - Given(attempts[0].n, need, left) else of
  }

  lemma {:induction false} ComesStep(attempts: seq<Attempt>, need: nat, left: nat)
    requires attempts != [] && need > 0 && left > 0
    ensures Comes(attempts, need, left)
       <==> attempts[0] != Breaks && Comes(attempts[1..], After(attempts, need, left, need), After(attempts, need, left, left))
  {
    hide Offered;
    var rest, need', left' := attempts[1..], After(attempts, need, left, need), After(attempts, need, left, left);
    OfferedOne(attempts);
    forall k: nat | k <= |attempts| && Breaks !in attempts[..k] && Offered(attempts[..k]) >= need && left >= need
      ensures attempts[0] != Breaks && Comes(rest, need', left')
    {
      FirstOffered(attempts, k);
      assert Breaks !in rest[..k - 1] && Offered(rest[..k - 1]) >= need';
    }
    if attempts[0] != Breaks && Comes(rest, need', left') {
      var j: nat :| j <= |rest| && Breaks !in rest[..j] && Offered(rest[..j]) >= need';
      FirstOffered(attempts, j + 1);
      assert Breaks !in attempts[..j + 1] && Offered(attempts[..j + 1]) >= need;
    }
  }

  lemma {:induction false} EarlyStep(attempts: seq<Attempt>, need: nat, left: nat)
    requires attempts != [] && need > 0 && left > 0
    ensures EndsEarly(attempts, need, left)
       <==> attempts[0] != Breaks && EndsEarly(attempts[1..], After(attempts, need, left, need), After(attempts, need, left, left))
  {
    hide Offered;
    var rest, need', left' := attempts[1..], After(attempts, need, left, need), After(attempts, need, left, left);
    OfferedOne(attempts);
    forall k: nat | k < |attempts| && Breaks !in attempts[..k] && Offered(attempts[..k]) >= left && attempts[k].Takes? && left < need
      ensures attempts[0] != Breaks && EndsEarly(rest, need', left')
    {
      FirstOffered(attempts, k);
      assert Breaks !in rest[..k - 1] && Offered(rest[..k - 1]) >= left' && rest[k - 1].Takes?;
    }
    if attempts[0] != Breaks && EndsEarly(rest, need', left') {
      var j: nat :| j < |rest| && Breaks !in rest[..j] && Offered(rest[..j]) >= left' && rest[j].Takes?;
      FirstOffered(attempts, j + 1);
      assert Breaks !in attempts[..j + 1] && Offered(attempts[..j + 1]) >= left && attempts[j + 1].Takes?;
    }
  }

  /** The attempts decide as `ComesAs` says. */
  lemma {:induction false} ReceivedComesAs(attempts: seq<Attempt>, need: nat, left: nat)
    ensures ComesAs(attempts, need, left, Received(attempts, need, left))
    decreases |attempts|
  {
    hide Comes, EndsEarly, Given, After;
    if need == 0 || attempts == [] {
      ComesAtOnce(attempts, need, left);
    } else if left == 0 {
      NothingComes(attempts, need);
      NoneLeft(attempts[1..], need);
      ReceivedComesAs(attempts[1..], need, left);
      assert attempts == [attempts[0]] + attempts[1..];
    } else {
      ComesStep(attempts, need, left);
      EarlyStep(attempts, need, left);
      AfterIs(attempts, need, left);
      ReceivedComesAs(attempts[1..], After(attempts, need, left, need), After(attempts, need, left, left));
      assert attempts == [attempts[0]] + attempts[1..];
    }
  }

  lemma {:induction false} AfterIs(attempts: seq<Attempt>, need: nat, left: nat)
    requires attempts != []
    ensures attempts[0].Takes? ==>
              After(attempts, need, left, need) == need - Given(attempts[0].n, need, left)
              && After(attempts, need, left, left) == left - Given(attempts[0].n, need, left)
    ensures !attempts[0].Takes? ==> After(attempts, need, left, need) == need && After(attempts, need, left, left) == left
  {
  }

  lemma {:induction false} ComesAtOnce(attempts: seq<Attempt>, need: nat, left: nat)
    requires need == 0 || attempts == []
    ensures Comes(attempts, need, left) <==> need == 0
    ensures !EndsEarly(attempts, need, left)
  {
    if need == 0 {
      assert Breaks !in attempts[..0] && Offered(attempts[..0]) >= 0;
    }
  }

  lemma {:induction false} NoneLeft(attempts: seq<Attempt>, need: nat)
    requires need > 0
    ensures !Comes(attempts, need, 0)
  {
  }

  lemma {:induction false} NothingComes(attempts: seq<Attempt>, need: nat)
    requires attempts != [] && need > 0
    ensures !Comes(attempts, need, 0)
    ensures EndsEarly(attempts, need, 0) <==> attempts[0].Takes? || (attempts[0].Interrupted? && EndsEarly(attempts[1..], need, 0))
  {
    hide Offered;
    var rest := attempts[1..];
    if attempts[0].Takes? {
      assert Breaks !in attempts[..0] && Offered(attempts[..0]) >= 0;
    } else {
      forall k: nat | k < |attempts| && Breaks !in attempts[..k] && attempts[k].Takes?
        ensures attempts[0].Interrupted? && EndsEarly(rest, need, 0)
      {
        FirstOffered(attempts, k);
        assert Breaks !in rest[..k - 1] && Offered(rest[..k - 1]) >= 0 && rest[k - 1].Takes?;
      }
      if attempts[0].Interrupted? && EndsEarly(rest, need, 0) {
        var j: nat :| j < |rest| && Breaks !in rest[..j] && rest[j].Takes?;
        FirstOffered(attempts, j + 1);
        assert Breaks !in attempts[..j + 1] && Offered(attempts[..j + 1]) >= 0 && attempts[j + 1].Takes?;
      }
    }
  }

  /** The reading side of the client's connection: what the server sends back, and how the reads go. */
  class ReplyStream {
    const incoming: Str
    var pos: nat
    var attempts: seq<Attempt>

    ghost predicate Valid()
      reads this
    {
      pos <= |incoming|
    }

    constructor (incoming: Str, attempts: seq<Attempt>)
      ensures Valid() && this.incoming == incoming && pos == 0 && this.attempts == attempts
    {
      this.incoming := incoming;
      this.attempts := attempts;
      pos := 0;
    }

    /** `read` into a buffer of `room` bytes: some bytes, none at the end of the stream, or an interruption. */
    method Read(room: nat) returns (r: WireResult<Option<Str>>)
      requires Valid() && attempts != [] && room > 0
      modifies this`pos, this`attempts
      ensures Valid() && attempts == old(attempts)[1..]
      ensures match old(attempts)[0]
              case Takes(n) =>
                pos == old(pos) + Given(n, room, |incoming| - old(pos)) && r == Ok(Some(incoming[old(pos)..pos]))
              case Interrupted => pos == old(pos) && r == Ok(None)
              case Breaks => pos == old(pos) && r == Err(Broken)
    {
      var attempt := attempts[0];
      attempts := attempts[1..];
      match attempt {
        case Takes(n) =>
          var given := Given(n, room, |incoming| - pos);
          r := Ok(Some(incoming[pos..pos + given]));
          pos := pos + given;
        case Interrupted => return Ok(None);
        case Breaks => return Err(Broken);
      }
    }

    /** `recv_i32`: the first four bytes of the reply, however they trickle in; it succeeds exactly if four bytes
        come back. */
    method RecvI32() returns (r: WireResult<int>)
      requires Valid() && pos == 0
      modifies this
      ensures ComesAs(old(attempts), 4, |incoming|, if r.Ok? then Ok(()) else Err(r.error))
      ensures r.Ok? ==> |incoming| >= 4 && r.value == I32Of(Word(incoming, 0))
    {
      hide ComesAs, Word, I32Of;
      var buf: Str := [];
      ReceivedComesAs(attempts, 4, |incoming|);
      while |buf| < 4
        invariant Valid() && |buf| <= 4 && pos == |buf| && buf == incoming[..pos]
        invariant Received(old(attempts), 4, |incoming|) == Received(attempts, 4 - |buf|, |incoming| - pos)
        decreases |attempts|
      {
        if attempts == [] {
          return Err(TimedOut);
        }
        var got := Read(4 - |buf|);
        match got {
          case Err(e) => return Err(e);
          case Ok(None) =>
          case Ok(Some(part)) =>
            if part == [] {
              return Err(Closed);
            }
            assert incoming[..pos] == incoming[..|buf|] + part;
            buf := buf + part;
        }
      }
      WordOfPrefix(incoming, 4, 0);
      return Ok(I32Of(Word(buf, 0)));
    }
  }

  /** The client takes the server's answer for what it is. */
  lemma {:induction false} ReplyReads(ok: bool, more: Str)
    ensures |ReplyTo(ok) + more| >= 4
    ensures I32Of(Word(ReplyTo(ok) + more, 0)) == PROP_SUCCESS <==> ok
  {
    hide Word, WordBytes;
    var w := I32Word(if ok then PROP_SUCCESS else PROP_ERROR);
    assert [] + WordBytes(w) + more == WordBytes(w) + more;
    WordAhead([], w, more);
  }

  /** The end of the client's V2 `set`: any answer but success is a refusal.  When the four bytes of the answer come
      back, the client reports what the server did; otherwise it says why they did not. */
  method AwaitReply(reply: ReplyStream, ghost ok: bool, ghost more: Str) returns (r: WireResult<()>)
    requires reply.Valid() && reply.pos == 0 && reply.incoming <= ReplyTo(ok) + more
    modifies reply
    ensures if Comes(old(reply.attempts), 4, |reply.incoming|) then r == if ok then Ok(()) else Err(Refused)
            else ComesAs(old(reply.attempts), 4, |reply.incoming|, r)
  {
    hide Word, ReplyTo, Comes, EndsEarly;
    ReplyReads(ok, more);
    var res := reply.RecvI32();
    if res.Ok? {
      SamePrefix(reply.incoming, ReplyTo(ok) + more);
      return if res.value != PROP_SUCCESS then Err(Refused) else Ok(());
    }
    return Err(res.error);
  }

  // ---------------------------------------------------------------- end to end

  lemma {:induction false} ArrivedDecodes(name: Str, value: Str, version: Version, delivered: Str, sent: bool, arrives: nat)
    requires if Sendable(name, value, version) then delivered <= FrameOf(name, value, version) else delivered == [] && !sent
    requires Decode(delivered) == if sent then Accepted(Request(name, value)) else Truncated
    ensures var d := Decode(delivered[..Min(arrives, |delivered|)]);
            d == Truncated || (sent && d == Accepted(Request(name, value)))
    ensures sent ==> (arrives >= |FrameOf(name, value, version)| <==>
              Decode(delivered[..Min(arrives, |delivered|)]) == Accepted(Request(name, value)))
  {
    hide Decode, FrameOf, Sendable;
    var n := Min(arrives, |delivered|);
    if Sendable(name, value, version) {
      var frame := FrameOf(name, value, version);
      assert delivered == frame[..|delivered|] && delivered[..n] == frame[..n];
      PartDecodes(name, value, version, |delivered|);
      PartDecodes(name, value, version, n);
    } else {
      assert delivered[..n] == delivered;
    }
  }

  /** Once the first length word of a V2 request has arrived the server answers with a status. */
  lemma {:induction false} AnswerArrives(name: Str, value: Str, delivered: Str, arrives: nat, ok: bool)
    requires Sendable(name, value, V2) && delivered <= FrameOf(name, value, V2) && Decode(delivered) == Accepted(Request(name, value))
    ensures |FrameOf(name, value, V2)| >= 8
    ensures Answer(delivered[..Min(arrives, |delivered|)], ok) == if arrives >= 8 then ReplyTo(ok) else []
    ensures |ReplyTo(ok)| == 4
  {
    hide Decode, Sendable, ReplyTo, Word, WordBytes, Prefixed;
    var frame := FrameOf(name, value, V2);
    assert delivered == frame[..|delivered|];
    PartDecodes(name, value, V2, |delivered|);
    var n := Min(arrives, |delivered|);
    assert delivered[..n] == frame[..n];
    if n >= 4 {
      assert frame == [] + WordBytes(PROP_MSG_SETPROP2) + (Prefixed(name) + Prefixed(value));
      WordAhead([], PROP_MSG_SETPROP2, Prefixed(name) + Prefixed(value));
      WordOfPrefix(frame, n, 0);
    }
    ReplyIsWord(ok);
    PrefixedLength(name);
    PrefixedLength(value);
  }

  lemma {:induction false} PrefixedLength(s: Str)
    ensures |Prefixed(s)| == |s| + 4
  {
  }

  lemma {:induction false} ReplyIsWord(ok: bool)
    ensures |ReplyTo(ok)| == 4
  {
  }

  lemma {:induction false} NoneComes(attempts: seq<Attempt>)
    ensures !Comes(attempts, 4, 0) && forall left: nat :: left < 4 ==> !Comes(attempts, 4, left)
  {
  }

  /** A whole `set` through the service: `sends` is how the client's writes go, `arrives` how much of what they
      deliver the server gets to read, `comesBack` how much of its answer comes back, `receives` how the client's
      reads go.  The request is sent exactly if the client takes it and the writes are enough, and carried out
      exactly if it is sent, all of it arrives and the store takes it.  Over V2 the client reports success exactly if
      it was carried out and the answer came back, and a refusal exactly if an answer came back but it was not. */
  method SetThroughService(name: Str, value: Str, version: Version, sends: seq<Attempt>, arrives: nat,
                           comesBack: nat, receives: seq<Attempt>, store: SystemProperties)
    returns (r: WireResult<()>, sent: bool, done: bool)
    requires store.Valid()
    modifies store, store.area, store.area.mem
    ensures store.Valid() && Follows(old(store.area.contents), store.area.contents)
    ensures store.area.contents == With(old(store.area.contents), Request(name, value), done)
    ensures sent <==> Sendable(name, value, version) && Enough(sends, |FrameOf(name, value, version)|)
    ensures done <==> sent && arrives >= |FrameOf(name, value, version)| && old(Settable(store, Request(name, value)))
    ensures r == Err(Rejected) <==> !Sendable(name, value, version)
    ensures version == V1 ==> (r.Ok? <==> sent)
    ensures version == V2 ==> (r.Ok? <==> done && Comes(receives, 4, Min(comesBack, 4)))
    ensures r == Err(Refused) <==> version == V2 && sent && !done && arrives >= 8 && Comes(receives, 4, Min(comesBack, 4))
  {
    hide Enough, FailsAt, Comes, EndsEarly, FrameOf, Sendable, Settable, Follows, SystemProperties.Valid, Decode, Answer, ReplyTo;
    NoneComes(receives);
    var conn := new Connection(sends);
    var out := SendRequest(conn, name, value, version);
    sent := out.Ok?;
    ArrivedDecodes(name, value, version, conn.delivered, sent, arrives);
    var arrived := conn.delivered[..Min(arrives, |conn.delivered|)];
    var stream := new ServerStream(arrived);
    var decoded;
    decoded, done := stream.HandleClient(store);
    if out.Err? || version == V1 {
      return out, sent, done;
    }
    AnswerArrives(name, value, conn.delivered, arrives, done);
    var back := stream.answer[..Min(comesBack, |stream.answer|)];
    var reply := new ReplyStream(back, receives);
    r := AwaitReply(reply, done, []);
  }

  lemma {:induction false} SamePrefix(a: Str, b: Str)
    requires a <= b && |a| >= 4
    ensures Word(a, 0) == Word(b, 0)
  {
  }
}
