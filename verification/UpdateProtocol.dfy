/** The stores of an update, as `PropertyAreas` makes them, are a run of the writer of `Seqlock`: each memory
    they leave mirrors the state after the matching step. */
module UpdateProtocol {
  import opened Base
  import opened PropertySerial
  import opened PropertyShape
  import opened PropertyMemory
  import opened PropertyAreas
  import Seqlock

  type State = Seqlock.State

  /** The words and bytes of one short entry. */
  predicate EntryMirrored(m: Str, e: nat, entry: Seqlock.Entry)
  {
    FIRST <= e && DATA + e + INFO_HEADER <= |m| && entry.serial == Word(m, DATA + e)
    && entry.slot == m[DATA + e + 4..DATA + e + INFO_HEADER]
  }

  /** A memory whose backup slot and entries are those of `s`. */
  ghost predicate Mirrors(m: Str, s: State)
  {
    DATA + FIRST <= |m| && s.backup == m[DATA + BACKUP..DATA + FIRST]
    && forall e :: e in s.entries ==> EntryMirrored(m, e, s.entries[e])
  }

  /** No two entries overlap. */
  predicate Apart(s: State)
  {
    forall d, e :: d in s.entries && e in s.entries && d < e ==> d + INFO_HEADER <= e
  }

  /** The memories logged from `from` on mirror, one by one, the states of the writer's run `acts`. */
  ghost predicate Tracks(log: seq<Seen>, from: nat, s: State, acts: seq<Seqlock.Action>)
    decreases |acts|
  {
    acts == []
    || (from < |log| && Seqlock.EnabledWriter(s, acts[0]) && Mirrors(log[from].mem, Seqlock.StepWriter(s, acts[0]))
        && Tracks(log, from + 1, Seqlock.StepWriter(s, acts[0]), acts[1..]))
  }

  /** Backing up the bytes from `i` on, and then `rest`. */
  function BackupActs(i: nat, n: nat, rest: seq<Seqlock.Action>): seq<Seqlock.Action>
    decreases n - i
  {
    if i >= n then rest else [Seqlock.StoreBackup(i)] + BackupActs(i + 1, n, rest)
  }

  /** Storing the value's bytes from `i` on, and then publishing it. */
  function ValueActs(i: nat, n: nat): seq<Seqlock.Action>
    decreases n - i
  {
    if i >= n then [Seqlock.Publish] else [Seqlock.StoreValue(i)] + ValueActs(i + 1, n)
  }

  /** The stores of an update from `was` to `value`, in order. */
  function UpdateActs(was: Str, value: Str): seq<Seqlock.Action>
  {
    BackupActs(0, |was| + 1, [Seqlock.MarkDirty] + ValueActs(0, |value| + 1))
  }

  function Remaining(i: nat, n: nat): set<nat>
  {
    set k | k in Seqlock.Positions(n) && i <= k
  }

  lemma {:induction false} RemainingSteps(i: nat, n: nat)
    ensures Remaining(0, n) == Seqlock.Positions(n)
    ensures i < n ==> i in Remaining(i, n) && Remaining(i, n) - {i} == Remaining(i + 1, n)
    ensures i >= n ==> Remaining(i, n) == {}
  {
    hide Seqlock.Positions;
  }

  // ---------------------------------------------------------------- one store

  /** A store within `[lo, hi)` leaves alone what lies elsewhere. */
  lemma {:induction false} SliceStays(m: Str, off: nat, part: Str, lo: nat, hi: nat)
    requires off + |part| <= |m| && lo <= hi <= |m| && (off + |part| <= lo || hi <= off)
    ensures Poke(m, off, part)[lo..hi] == m[lo..hi]
  {
  }

  lemma {:induction false} EntryStays(m: Str, off: nat, part: Str, e: nat, entry: Seqlock.Entry)
    requires EntryMirrored(m, e, entry) && off + |part| <= |m|
    requires off + |part| <= DATA + e || DATA + e + INFO_HEADER <= off
    ensures EntryMirrored(Poke(m, off, part), e, entry)
  {
    hide Word, Poke;
    SliceStays(m, off, part, DATA + e + 4, DATA + e + INFO_HEADER);
    WordStays(m, off, part, DATA + e);
  }

  lemma {:induction false} WordStays(m: Str, off: nat, part: Str, at: nat)
    requires off + |part| <= |m| && at + 4 <= |m| && (off + |part| <= at || at + 4 <= off)
    ensures Word(Poke(m, off, part), at) == Word(m, at)
  {
  }

  lemma {:induction false} OneByte(m: Str, off: nat, b: byte, lo: nat, hi: nat)
    requires lo <= off < hi <= |m|
    ensures Poke(m, off, [b])[lo..hi] == m[lo..hi][off - lo := b]
  {
  }

  lemma {:induction false} BackupMirrors(m: Str, s: State, i: nat)
    requires Mirrors(m, s) && Seqlock.EnabledWriter(s, Seqlock.StoreBackup(i)) && i < PROP_VALUE_MAX
    ensures Mirrors(Poke(m, DATA + BACKUP + i, [(s.writer.snapshot + [0])[i]]), Seqlock.StepWriter(s, Seqlock.StoreBackup(i)))
  {
    hide Poke, EntryMirrored;
    var b := (s.writer.snapshot + [0])[i];
    OneByte(m, DATA + BACKUP + i, b, DATA + BACKUP, DATA + FIRST);
    forall e | e in s.entries ensures EntryMirrored(Poke(m, DATA + BACKUP + i, [b]), e, s.entries[e]) {
      InFront(m, e, s.entries[e]);
      EntryStays(m, DATA + BACKUP + i, [b], e, s.entries[e]);
    }
  }

  lemma {:induction false} InFront(m: Str, e: nat, entry: Seqlock.Entry)
    requires EntryMirrored(m, e, entry)
    ensures FIRST <= e && DATA + e + INFO_HEADER <= |m| && |entry.slot| == PROP_VALUE_MAX
  {
  }

  /** A store inside one entry concerns that entry only. */
  lemma {:induction false} EntryMirrors(m: Str, s: State, t: State, e: nat, off: nat, part: Str)
    requires Mirrors(m, s) && Apart(s) && e in s.entries && e in t.entries
    requires t.entries == s.entries[e := t.entries[e]] && t.backup == s.backup
    requires DATA + e <= off && off + |part| <= DATA + e + INFO_HEADER <= |m|
    requires EntryMirrored(Poke(m, off, part), e, t.entries[e])
    ensures Mirrors(Poke(m, off, part), t) && Apart(t)
  {
    hide Poke, EntryMirrored;
    InFront(m, e, s.entries[e]);
    SliceStays(m, off, part, DATA + BACKUP, DATA + FIRST);
    forall d | d in t.entries ensures EntryMirrored(Poke(m, off, part), d, t.entries[d]) {
      if d != e {
        InFront(m, d, s.entries[d]);
        EntryStays(m, off, part, d, s.entries[d]);
      }
    }
  }

  lemma {:induction false} ByteMirrors(m: Str, s: State, i: nat)
    requires Mirrors(m, s) && Apart(s) && Seqlock.EnabledWriter(s, Seqlock.StoreValue(i)) && i < PROP_VALUE_MAX
    ensures var e := s.writer.e;
            var t := Seqlock.StepWriter(s, Seqlock.StoreValue(i));
            DATA + e + INFO_HEADER <= |m| && Mirrors(Poke(m, DATA + e + 4 + i, [(s.writer.value + [0])[i]]), t) && Apart(t)
  {
    hide Poke, Mirrors, Apart, Word;
    var e, b := s.writer.e, (s.writer.value + [0])[i];
    var t := Seqlock.StepWriter(s, Seqlock.StoreValue(i));
    MirroredEntry(m, s, e);
    OneByte(m, DATA + e + 4 + i, b, DATA + e + 4, DATA + e + INFO_HEADER);
    WordStays(m, DATA + e + 4 + i, [b], DATA + e);
    EntryMirrors(m, s, t, e, DATA + e + 4 + i, [b]);
  }

  lemma {:induction false} MirroredEntry(m: Str, s: State, e: nat)
    requires Mirrors(m, s) && e in s.entries
    ensures EntryMirrored(m, e, s.entries[e])
  {
  }

  /** A store to the serial word. */
  lemma {:induction false} SerialMirrors(m: Str, s: State, t: State, e: nat, serial: nat)
    requires Mirrors(m, s) && Apart(s) && e in s.entries && e in t.entries && serial <= U32_MAX
    requires t.entries == s.entries[e := t.entries[e]] && t.backup == s.backup
    requires t.entries[e].serial == serial && t.entries[e].slot == s.entries[e].slot
    ensures DATA + e + INFO_HEADER <= |m| && Mirrors(Poke(m, DATA + e, WordBytes(serial)), t) && Apart(t)
  {
    hide Poke, Mirrors, Apart, Word, WordBytes;
    MirroredEntry(m, s, e);
    SliceStays(m, DATA + e, WordBytes(serial), DATA + e + 4, DATA + e + INFO_HEADER);
    SerialStored(m, DATA + e, serial);
    EntryMirrors(m, s, t, e, DATA + e, WordBytes(serial));
  }

  lemma {:induction false} SerialStored(m: Str, off: nat, w: nat)
    requires off + 4 <= |m| && w <= U32_MAX
    ensures Word(Poke(m, off, WordBytes(w)), off) == w
  {
    hide WordBytes, Word;
    var m' := Poke(m, off, WordBytes(w));
    assert m'[off..off + 4] == WordBytes(w);
    SubOfWord(m', off, w);
  }

  // ---------------------------------------------------------------- the phases of an update

  lemma {:induction false} NextByteStored(m: Str, off: nat, bytes: Str, i: nat)
    requires off + |bytes| <= |m| && i < |bytes|
    ensures Poke(Poke(m, off, bytes[..i]), off + i, [bytes[i]]) == Poke(m, off, bytes[..i + 1])
  {
  }

  lemma {:induction false} CounterFits(serial: nat)
    ensures CounterBits(serial) < LENGTH_UNIT
  {
    var low, high := serial % LONG_FLAG, serial / (2 * LONG_FLAG) % 0x80;
    assert low < LONG_FLAG && high <= 0x7F;
  }

  lemma {:induction false} DirtyFits(serial: nat)
    requires serial <= U32_MAX
    ensures Dirty(serial) <= U32_MAX && Dirty(Dirty(serial)) == Dirty(serial)
  {
    assert IsDirty(U32_MAX);
    OddIsDirty(serial);
  }

  lemma {:induction false} SerialFits(serial: nat, len: nat)
    requires serial <= U32_MAX && len < PROP_VALUE_MAX
    ensures Dirty(serial) <= U32_MAX && NextSerial(serial, len) <= U32_MAX
    ensures NextSerial(Dirty(serial), len) == NextSerial(serial, len)
  {
    hide CounterBits, IsDirty, Dirty;
    CounterFits(Dirty(serial) + 1);
    DirtyFits(serial);
  }

  /** From the dirty serial on: the value's bytes, and the clean serial. */
  lemma {:induction false} ValueTracks(log: seq<Seen>, from: nat, m: Str, s: State, value: Str, i: nat)
    requires |value| < PROP_VALUE_MAX && i <= |value| + 1 && |log| == from + |value| + 2
    requires s.writer.Writing? && s.writer.value == value && s.writer.left == Remaining(i, |value| + 1)
    requires s.writer.e in s.entries && Apart(s)
    requires StoredBytes(log, from, m, DATA + s.writer.e + 4, value + [0])
    requires Mirrors(Poke(m, DATA + s.writer.e + 4, (value + [0])[..i]), s)
    requires DATA + s.writer.e + 4 <= |m|
    requires log[|log| - 1].mem == Poke(Poke(m, DATA + s.writer.e + 4, value + [0]), DATA + s.writer.e,
                                        WordBytes(NextSerial(s.entries[s.writer.e].serial, |value|)))
    ensures Tracks(log, from + i, s, ValueActs(i, |value| + 1))
    decreases |value| + 1 - i
  {
    hide Poke, Mirrors, Apart, Word, WordBytes, NextSerial, Remaining, EntryMirrored, Dirty;
    var e, bytes := s.writer.e, value + [0];
    RemainingSteps(i, |value| + 1);
    var now := Poke(m, DATA + e + 4, bytes[..i]);
    MirroredEntry(now, s, e);
    InFront(now, e, s.entries[e]);
    SerialInRange(now, e, s.entries[e]);
    if i == |value| + 1 {
      assert bytes[..i] == bytes;
      SerialFits(s.entries[e].serial, |value|);
      var t := Seqlock.StepWriter(s, Seqlock.Publish);
      SerialMirrors(now, s, t, e, NextSerial(s.entries[e].serial, |value|));
    } else {
      var t := Seqlock.StepWriter(s, Seqlock.StoreValue(i));
      ByteMirrors(now, s, i);
      NextByteStored(m, DATA + e + 4, bytes, i);
      OneStored(log, from, m, DATA + e + 4, bytes, i);
      ValueTracks(log, from, m, t, value, i + 1);
      assert ValueActs(i, |value| + 1)[1..] == ValueActs(i + 1, |value| + 1);
    }
  }

  lemma {:induction false} SerialInRange(m: Str, e: nat, entry: Seqlock.Entry)
    requires EntryMirrored(m, e, entry)
    ensures entry.serial <= U32_MAX && DATA + e + INFO_HEADER <= |m| && entry.serial == Word(m, DATA + e)
  {
  }

  lemma {:induction false} StoredUpdateFacts(log: seq<Seen>, from: nat, m: Str, q: nat, was: Str, value: Str)
    requires StoredUpdate(log, from, m, q, was, value)
    ensures DATA + BACKUP + |was| + 1 <= |m| && DATA + q + INFO_HEADER <= |m| && |log| == from + |was| + 1 + |value| + 3
    ensures StoredBytes(log, from, m, DATA + BACKUP, was + [0])
    ensures var mb := Poke(m, DATA + BACKUP, was + [0]);
            var w := Word(mb, DATA + q);
            var m1 := Poke(mb, DATA + q, WordBytes(Dirty(w)));
            log[from + |was| + 1].mem == m1 && StoredBytes(log, from + |was| + 2, m1, DATA + q + 4, value + [0])
            && log[|log| - 1].mem == Poke(Poke(m1, DATA + q + 4, value + [0]), DATA + q, WordBytes(NextSerial(w, |value|)))
  {
    hide Poke, Word, WordBytes, Dirty, NextSerial;
  }

  lemma {:induction false} OneStored(log: seq<Seen>, from: nat, m: Str, off: nat, bytes: Str, i: nat)
    requires StoredBytes(log, from, m, off, bytes) && i < |bytes|
    ensures from + i < |log| && log[from + i].mem == Poke(m, off, bytes[..i + 1])
  {
    hide Poke;
    assert from + i + 1 - from == i + 1;
  }

  /** From the marking store on. */
  lemma {:induction false} DirtyTracks(log: seq<Seen>, from: nat, m: Str, s: State, q: nat, was: Str, value: Str)
    requires |was| < PROP_VALUE_MAX && |value| < PROP_VALUE_MAX && StoredUpdate(log, from, m, q, was, value)
    requires s.writer == Seqlock.BackingUp(q, value, was, {}) && q in s.entries && Apart(s)
    requires DATA + FIRST <= |m| && Mirrors(Poke(m, DATA + BACKUP, was + [0]), s)
    ensures Tracks(log, from + |was| + 1, s, [Seqlock.MarkDirty] + ValueActs(0, |value| + 1))
  {
    hide Poke, Mirrors, Apart, Word, WordBytes, NextSerial, Remaining, EntryMirrored, Dirty, StoredUpdate, StoredBytes, ValueActs,
         Seqlock.Positions;
    StoredUpdateFacts(log, from, m, q, was, value);
    var mb := Poke(m, DATA + BACKUP, was + [0]);
    MirroredEntry(mb, s, q);
    SerialInRange(mb, q, s.entries[q]);
    var w := Word(mb, DATA + q);
    var m1 := Poke(mb, DATA + q, WordBytes(Dirty(w)));
    SerialFits(w, |value|);
    var t := Seqlock.StepWriter(s, Seqlock.MarkDirty);
    SerialMirrors(mb, s, t, q, Dirty(w));
    RemainingSteps(0, |value| + 1);
    PokeNothing(m1, DATA + q + 4, (value + [0])[..0]);
    ValueTracks(log, from + |was| + 2, m1, t, value, 0);
    var acts := [Seqlock.MarkDirty] + ValueActs(0, |value| + 1);
    assert acts[1..] == ValueActs(0, |value| + 1);
  }

  /** From the backup store of byte `i` on. */
  lemma {:induction false} BackupTracks(log: seq<Seen>, from: nat, m: Str, s: State, q: nat, was: Str, value: Str, i: nat)
    requires |was| < PROP_VALUE_MAX && |value| < PROP_VALUE_MAX && StoredUpdate(log, from, m, q, was, value) && i <= |was| + 1
    requires s.writer == Seqlock.BackingUp(q, value, was, Remaining(i, |was| + 1)) && q in s.entries && Apart(s)
    requires DATA + FIRST <= |m| && Mirrors(Poke(m, DATA + BACKUP, (was + [0])[..i]), s)
    ensures Tracks(log, from + i, s, BackupActs(i, |was| + 1, [Seqlock.MarkDirty] + ValueActs(0, |value| + 1)))
    decreases |was| + 1 - i
  {
    hide Poke, Mirrors, Apart, Word, WordBytes, NextSerial, Remaining, EntryMirrored, Dirty, StoredUpdate, StoredBytes, ValueActs,
         Seqlock.Positions, Seqlock.EnabledWriter, Seqlock.StepWriter;
    var bytes := was + [0];
    RemainingSteps(i, |was| + 1);
    StoredUpdateFacts(log, from, m, q, was, value);
    var rest := [Seqlock.MarkDirty] + ValueActs(0, |value| + 1);
    if i == |was| + 1 {
      assert bytes[..i] == bytes;
      DirtyTracks(log, from, m, s, q, was, value);
    } else {
      var now := Poke(m, DATA + BACKUP, bytes[..i]);
      BackupSize(now, s);
      BackupStep(s, q, was, value, i);
      var t := Seqlock.StepWriter(s, Seqlock.StoreBackup(i));
      BackupMirrors(now, s, i);
      NextByteStored(m, DATA + BACKUP, bytes, i);
      OneStored(log, from, m, DATA + BACKUP, bytes, i);
      SameEntries(s, t);
      BackupTracks(log, from, m, t, q, was, value, i + 1);
      assert BackupActs(i, |was| + 1, rest)[1..] == BackupActs(i + 1, |was| + 1, rest);
    }
  }

  lemma {:induction false} BackupStep(s: State, q: nat, was: Str, value: Str, i: nat)
    requires s.writer == Seqlock.BackingUp(q, value, was, Remaining(i, |was| + 1)) && i <= |was| && i < |s.backup|
    ensures var a := Seqlock.StoreBackup(i);
            Seqlock.EnabledWriter(s, a) && Seqlock.StepWriter(s, a).entries == s.entries
            && Seqlock.StepWriter(s, a).writer == Seqlock.BackingUp(q, value, was, Remaining(i + 1, |was| + 1))
  {
    hide Remaining;
    RemainingSteps(i, |was| + 1);
  }

  lemma {:induction false} BackupSize(m: Str, s: State)
    requires Mirrors(m, s)
    ensures |s.backup| == PROP_VALUE_MAX
  {
  }

  lemma {:induction false} SameEntries(s: State, t: State)
    requires Apart(s) && t.entries == s.entries
    ensures Apart(t)
  {
  }

  /** The memories of an update are, store by store, those of the writer's run: from any state between calls
      that the memory mirrors, the writer begins the update, and each store is its next step. */
  lemma {:induction false} UpdateTracks(log: seq<Seen>, from: nat, m: Str, s: State, q: nat, was: Str, value: Str)
    requires Mirrors(m, s) && Apart(s) && s.writer.Idle? && q in s.entries && Seqlock.Storable(was) && Seqlock.Storable(value)
    requires Sub(m, DATA + q + 4, was + [0]) && StoredUpdate(log, from, m, q, was, value)
    ensures var begin := Seqlock.BeginUpdate(q, value);
            Seqlock.EnabledWriter(s, begin) && Tracks(log, from, Seqlock.StepWriter(s, begin), UpdateActs(was, value))
  {
    hide Poke, Apart, Word, Remaining, StoredUpdate, UpToNul, Seqlock.Positions, Seqlock.EnabledWriter, Seqlock.StepWriter;
    var entry := s.entries[q];
    assert EntryMirrored(m, q, entry);
    SlotHolds(m, DATA + q + 4, entry.slot, was);
    UpToNulReads(entry.slot, 0, |entry.slot|, was);
    BeginStep(s, q, was, value);
    var t := Seqlock.StepWriter(s, Seqlock.BeginUpdate(q, value));
    RemainingSteps(0, |was| + 1);
    PokeNothing(m, DATA + BACKUP, (was + [0])[..0]);
    SameEntries(s, t);
    BackupTracks(log, from, m, t, q, was, value, 0);
  }

  lemma {:induction false} BeginStep(s: State, q: nat, was: Str, value: Str)
    requires s.writer.Idle? && q in s.entries && Seqlock.Storable(value)
    requires UpToNul(s.entries[q].slot, 0, |s.entries[q].slot|) == was
    ensures var a := Seqlock.BeginUpdate(q, value);
            Seqlock.EnabledWriter(s, a)
            && Seqlock.StepWriter(s, a) == s.(writer := Seqlock.BackingUp(q, value, was, Remaining(0, |was| + 1)))
  {
    hide Remaining, UpToNul, Seqlock.Positions;
    RemainingSteps(0, |was| + 1);
  }

  lemma {:induction false} SlotHolds(m: Str, off: nat, slot: Str, was: Str)
    requires off + PROP_VALUE_MAX <= |m| && slot == m[off..off + PROP_VALUE_MAX] && |was| < PROP_VALUE_MAX
    requires Sub(m, off, was + [0])
    ensures Sub(slot, 0, was + [0])
  {
    assert slot[..|was| + 1] == m[off..off + |was| + 1];
  }

  // ---------------------------------------------------------------- an area is such a state

  /** The state between calls that a memory with an area mirrors.  Of the values an entry has had, only the
      current one and how many there were are known. */
  function Reflection(m: Str, sh: Shape): State
  {
    Seqlock.State(map q | q in sh.infos && Stored(sh.infos[q]) && DATA + q + INFO_HEADER <= |m| :: Reflected(m, q, sh.infos[q]),
                  if DATA + FIRST <= |m| then m[DATA + BACKUP..DATA + FIRST] else [], Seqlock.Idle, 0, map[], map[])
  }

  function Reflected(m: Str, q: nat, i: InfoRec): Seqlock.Entry
    requires DATA + q + INFO_HEADER <= |m|
  {
    Seqlock.Entry(Word(m, DATA + q), m[DATA + q + 4..DATA + q + INFO_HEADER], Copies(i.value, i.updates) + [i.value])
  }

  function Copies(value: Str, n: nat): (h: seq<Str>)
    ensures |h| == n && forall i :: 0 <= i < n ==> h[i] == value
  {
    seq(n, _ => value)
  }

  lemma {:induction false} EntryReflected(m: Str, sh: Shape, q: nat)
    requires WellFormed(sh) && Holds(m, sh) && q in sh.infos && Stored(sh.infos[q])
    ensures var s := Reflection(m, sh);
            q in s.entries && EntryMirrored(m, q, s.entries[q]) && Seqlock.EntryOk(s, q)
            && Sub(m, DATA + q + 4, sh.infos[q].value + [0]) && Seqlock.Storable(sh.infos[q].value)
  {
    hide WellFormed, Holds, Word, ShortSerial;
    var i, s := sh.infos[q], Reflection(m, sh);
    InfoReads(m, sh, q);
    var slot := m[DATA + q + 4..DATA + q + INFO_HEADER];
    SlotHolds(m, DATA + q + 4, slot, i.value);
    assert slot[..|i.value| + 1] == i.value + [0];
    assert slot[..|i.value|] == slot[..|i.value| + 1][..|i.value|] == i.value;
  }

  /** Every area between calls is mirrored by a state that the invariant of the protocol allows. */
  lemma {:induction false} AreaReflected(m: Str, sh: Shape)
    requires WellFormed(sh) && Holds(m, sh) && DATA + FIRST <= |m|
    ensures var s := Reflection(m, sh); Seqlock.Inv(s) && Mirrors(m, s) && Apart(s)
  {
    hide WellFormed, Holds, EntryMirrored, Seqlock.EntryOk, Reflected;
    var s := Reflection(m, sh);
    forall q | q in s.entries ensures EntryMirrored(m, q, s.entries[q]) && Seqlock.EntryOk(s, q) {
      EntryReflected(m, sh, q);
    }
    forall d, e | d in s.entries && e in s.entries && d < e ensures d + INFO_HEADER <= e {
      InfosApart(sh, d, e);
    }
  }

  lemma {:induction false} InfosApart(sh: Shape, d: nat, e: nat)
    requires WellFormed(sh) && d in sh.infos && e in sh.infos && d < e
    ensures d + INFO_HEADER <= e
  {
    hide Aligned, WellLinked;
    InfoRange(sh, d);
    InfoRange(sh, e);
  }

  lemma {:induction false} TracksRun(log: seq<Seen>, from: nat, s: State, acts: seq<Seqlock.Action>)
    requires Tracks(log, from, s, acts)
    ensures Seqlock.Run(s, acts).Some?
    decreases |acts|
  {
    hide Mirrors, Seqlock.EnabledWriter, Seqlock.EnabledReader, Seqlock.EnabledWaiter, Seqlock.StepWriter, Seqlock.StepReader,
         Seqlock.StepWaiter;
    if acts != [] {
      TracksRun(log, from + 1, Seqlock.StepWriter(s, acts[0]), acts[1..]);
    }
  }

  /** An update of an area is a run of the protocol's writer, one memory for every step after the first. */
  lemma {:induction false} AreaUpdateIsRun(log: seq<Seen>, from: nat, m: Str, sh: Shape, q: nat, value: Str)
    requires WellFormed(sh) && Holds(m, sh) && DATA + FIRST <= |m| && q in sh.infos && Stored(sh.infos[q])
    requires |value| < PROP_VALUE_MAX && 0 !in value && StoredUpdate(log, from, m, q, sh.infos[q].value, value)
    ensures var s, begin := Reflection(m, sh), Seqlock.BeginUpdate(q, value);
            Seqlock.Inv(s) && Mirrors(m, s) && Seqlock.EnabledWriter(s, begin)
            && Tracks(log, from, Seqlock.StepWriter(s, begin), UpdateActs(sh.infos[q].value, value))
            && Seqlock.Run(s, [begin] + UpdateActs(sh.infos[q].value, value)).Some?
  {
    hide WellFormed, Holds, Seqlock.StepWriter, Seqlock.EnabledWriter, Tracks, Seqlock.Inv,
         Mirrors, Apart, StoredUpdate, Sub, Seqlock.EntryOk, EntryMirrored, Reflected, UpdateActs;
    AreaReflected(m, sh);
    EntryReflected(m, sh, q);
    UpdateTracks(log, from, m, Reflection(m, sh), q, sh.infos[q].value, value);
    var acts := UpdateActs(sh.infos[q].value, value);
    TracksRun(log, from, Seqlock.StepWriter(Reflection(m, sh), Seqlock.BeginUpdate(q, value)), acts);
    assert ([Seqlock.BeginUpdate(q, value)] + acts)[1..] == acts;
  }
}
