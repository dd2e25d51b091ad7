/** The seqlock and wait protocol of an area, as a transition system: one writer, any number of readers
    and waiters in other processes, one step per byte or word that is loaded or stored.

    Steps interleave freely, and the byte stores within one phase of the writer happen in any order. */
module Seqlock {
  import opened Base
  import opened PropertySerial

  /** A short entry.  `history` records the values committed to it, the current one last; no step depends
      on it. */
  datatype Entry = Entry(serial: nat, slot: Str, history: seq<Str>)

  /** Where the writer is within a call; `left` is the set of byte stores still to do, and `snapshot` what
      it has read from the value slot to back it up. */
  datatype Writer =
    | Idle
    | BackingUp(e: nat, value: Str, snapshot: Str, left: set<nat>)
    | Writing(e: nat, value: Str, left: set<nat>)
    | WakingEntry(e: nat)
    | Bumping
    | WakingAll

  /** A reader's attempt.  `from` counts the updates committed when it loaded the serial, `to` when it
      checked it again. */
  datatype Reader =
    | Starting(e: nat)
    | Copying(e: nat, serial: nat, from: nat, buf: Str, done: bool)
    | Accepted(e: nat, value: Str, from: nat, to: nat)

  /** The word a waiter watches. */
  datatype Target = OfEntry(e: nat) | Global

  /** A waiter checks the word, then asks to be parked on the old value, and is woken to check again. */
  datatype Waiter =
    | Checking(target: Target, seen: nat)
    | Parking(target: Target, seen: nat)
    | Parked(target: Target, seen: nat)
    | Returned(target: Target, seen: nat, serial: nat)

  datatype State = State(entries: map<nat, Entry>, backup: Str, writer: Writer, global: nat,
                         readers: map<nat, Reader>, waiters: map<nat, Waiter>)

  datatype Action =
    // the writer
    | Add(e: nat, value: Str)
    | BeginUpdate(e: nat, value: Str)
    | StoreBackup(i: nat)
    | MarkDirty
    | StoreValue(i: nat)
    | Publish
    | WakeEntry
    | BumpGlobal
    | WakeGlobal
    // readers
    | Open(r: nat, e: nat)
    | LoadSerial(r: nat)
    | CopyByte(r: nat)
    | Recheck(r: nat)
    // waiters
    | Enter(w: nat, target: Target, seen: nat)
    | Check(w: nat)
    | Park(w: nat)
    | Unpark(w: nat)

  // ---------------------------------------------------------------- what entries hold

  predicate Storable(v: Str)
  {
    |v| < PROP_VALUE_MAX && 0 !in v
  }

  function Current(entry: Entry): Str
  {
    if entry.history == [] then [] else entry.history[|entry.history| - 1]
  }

  /** Updates committed so far. */
  function Count(entry: Entry): nat
  {
    if entry.history == [] then 0 else |entry.history| - 1
  }

  predicate Filled(bytes: Str, v: Str)
  {
    |v| < |bytes| && bytes[..|v|] == v && bytes[|v|] == 0
  }

  /** All of `v` and its NUL but the bytes in `left`. */
  predicate FilledBut(bytes: Str, v: Str, left: set<nat>)
  {
    |v| < |bytes| && (forall i :: i in left ==> i <= |v|)
    && forall i :: 0 <= i <= |v| && i !in left ==> bytes[i] == (v + [0])[i]
  }

  function Positions(n: nat): (p: set<nat>)
    ensures forall i: nat :: i in p <==> i < n
  {
    if n == 0 then {} else Positions(n - 1) + {n - 1}
  }

  function Word32(n: nat): nat
  {
    n % 0x1_0000_0000
  }

  /** The word a waiter compares. */
  function WordOf(s: State, t: Target): Option<nat>
  {
    match t
    case Global => Some(s.global)
    case OfEntry(e) => if e in s.entries then Some(s.entries[e].serial) else None
  }

  function WakeUp(w: Waiter, t: Target): Waiter
  {
    if w.Parked? && w.target == t then Checking(w.target, w.seen) else w
  }

  /** Wake-all on one word. */
  function Woken(waiters: map<nat, Waiter>, t: Target): map<nat, Waiter>
  {
    map w | w in waiters :: WakeUp(waiters[w], t)
  }

  // ---------------------------------------------------------------- steps

  /** A reader's copy is complete: the recorded length, or the first NUL, or the whole slot. */
  predicate CopyEnds(s: State, r: Reader)
    requires r.Copying? && r.e in s.entries
  {
    if IsDirty(r.serial) then |r.buf| >= LengthOf(r.serial) || |r.buf| >= PROP_VALUE_MAX - 1 || |r.buf| >= |s.backup|
    else |r.buf| >= |s.entries[r.e].slot| || s.entries[r.e].slot[|r.buf|] == 0
  }

  predicate EnabledWriter(s: State, a: Action)
  {
    match a
    case Add(e, value) => s.writer.Idle? && e !in s.entries && Storable(value)
    case BeginUpdate(e, value) => s.writer.Idle? && e in s.entries && Storable(value)
    case StoreBackup(i) =>
      s.writer.BackingUp? && i in s.writer.left && i < |s.backup| && i <= |s.writer.snapshot|
    case MarkDirty => s.writer.BackingUp? && s.writer.left == {} && s.writer.e in s.entries
    case StoreValue(i) =>
      s.writer.Writing? && i in s.writer.left && i <= |s.writer.value| && s.writer.e in s.entries
      && i < |s.entries[s.writer.e].slot|
    case Publish => s.writer.Writing? && s.writer.left == {} && s.writer.e in s.entries
    case WakeEntry => s.writer.WakingEntry?
    case BumpGlobal => s.writer.Bumping?
    case WakeGlobal => s.writer.WakingAll?
    case _ => false
  }

  predicate EnabledReader(s: State, a: Action)
  {
    match a
    case Open(r, e) => e in s.entries
    case LoadSerial(r) => r in s.readers && s.readers[r].Starting? && s.readers[r].e in s.entries
    case CopyByte(r) => r in s.readers && s.readers[r].Copying? && !s.readers[r].done && s.readers[r].e in s.entries
    case Recheck(r) => r in s.readers && s.readers[r].Copying? && s.readers[r].done && s.readers[r].e in s.entries
    case _ => false
  }

  predicate EnabledWaiter(s: State, a: Action)
  {
    match a
    case Enter(w, t, seen) => w !in s.waiters && WordOf(s, t).Some?
    case Check(w) => w in s.waiters && s.waiters[w].Checking? && WordOf(s, s.waiters[w].target).Some?
    case Park(w) => w in s.waiters && s.waiters[w].Parking? && WordOf(s, s.waiters[w].target).Some?
    case Unpark(w) => w in s.waiters && s.waiters[w].Parked?
    case _ => false
  }

  predicate Enabled(s: State, a: Action)
  {
    EnabledWriter(s, a) || EnabledReader(s, a) || EnabledWaiter(s, a)
  }

  function SetEntry(s: State, e: nat, entry: Entry, writer: Writer): State
  {
    s.(entries := s.entries[e := entry], writer := writer)
  }

  function StepWriter(s: State, a: Action): State
    requires EnabledWriter(s, a)
  {
    match a
    case Add(e, value) =>
      SetEntry(s, e, Entry(InitialSerial(|value|), value + [0] + Zeros(PROP_VALUE_MAX - 1 - |value|), [value]), Bumping)
    case BeginUpdate(e, value) =>
      var snapshot := UpToNul(s.entries[e].slot, 0, |s.entries[e].slot|);
      s.(writer := BackingUp(e, value, snapshot, Positions(|snapshot| + 1)))
    case StoreBackup(i) =>
      s.(backup := s.backup[i := (s.writer.snapshot + [0])[i]],
         writer := BackingUp(s.writer.e, s.writer.value, s.writer.snapshot, s.writer.left - {i}))
    case MarkDirty =>
      var entry := s.entries[s.writer.e];
      SetEntry(s, s.writer.e, entry.(serial := Dirty(entry.serial)),
               Writing(s.writer.e, s.writer.value, Positions(|s.writer.value| + 1)))
    case StoreValue(i) =>
      var entry := s.entries[s.writer.e];
      SetEntry(s, s.writer.e, entry.(slot := entry.slot[i := (s.writer.value + [0])[i]]),
               Writing(s.writer.e, s.writer.value, s.writer.left - {i}))
    case Publish =>
      var entry := s.entries[s.writer.e];
      SetEntry(s, s.writer.e,
               entry.(serial := NextSerial(entry.serial, |s.writer.value|), history := entry.history + [s.writer.value]),
               WakingEntry(s.writer.e))
    case WakeEntry => s.(waiters := Woken(s.waiters, OfEntry(s.writer.e)), writer := Bumping)
    case BumpGlobal => s.(global := Word32(s.global + 1), writer := WakingAll)
    case WakeGlobal => s.(waiters := Woken(s.waiters, Global), writer := Idle)
  }

  function SetReader(s: State, r: nat, reader: Reader): State
  {
    s.(readers := s.readers[r := reader])
  }

  function StepReader(s: State, a: Action): State
    requires EnabledReader(s, a)
  {
    match a
    case Open(r, e) => SetReader(s, r, Starting(e))
    case LoadSerial(r) =>
      var entry := s.entries[s.readers[r].e];
      SetReader(s, r, Copying(s.readers[r].e, entry.serial, Count(entry), [], false))
    case CopyByte(r) =>
      var reader := s.readers[r];
      SetReader(s, r,
                if CopyEnds(s, reader) then reader.(done := true)
                else reader.(buf := reader.buf + [NextByte(s, reader)]))
    case Recheck(r) =>
      var reader, entry := s.readers[r], s.entries[s.readers[r].e];
      SetReader(s, r,
                if entry.serial == reader.serial then Accepted(reader.e, reader.buf, reader.from, Count(entry))
                else Starting(reader.e))
  }

  /** The byte loaded next: from the backup slot under a dirty serial, from the value slot otherwise. */
  function NextByte(s: State, r: Reader): byte
    requires r.Copying? && r.e in s.entries && !CopyEnds(s, r)
  {
    if IsDirty(r.serial) then s.backup[|r.buf|] else s.entries[r.e].slot[|r.buf|]
  }

  function SetWaiter(s: State, w: nat, waiter: Waiter): State
  {
    s.(waiters := s.waiters[w := waiter])
  }

  function StepWaiter(s: State, a: Action): State
    requires EnabledWaiter(s, a)
  {
    match a
    case Enter(w, t, seen) => SetWaiter(s, w, Checking(t, seen))
    case Check(w) =>
      var waiter := s.waiters[w];
      var now := WordOf(s, waiter.target).value;
      SetWaiter(s, w, if now != waiter.seen then Returned(waiter.target, waiter.seen, now) else Parking(waiter.target, waiter.seen))
    case Park(w) =>
      // The kernel compares and parks in one step; a word that has moved on sends the waiter back to check.
      var waiter := s.waiters[w];
      SetWaiter(s, w, if WordOf(s, waiter.target).value == waiter.seen then Parked(waiter.target, waiter.seen)
                      else Checking(waiter.target, waiter.seen))
    case Unpark(w) =>
      // A spurious wake-up, a signal, or the end of a slice of the timeout.
      SetWaiter(s, w, Checking(s.waiters[w].target, s.waiters[w].seen))
  }

  function Step(s: State, a: Action): State
    requires Enabled(s, a)
  {
    if EnabledWriter(s, a) then StepWriter(s, a)
    else if EnabledReader(s, a) then StepReader(s, a)
    else StepWaiter(s, a)
  }

  /** The state after a run; `None` if some step was not enabled. */
  function Run(s: State, acts: seq<Action>): Option<State>
    decreases |acts|
  {
    if acts == [] then Some(s)
    else if Enabled(s, acts[0]) then Run(Step(s, acts[0]), acts[1..])
    else None
  }

  // ---------------------------------------------------------------- what is only recorded

  function EraseEntries(entries: map<nat, Entry>): map<nat, Entry>
  {
    map e | e in entries :: entries[e].(history := [])
  }

  function EraseReader(r: Reader): Reader
  {
    match r
    case Starting(_) => r
    case Copying(e, serial, _, buf, done) => Copying(e, serial, 0, buf, done)
    case Accepted(e, value, _, _) => Accepted(e, value, 0, 0)
  }

  /** The state without its records: histories and update counts. */
  function Erase(s: State): State
  {
    s.(entries := EraseEntries(s.entries),
       readers := map r | r in s.readers :: EraseReader(s.readers[r]))
  }

  /** Records steer nothing: which steps are enabled, and what they do to everything else, does not depend
      on them. */
  lemma {:induction false} RecordsSteerNothing(s: State, a: Action)
    ensures Enabled(s, a) <==> Enabled(Erase(s), a)
    ensures Enabled(s, a) ==> Erase(Step(s, a)) == Erase(Step(Erase(s), a))
  {
    hide EnabledWriter, EnabledReader, EnabledWaiter, StepWriter, StepReader, StepWaiter, Erase;
    WriterRecords(s, a);
    ReaderRecords(s, a);
    WaiterRecords(s, a);
  }

  lemma {:induction false} WriterEnabledRecords(s: State, a: Action)
    ensures EnabledWriter(s, a) <==> EnabledWriter(Erase(s), a)
  {
    hide Storable, EraseReader;
  }

  lemma {:induction false} EraseEntry(entries: map<nat, Entry>, e: nat, entry: Entry)
    ensures EraseEntries(entries[e := entry]) == EraseEntries(entries)[e := entry.(history := [])]
    ensures EraseEntries(EraseEntries(entries)[e := entry]) == EraseEntries(entries)[e := entry.(history := [])]
  {
  }

  lemma {:induction false} EraseTwice(entries: map<nat, Entry>)
    ensures EraseEntries(EraseEntries(entries)) == EraseEntries(entries)
  {
  }

  lemma {:induction false} WriterEntryRecords(s: State, a: Action)
    requires EnabledWriter(s, a) && EnabledWriter(Erase(s), a)
    ensures EraseEntries(StepWriter(s, a).entries) == EraseEntries(StepWriter(Erase(s), a).entries)
  {
    hide ShortSerial, NextSerial, Dirty, Storable, InitialSerial, UpToNul, Positions, Woken, EraseReader, EraseEntries;
    assert Erase(s).entries == EraseEntries(s.entries);
    EraseTwice(s.entries);
    match a
    case Add(e, _) => EraseEntry(s.entries, e, StepWriter(s, a).entries[e]);
    case MarkDirty => SameStore(s, a);
    case StoreValue(_) => SameStore(s, a);
    case Publish => SameStore(s, a);
    case _ =>
  }

  /** A store to an entry is the same to the entry without its history. */
  lemma {:induction false} SameStore(s: State, a: Action)
    requires EnabledWriter(s, a) && EnabledWriter(Erase(s), a) && (a.MarkDirty? || a.StoreValue? || a.Publish?)
    ensures EraseEntries(StepWriter(s, a).entries) == EraseEntries(StepWriter(Erase(s), a).entries)
  {
    hide ShortSerial, NextSerial, Dirty, Storable, InitialSerial, UpToNul, Positions, Woken, EraseReader, EraseEntries;
    assert Erase(s).entries == EraseEntries(s.entries);
    assert Erase(s).entries[s.writer.e] == s.entries[s.writer.e].(history := []) by { ErasedEntry(s.entries, s.writer.e); }
    EraseEntry(s.entries, s.writer.e, StepWriter(s, a).entries[s.writer.e]);
    EraseEntry(s.entries, s.writer.e, StepWriter(Erase(s), a).entries[s.writer.e]);
  }

  lemma {:induction false} ErasedEntry(entries: map<nat, Entry>, e: nat)
    requires e in entries
    ensures e in EraseEntries(entries) && EraseEntries(entries)[e] == entries[e].(history := [])
  {
  }

  lemma {:induction false} WriterRestRecords(s: State, a: Action)
    requires EnabledWriter(s, a) && EnabledWriter(Erase(s), a)
    ensures StepWriter(Erase(s), a) == StepWriter(s, a).(entries := StepWriter(Erase(s), a).entries, readers := Erase(s).readers)
  {
    hide ShortSerial, NextSerial, Dirty, Storable, InitialSerial, UpToNul, Positions, Woken, EraseReader;
  }

  lemma {:induction false} ErasedReaders(t: State, u: State)
    requires u.readers == Erase(t).readers
    ensures Erase(u).readers == Erase(t).readers
  {
  }

  lemma {:induction false} WriterRecords(s: State, a: Action)
    ensures EnabledWriter(s, a) <==> EnabledWriter(Erase(s), a)
    ensures EnabledWriter(s, a) ==> Erase(StepWriter(s, a)) == Erase(StepWriter(Erase(s), a))
  {
    hide EnabledWriter, StepWriter, EraseReader;
    WriterEnabledRecords(s, a);
    if EnabledWriter(s, a) {
      WriterEntryRecords(s, a);
    WriterRestRecords(s, a);
      SameParties(s, a);
      ErasedReaders(StepWriter(s, a), StepWriter(Erase(s), a));
    }
  }

  lemma {:induction false} CopyRecords(s: State, r: Reader)
    requires r.Copying? && r.e in s.entries
    ensures CopyEnds(Erase(s), EraseReader(r)) <==> CopyEnds(s, r)
    ensures !CopyEnds(s, r) ==> NextByte(Erase(s), EraseReader(r)) == NextByte(s, r)
  {
    hide IsDirty, LengthOf;
  }

  lemma {:induction false} EraseSet(s: State, r: nat, x: Reader)
    ensures Erase(SetReader(s, r, x)) == Erase(s).(readers := Erase(s).readers[r := EraseReader(x)])
    ensures Erase(SetReader(Erase(s), r, x)) == Erase(s).(readers := Erase(s).readers[r := EraseReader(x)])
  {
    hide EraseReader;
    var e := Erase(s);
    assert Erase(SetReader(s, r, x)).readers == e.readers[r := EraseReader(x)];
    forall k | k in s.readers ensures EraseReader(EraseReader(s.readers[k])) == EraseReader(s.readers[k]) {
      EraseOnce(s.readers[k]);
    }
    assert Erase(SetReader(e, r, x)).readers == e.readers[r := EraseReader(x)];
    assert Erase(SetReader(e, r, x)).entries == e.entries;
  }

  lemma {:induction false} EraseOnce(r: Reader)
    ensures EraseReader(EraseReader(r)) == EraseReader(r)
  {
  }

  /** What becomes of the reader that a reader's step is about. */
  function Moved(s: State, a: Action): Reader
    requires EnabledReader(s, a)
  {
    StepReader(s, a).readers[a.r]
  }

  lemma {:induction false} OnlyItMoves(s: State, a: Action)
    requires EnabledReader(s, a)
    ensures StepReader(s, a) == SetReader(s, a.r, Moved(s, a))
  {
    hide CopyEnds, NextByte;
  }

  lemma {:induction false} SameMove(s: State, a: Action)
    requires EnabledReader(s, a) && EnabledReader(Erase(s), a)
    ensures EraseReader(Moved(s, a)) == EraseReader(Moved(Erase(s), a))
  {
    hide IsDirty, LengthOf, CopyEnds, NextByte;
    if a.CopyByte? {
      CopyRecords(s, s.readers[a.r]);
    }
  }

  lemma {:induction false} ReaderEnabledRecords(s: State, a: Action)
    ensures EnabledReader(s, a) <==> EnabledReader(Erase(s), a)
  {
  }

  lemma {:induction false} ReaderRecords(s: State, a: Action)
    ensures EnabledReader(s, a) <==> EnabledReader(Erase(s), a)
    ensures EnabledReader(s, a) ==> Erase(StepReader(s, a)) == Erase(StepReader(Erase(s), a))
  {
    hide StepReader, Erase, EraseReader, SetReader, Moved;
    ReaderEnabledRecords(s, a);
    if EnabledReader(s, a) {
      OnlyItMoves(s, a);
      OnlyItMoves(Erase(s), a);
      SameMove(s, a);
      EraseSet(s, a.r, Moved(s, a));
      EraseSet(s, a.r, Moved(Erase(s), a));
    }
  }

  lemma {:induction false} WaiterRecords(s: State, a: Action)
    ensures EnabledWaiter(s, a) <==> EnabledWaiter(Erase(s), a)
    ensures EnabledWaiter(s, a) ==> Erase(StepWaiter(s, a)) == Erase(StepWaiter(Erase(s), a))
  {
    assert Erase(Erase(s)).entries == Erase(s).entries;
    assert Erase(Erase(s)).readers == Erase(s).readers;
  }

  // ---------------------------------------------------------------- the invariant

  /** The writer is between the dirty and the clean serial of `e`. */
  predicate Rewriting(s: State, e: nat)
  {
    s.writer.Writing? && s.writer.e == e
  }

  predicate EntryOk(s: State, e: nat)
    requires e in s.entries
  {
    var entry := s.entries[e];
    entry.history != [] && (forall v :: v in entry.history ==> Storable(v)) && |entry.slot| == PROP_VALUE_MAX
    && entry.serial == ShortSerial(|Current(entry)|, Count(entry)) + (if Rewriting(s, e) then 1 else 0)
    && (!Rewriting(s, e) ==> Filled(entry.slot, Current(entry)))
  }

  /** While an entry is dirty, and while its update is about to make it so, the backup slot holds (the
      stored part of) its last committed value. */
  predicate WriterOk(s: State)
  {
    |s.backup| == PROP_VALUE_MAX
    && match s.writer
       case BackingUp(e, value, snapshot, left) =>
         e in s.entries && s.entries[e].history != [] && Storable(value) && snapshot == Current(s.entries[e])
         && FilledBut(s.backup, snapshot, left)
       case Writing(e, value, left) =>
         e in s.entries && s.entries[e].history != [] && Storable(value) && Filled(s.backup, Current(s.entries[e]))
         && FilledBut(s.entries[e].slot, value, left)
       case WakingEntry(e) => e in s.entries
       case _ => true
  }

  /** What has been copied so far is right, unless the entry has changed since. */
  predicate CopyOk(buf: Str, done: bool, v: Str)
  {
    buf <= v && (done ==> buf == v)
  }

  predicate ReaderOk(s: State, reader: Reader)
  {
    reader.e in s.entries && s.entries[reader.e].history != []
    && var entry := s.entries[reader.e];
       match reader
       case Starting(_) => true
       case Copying(e, serial, from, buf, done) =>
         from < |entry.history|
         && serial == ShortSerial(|entry.history[from]|, from) + (if IsDirty(serial) then 1 else 0)
         && (if IsDirty(serial) then from == Count(entry) ==> Rewriting(s, e) && CopyOk(buf, done, entry.history[from])
             else from == Count(entry) && !Rewriting(s, e) ==> CopyOk(buf, done, entry.history[from]))
       case Accepted(e, value, from, to) =>
         from <= to < |entry.history| && (to - from) % COUNTER_PERIOD == 0 && |entry.history[from]| == |entry.history[to]|
         && (to == from ==> value == entry.history[from])
  }

  /** The writer has a wake-up on this word still to issue in the call it is in. */
  predicate WakeDue(s: State, t: Target)
  {
    match t
    case OfEntry(e) => Rewriting(s, e) || s.writer == WakingEntry(e)
    case Global => s.writer.WakingAll?
  }

  /** What the call in progress does to the entry will not bring back the word `seen`. */
  predicate StaysAway(s: State, t: Target, seen: nat)
  {
    match t
    case OfEntry(e) => Rewriting(s, e) && e in s.entries ==> NextSerial(s.entries[e].serial, |s.writer.value|) != seen
    case Global => true
  }

  predicate WaiterOk(s: State, w: Waiter)
  {
    WordOf(s, w.target).Some?
    && (w.Parked? && WordOf(s, w.target).value != w.seen ==> WakeDue(s, w.target) && StaysAway(s, w.target, w.seen))
    && (w.Returned? ==> w.serial != w.seen)
  }

  predicate Inv(s: State)
  {
    WriterOk(s)
    && (forall e :: e in s.entries ==> EntryOk(s, e))
    && (forall r :: r in s.readers ==> ReaderOk(s, s.readers[r]))
    && forall w :: w in s.waiters ==> WaiterOk(s, s.waiters[w])
  }

  function Start(): State
  {
    State(map[], Zeros(PROP_VALUE_MAX), Idle, 0, map[], map[])
  }

  // ---------------------------------------------------------------- the writer keeps the invariant

  /** The step stores into the slot or the serial of the entry. */
  predicate Rewrites(s: State, a: Action, e: nat)
  {
    match a
    case MarkDirty => s.writer.BackingUp? && s.writer.e == e
    case StoreValue(_) => s.writer.Writing? && s.writer.e == e
    case Publish => s.writer.Writing? && s.writer.e == e
    case _ => false
  }

  lemma {:induction false} OtherEntry(s: State, a: Action, e: nat)
    requires EnabledWriter(s, a) && e in s.entries && !Rewrites(s, a, e)
    ensures var t := StepWriter(s, a);
            e in t.entries && t.entries[e] == s.entries[e] && (Rewriting(t, e) <==> Rewriting(s, e))
  {
    hide ShortSerial, NextSerial, Dirty, Woken, UpToNul, Positions, InitialSerial, Storable;
  }

  lemma {:induction false} SameEntry(s: State, t: State, e: nat)
    requires e in s.entries && EntryOk(s, e) && e in t.entries && t.entries[e] == s.entries[e] && (Rewriting(t, e) <==> Rewriting(s, e))
    ensures EntryOk(t, e)
  {
    hide Rewriting, Storable, Filled, ShortSerial;
  }

  lemma {:induction false} EntryKept(s: State, a: Action, e: nat)
    requires Inv(s) && EnabledWriter(s, a) && e in s.entries
    ensures e in StepWriter(s, a).entries && EntryOk(StepWriter(s, a), e)
  {
    hide EntryOk, ReaderOk, WaiterOk, WriterOk, StepWriter, EnabledWriter, Rewriting;
    if !Rewrites(s, a, e) {
      OtherEntry(s, a, e);
      SameEntry(s, StepWriter(s, a), e);
    } else if a.MarkDirty? {
      MarkedEntry(s, e);
    } else if a.Publish? {
      PublishEntry(s);
    } else {
      StoredEntry(s, a.i, e);
    }
  }

  lemma {:induction false} StoredEntry(s: State, i: nat, e: nat)
    requires e in s.entries && EntryOk(s, e) && EnabledWriter(s, StoreValue(i)) && s.writer.e == e
    ensures e in StepWriter(s, StoreValue(i)).entries && EntryOk(StepWriter(s, StoreValue(i)), e)
  {
    hide Storable, Filled, ShortSerial;
  }

  lemma {:induction false} MarkedEntry(s: State, e: nat)
    requires e in s.entries && EntryOk(s, e) && EnabledWriter(s, MarkDirty) && s.writer.e == e
    ensures e in StepWriter(s, MarkDirty).entries && EntryOk(StepWriter(s, MarkDirty), e)
  {
    hide ShortSerial, Dirty, IsDirty, IsLong, LengthOf, Positions, Storable, Filled;
    ShortSerialFields(|Current(s.entries[e])|, Count(s.entries[e]));
    DirtyOfClean(ShortSerial(|Current(s.entries[e])|, Count(s.entries[e])));
  }

  lemma {:induction false} DirtyOfClean(serial: nat)
    requires !IsDirty(serial)
    ensures Dirty(serial) == serial + 1
  {
  }

  lemma {:induction false} EntriesKept(s: State, a: Action)
    requires Inv(s) && EnabledWriter(s, a)
    ensures forall e :: e in StepWriter(s, a).entries ==> EntryOk(StepWriter(s, a), e)
  {
    hide Inv, EntryOk, StepWriter, EnabledWriter;
    var t := StepWriter(s, a);
    forall e | e in t.entries ensures EntryOk(t, e) {
      if e in s.entries {
        EntryKept(s, a, e);
      } else {
        AddedEntry(s, a, e);
      }
    }
  }

  lemma {:induction false} AddedEntry(s: State, a: Action, e: nat)
    requires EnabledWriter(s, a) && e !in s.entries && e in StepWriter(s, a).entries
    ensures EntryOk(StepWriter(s, a), e)
  {
    hide ShortSerial, NextSerial, Dirty, InitialSerial, Woken, UpToNul, Positions;
    InitialIsZeroUpdates(|a.value|);
  }

  lemma {:induction false} PublishEntry(s: State)
    requires WriterOk(s) && EnabledWriter(s, Publish) && EntryOk(s, s.writer.e)
    ensures s.writer.e in StepWriter(s, Publish).entries && EntryOk(StepWriter(s, Publish), s.writer.e)
  {
    hide ShortSerial, NextSerial, Storable, FilledBut, Filled;
    var entry, value := s.entries[s.writer.e], s.writer.value;
    DirtySerialNext(|Current(entry)|, Count(entry), |value|);
    AllFilled(entry.slot, value);
    OneCommit(entry, value);
  }

  lemma {:induction false} OneCommit(entry: Entry, value: Str)
    requires entry.history != [] && (forall v :: v in entry.history ==> Storable(v)) && Storable(value)
    ensures var entry' := entry.(history := entry.history + [value]);
            Current(entry') == value && Count(entry') == Count(entry) + 1 && forall v :: v in entry'.history ==> Storable(v)
  {
    hide Storable;
  }

  lemma {:induction false} DirtySerialNext(len: nat, updates: nat, len': nat)
    ensures NextSerial(ShortSerial(len, updates) + 1, len') == ShortSerial(len', updates + 1)
  {
    hide CounterBits, IsDirty, ShortSerial;
    ShortSerialFields(len, updates);
    NextIsOneMoreUpdate(len, updates, len');
    OddIsDirty(ShortSerial(len, updates));
  }

  lemma {:induction false} AllFilled(bytes: Str, v: Str)
    requires FilledBut(bytes, v, {})
    ensures Filled(bytes, v)
  {
  }

  lemma {:induction false} BackupStoreKept(s: State, i: nat)
    requires WriterOk(s) && EnabledWriter(s, StoreBackup(i))
    ensures WriterOk(StepWriter(s, StoreBackup(i)))
  {
    hide Filled, Storable, Positions;
  }

  lemma {:induction false} ValueStoreKept(s: State, i: nat)
    requires WriterOk(s) && EnabledWriter(s, StoreValue(i))
    ensures WriterOk(StepWriter(s, StoreValue(i)))
  {
    hide Filled, Storable, Positions;
  }

  lemma {:induction false} DirtyMarkKept(s: State)
    requires WriterOk(s) && EnabledWriter(s, MarkDirty) && EntryOk(s, s.writer.e)
    ensures WriterOk(StepWriter(s, MarkDirty))
  {
    hide Filled, Dirty, ShortSerial;
    AllFilled(s.backup, Current(s.entries[s.writer.e]));
  }

  lemma {:induction false} WriterKept(s: State, a: Action)
    requires Inv(s) && EnabledWriter(s, a)
    ensures WriterOk(StepWriter(s, a))
  {
    hide ReaderOk, WaiterOk, ShortSerial, NextSerial, Dirty, Woken, FilledBut, Filled, InitialSerial;
    match a
    case StoreBackup(i) => BackupStoreKept(s, i);
    case StoreValue(i) => ValueStoreKept(s, i);
    case MarkDirty => DirtyMarkKept(s);
    case BeginUpdate(e, value) =>
      SnapshotIsCurrent(s, e);
      NothingFilled(s.backup, Current(s.entries[e]));
    case _ =>
  }

  /** Between calls the slot, read up to its first NUL, is the last committed value. */
  lemma {:induction false} SnapshotIsCurrent(s: State, e: nat)
    requires Inv(s) && s.writer.Idle? && e in s.entries
    ensures UpToNul(s.entries[e].slot, 0, |s.entries[e].slot|) == Current(s.entries[e])
    ensures s.entries[e].history != [] && |Current(s.entries[e])| < |s.backup|
  {
    hide ReaderOk, WaiterOk, ShortSerial, UpToNul;
    var entry := s.entries[e];
    assert EntryOk(s, e);
    assert Current(entry) in entry.history;
    assert entry.slot[0..|Current(entry)| + 1] == Current(entry) + [0];
    UpToNulReads(entry.slot, 0, |entry.slot|, Current(entry));
  }

  lemma {:induction false} NothingFilled(bytes: Str, v: Str)
    requires |v| < |bytes|
    ensures FilledBut(bytes, v, Positions(|v| + 1))
  {
  }

  // ---------------------------------------------------------------- readers and waiters under the writer's steps

  /** What a writer's step may do to one entry, as far as its readers care. */
  lemma {:induction false} EntryMoves(s: State, a: Action, e: nat)
    requires Inv(s) && EnabledWriter(s, a) && e in s.entries
    ensures var t := StepWriter(s, a);
            e in t.entries && s.entries[e].history != [] && t.entries[e].history != []
            && Count(s.entries[e]) <= Count(t.entries[e])
            && (forall k :: 0 <= k < |s.entries[e].history| ==> t.entries[e].history[k] == s.entries[e].history[k])
            && (Count(t.entries[e]) == Count(s.entries[e]) && Rewriting(s, e) ==> Rewriting(t, e))
            && (Count(t.entries[e]) > Count(s.entries[e]) ==> Rewriting(s, e))
  {
    hide ReaderOk, WaiterOk, WriterOk, ShortSerial, NextSerial, Dirty, Woken, InitialSerial;
    assert EntryOk(s, e);
  }

  lemma {:induction false} ReaderKept(s: State, a: Action, r: Reader)
    requires Inv(s) && EnabledWriter(s, a) && ReaderOk(s, r)
    ensures ReaderOk(StepWriter(s, a), r)
  {
    hide Inv, EntryOk, WriterOk, WaiterOk, ShortSerial, IsDirty, EnabledWriter, StepWriter, Storable, CopyOk;
    EntryMoves(s, a, r.e);
  }

  lemma {:induction false} WaiterKept(s: State, a: Action, w: nat)
    requires Inv(s) && EnabledWriter(s, a) && w in s.waiters
    ensures var t := StepWriter(s, a); w in t.waiters && WaiterOk(t, t.waiters[w])
  {
    hide EntryOk, WriterOk, ReaderOk, ShortSerial, NextSerial, Dirty, InitialSerial, Storable, Positions;
    assert WaiterOk(s, s.waiters[w]);
    if a.MarkDirty? && s.waiters[w].target == OfEntry(s.writer.e) {
      MarkStaysAway(s);
    }
  }

  /** The serial that the update will publish is not the one it has marked. */
  lemma {:induction false} MarkStaysAway(s: State)
    requires Inv(s) && EnabledWriter(s, MarkDirty)
    ensures NextSerial(Dirty(s.entries[s.writer.e].serial), |s.writer.value|) != s.entries[s.writer.e].serial
  {
    hide ReaderOk, WaiterOk, WriterOk, ShortSerial, NextSerial, Dirty, Storable, Filled;
    var entry := s.entries[s.writer.e];
    assert EntryOk(s, s.writer.e);
    ShortSerialFields(|Current(entry)|, Count(entry));
    DirtySerialNext(|Current(entry)|, Count(entry), |s.writer.value|);
    SerialsCoincide(|Current(entry)|, Count(entry), |s.writer.value|, Count(entry) + 1);
  }

  lemma {:induction false} WriterStepKeepsInv(s: State, a: Action)
    requires Inv(s) && EnabledWriter(s, a)
    ensures Inv(StepWriter(s, a))
  {
    hide EntryOk, WriterOk, ReaderOk, WaiterOk, EnabledWriter;
    var t := StepWriter(s, a);
    WriterKept(s, a);
    EntriesKept(s, a);
    SameParties(s, a);
    forall r | r in t.readers ensures ReaderOk(t, t.readers[r]) {
      ReaderKept(s, a, s.readers[r]);
    }
    forall w | w in t.waiters ensures WaiterOk(t, t.waiters[w]) {
      WaiterKept(s, a, w);
    }
  }

  lemma {:induction false} SameParties(s: State, a: Action)
    requires EnabledWriter(s, a)
    ensures StepWriter(s, a).readers == s.readers && StepWriter(s, a).waiters.Keys == s.waiters.Keys
  {
    hide ShortSerial, NextSerial, Dirty, InitialSerial, Storable, Positions;
  }

  // ---------------------------------------------------------------- readers' and waiters' own steps

  lemma {:induction false} LoadIsOk(s: State, r: nat)
    requires Inv(s) && EnabledReader(s, LoadSerial(r))
    ensures ReaderOk(s, StepReader(s, LoadSerial(r)).readers[r])
  {
    hide WaiterOk, ShortSerial, IsDirty, IsLong, LengthOf, WriterOk;
    var e := s.readers[r].e;
    var entry := s.entries[e];
    assert EntryOk(s, e);
    ShortSerialFields(|Current(entry)|, Count(entry));
    OddIsDirty(ShortSerial(|Current(entry)|, Count(entry)));
  }

  /** The next byte of a copy is the next byte of the value, if the entry has not changed since. */
  lemma {:induction false} CopyIsOk(s: State, r: nat)
    requires Inv(s) && EnabledReader(s, CopyByte(r))
    ensures ReaderOk(s, StepReader(s, CopyByte(r)).readers[r])
  {
    hide WaiterOk, ShortSerial, IsLong, LengthOf, WriterOk, EntryOk;
    var reader := s.readers[r];
    var e := reader.e;
    var entry := s.entries[e];
    assert ReaderOk(s, reader);
    assert entry.history != [];
    if reader.from == Count(entry) {
      if IsDirty(reader.serial) {
        BackupCopy(s, reader);
      } else if !Rewriting(s, e) {
        SlotCopy(s, reader);
      }
    }
  }

  lemma {:induction false} BackupCopy(s: State, reader: Reader)
    requires Inv(s) && reader.Copying? && ReaderOk(s, reader) && IsDirty(reader.serial)
    requires reader.from == Count(s.entries[reader.e])
    ensures var v := Current(s.entries[reader.e]);
            if CopyEnds(s, reader) then reader.buf == v
            else |reader.buf| < |v| && NextByte(s, reader) == v[|reader.buf|]
  {
    hide WaiterOk, ShortSerial, IsLong, Dirty, IsDirty, LengthOf;
    var v := Current(s.entries[reader.e]);
    ShortSerialFields(|v|, reader.from);
    assert EntryOk(s, reader.e);
    assert Storable(v);
    assert s.backup[..|v|] == v;
  }

  lemma {:induction false} SlotCopy(s: State, reader: Reader)
    requires Inv(s) && reader.Copying? && ReaderOk(s, reader) && !IsDirty(reader.serial)
    requires reader.from == Count(s.entries[reader.e]) && !Rewriting(s, reader.e)
    ensures var v := Current(s.entries[reader.e]);
            if CopyEnds(s, reader) then reader.buf == v
            else |reader.buf| < |v| && NextByte(s, reader) == v[|reader.buf|]
  {
    hide WaiterOk, ShortSerial, IsLong, Dirty, IsDirty, LengthOf, WriterOk;
    var v, slot := Current(s.entries[reader.e]), s.entries[reader.e].slot;
    assert EntryOk(s, reader.e);
    assert Storable(v);
    if |reader.buf| < |v| {
      assert slot[|reader.buf|] == slot[..|v|][|reader.buf|] == v[|reader.buf|];
      assert v[|reader.buf|] in v;
    }
  }

  /** The check at the end: an unchanged serial means an unchanged entry, or that whole periods of the counter
      have gone by. */
  lemma {:induction false} RecheckIsOk(s: State, r: nat)
    requires Inv(s) && EnabledReader(s, Recheck(r))
    ensures ReaderOk(s, StepReader(s, Recheck(r)).readers[r])
  {
    hide EntryOk, WaiterOk, ShortSerial, IsLong, LengthOf, WriterOk, Dirty, IsDirty;
    var reader := s.readers[r];
    var entry := s.entries[reader.e];
    assert ReaderOk(s, reader);
    EntrySerial(s, reader.e);
    var was, now := |entry.history[reader.from]|, |Current(entry)|;
    if entry.serial == reader.serial {
      ShortSerialFields(was, reader.from);
      ShortSerialFields(now, Count(entry));
      OddIsDirty(ShortSerial(was, reader.from));
      OddIsDirty(ShortSerial(now, Count(entry)));
      SerialsCoincide(was, reader.from, now, Count(entry));
    }
  }

  lemma {:induction false} EntrySerial(s: State, e: nat)
    requires Inv(s) && e in s.entries
    ensures var entry := s.entries[e];
            entry.history != [] && entry.serial == ShortSerial(|Current(entry)|, Count(entry)) + (if Rewriting(s, e) then 1 else 0)
  {
    hide ReaderOk, WaiterOk, WriterOk, ShortSerial, Rewriting, Filled, Storable;
    assert EntryOk(s, e);
  }

  lemma {:induction false} ReaderStepKeepsInv(s: State, a: Action)
    requires Inv(s) && EnabledReader(s, a)
    ensures Inv(StepReader(s, a))
  {
    hide EntryOk, WriterOk, WaiterOk, CopyEnds, NextByte, ReaderOk;
    var t := StepReader(s, a);
    match a {
      case Open(r, e) => OpenIsOk(s, e);
      case LoadSerial(r) => LoadIsOk(s, r);
      case CopyByte(r) => CopyIsOk(s, r);
      case Recheck(r) => RecheckIsOk(s, r);
      case _ =>
    }
    forall r | r in t.readers ensures ReaderOk(s, t.readers[r]) {
      OtherReaders(s, a, r);
    }
    OnlyReaders(s, t);
  }

  lemma {:induction false} OpenIsOk(s: State, e: nat)
    requires Inv(s) && e in s.entries
    ensures ReaderOk(s, Starting(e))
  {
    assert EntryOk(s, e);
  }

  lemma {:induction false} OtherReaders(s: State, a: Action, r: nat)
    requires EnabledReader(s, a) && r in StepReader(s, a).readers
    ensures r == a.r || (r in s.readers && StepReader(s, a).readers[r] == s.readers[r])
    ensures a.Open? && r == a.r ==> StepReader(s, a).readers[r] == Starting(a.e)
  {
    hide CopyEnds, NextByte;
  }

  /** The invariant looks at readers one by one. */
  lemma {:induction false} OnlyReaders(s: State, t: State)
    requires Inv(s) && t == s.(readers := t.readers) && forall r :: r in t.readers ==> ReaderOk(s, t.readers[r])
    ensures Inv(t)
  {
    hide ShortSerial, IsDirty, Storable, Filled, FilledBut, CopyOk;
    forall e | e in t.entries ensures EntryOk(t, e) {
      assert EntryOk(s, e);
    }
    forall w | w in t.waiters ensures WaiterOk(t, t.waiters[w]) {
      assert WaiterOk(s, s.waiters[w]);
    }
  }

  lemma {:induction false} WaiterStepKeepsInv(s: State, a: Action)
    requires Inv(s) && EnabledWaiter(s, a)
    ensures Inv(StepWaiter(s, a))
  {
    hide EntryOk, WriterOk, ReaderOk;
    var t := StepWaiter(s, a);
    forall w | w in t.waiters ensures WaiterOk(s, t.waiters[w]) {
      if w in s.waiters {
        assert WaiterOk(s, s.waiters[w]);
      }
    }
    OnlyWaiters(s, t);
  }

  lemma {:induction false} OnlyWaiters(s: State, t: State)
    requires Inv(s) && t == s.(waiters := t.waiters) && forall w :: w in t.waiters ==> WaiterOk(s, t.waiters[w])
    ensures Inv(t)
  {
    hide ShortSerial, IsDirty, Storable, Filled, FilledBut, CopyOk;
    forall e | e in t.entries ensures EntryOk(t, e) {
      assert EntryOk(s, e);
    }
    forall r | r in t.readers ensures ReaderOk(t, t.readers[r]) {
      assert ReaderOk(s, s.readers[r]);
    }
    forall w | w in t.waiters ensures WaiterOk(t, t.waiters[w]) {
      assert WaiterOk(s, t.waiters[w]);
    }
  }

  // ---------------------------------------------------------------- every run

  lemma {:induction false} StepKeepsInv(s: State, a: Action)
    requires Inv(s) && Enabled(s, a)
    ensures Inv(Step(s, a))
  {
    hide Inv, EnabledWriter, EnabledReader, EnabledWaiter, StepWriter, StepReader, StepWaiter;
    if EnabledWriter(s, a) {
      WriterStepKeepsInv(s, a);
    } else if EnabledReader(s, a) {
      ReaderStepKeepsInv(s, a);
    } else {
      WaiterStepKeepsInv(s, a);
    }
  }

  lemma {:induction false} RunKeepsInv(s: State, acts: seq<Action>)
    requires Inv(s) && Run(s, acts).Some?
    ensures Inv(Run(s, acts).value)
    decreases |acts|
  {
    hide Inv, Enabled, Step;
    if acts != [] {
      StepKeepsInv(s, acts[0]);
      RunKeepsInv(Step(s, acts[0]), acts[1..]);
    }
  }

  ghost predicate Reachable(s: State)
  {
    exists acts :: Run(Start(), acts) == Some(s)
  }

  lemma {:induction false} ReachableInv(s: State)
    requires Reachable(s)
    ensures Inv(s)
  {
    hide Inv, Run;
    var acts :| Run(Start(), acts) == Some(s);
    StartInv();
    RunKeepsInv(Start(), acts);
  }

  lemma {:induction false} StartInv()
    ensures Inv(Start())
  {
  }

  // ---------------------------------------------------------------- what holds of every run

  /** In every reachable state at most one entry is dirty, and while it is, the backup slot holds its last
      committed value, NUL-terminated, of the length its serial records. */
  lemma {:induction false} DirtyEntryIsBackedUp(s: State, e: nat)
    requires Reachable(s) && e in s.entries && IsDirty(s.entries[e].serial)
    ensures forall d :: d in s.entries && IsDirty(s.entries[d].serial) ==> d == e
    ensures var entry := s.entries[e];
            entry.history != [] && Filled(s.backup, Current(entry)) && LengthOf(entry.serial) == |Current(entry)|
  {
    hide ReaderOk, WaiterOk, ShortSerial, IsDirty, LengthOf, Storable, Filled, FilledBut, Reachable;
    ReachableInv(s);
    forall d | d in s.entries && IsDirty(s.entries[d].serial) ensures Rewriting(s, d) {
      assert EntryOk(s, d);
      ShortSerialFields(|Current(s.entries[d])|, Count(s.entries[d]));
    }
    assert EntryOk(s, e);
    ShortSerialFields(|Current(s.entries[e])|, Count(s.entries[e]));
  }

  /** In every reachable state a clean entry's serial tells its value's length and its update count modulo
      2^15, and its slot holds its last committed value. */
  lemma {:induction false} CleanEntrySerial(s: State, e: nat)
    requires Reachable(s) && e in s.entries && !IsDirty(s.entries[e].serial)
    ensures var entry := s.entries[e];
            entry.history != [] && entry.serial == ShortSerial(|Current(entry)|, Count(entry)) && !IsLong(entry.serial)
            && Filled(entry.slot, Current(entry))
  {
    hide ReaderOk, WaiterOk, WriterOk, ShortSerial, IsDirty, LengthOf, Storable, Filled, FilledBut, Reachable, IsLong;
    ReachableInv(s);
    assert EntryOk(s, e);
    ShortSerialFields(|Current(s.entries[e])|, Count(s.entries[e]));
    OddIsDirty(ShortSerial(|Current(s.entries[e])|, Count(s.entries[e])));
  }

  /** Between the ends of an accepted attempt none or a whole number of counter periods of updates complete,
      and the value keeps its length.  If none, the value accepted is a whole committed value of its entry
      that was current throughout; so it is if fewer than 2^15 updates complete. */
  lemma {:induction false} AcceptedWasCurrent(s: State, r: nat)
    requires Reachable(s) && r in s.readers && s.readers[r].Accepted?
    ensures var reader := s.readers[r];
            reader.e in s.entries && reader.from <= reader.to < |s.entries[reader.e].history|
            && (var history := s.entries[reader.e].history;
                (reader.to - reader.from) % COUNTER_PERIOD == 0 && |history[reader.from]| == |history[reader.to]|
                && (reader.to == reader.from ==> reader.value == history[reader.from])
                && (reader.to - reader.from < COUNTER_PERIOD ==> reader.to == reader.from))
  {
    hide EntryOk, WaiterOk, WriterOk, Reachable;
    ReachableInv(s);
    assert ReaderOk(s, s.readers[r]);
  }

  /** No wake-up is lost: a parked waiter still sees the value it waits on, or the writer is yet to wake it
      in the call it is in; and a waiter that returns has seen the word change. */
  lemma {:induction false} NoLostWakeup(s: State, w: nat)
    requires Reachable(s) && w in s.waiters
    ensures var waiter := s.waiters[w];
            WordOf(s, waiter.target).Some?
            && (waiter.Parked? ==> WordOf(s, waiter.target).value == waiter.seen || WakeDue(s, waiter.target))
            && (waiter.Parked? && s.writer.Idle? ==> WordOf(s, waiter.target).value == waiter.seen)
            && (waiter.Returned? ==> waiter.serial != waiter.seen)
  {
    hide EntryOk, ReaderOk, WriterOk, Reachable;
    ReachableInv(s);
    assert WaiterOk(s, s.waiters[w]);
  }

  // ---------------------------------------------------------------- the writer always finishes

  lemma {:induction false} RunAppend(s: State, a: seq<Action>, b: seq<Action>)
    ensures Run(s, a + b) == match Run(s, a) case None => None case Some(t) => Run(t, b)
    decreases |a|
  {
    hide Enabled, Step;
    if a == [] {
      assert a + b == b;
    } else {
      assert (a + b)[0] == a[0] && (a + b)[1..] == a[1..] + b;
      if Enabled(s, a[0]) {
        RunAppend(Step(s, a[0]), a[1..], b);
      }
    }
  }

  /** Steps the writer still has to take in the call it is in. */
  function StepsLeft(w: Writer): nat
  {
    match w
    case Idle => 0
    case WakingAll => 1
    case Bumping => 2
    case WakingEntry(_) => 3
    case Writing(_, _, left) => 4 + |left|
    case BackingUp(_, value, _, left) => 6 + |value| + |left|
  }

  /** What the call in progress will have committed once it is over. */
  function Pending(s: State, e: nat): seq<Str>
  {
    if (s.writer.Writing? || s.writer.BackingUp?) && s.writer.e == e then [s.writer.value] else []
  }

  ghost predicate Kept(s: State, t: State)
  {
    t.readers == s.readers && t.entries.Keys == s.entries.Keys
    && forall e :: e in s.entries ==> t.entries[e].history + Pending(t, e) == s.entries[e].history + Pending(s, e)
  }

  lemma {:induction false} NextOfWriting(s: State) returns (a: Action)
    requires WriterOk(s) && s.writer.Writing?
    ensures EnabledWriter(s, a) && StepsLeft(StepWriter(s, a).writer) < StepsLeft(s.writer)
  {
    hide ShortSerial, NextSerial, Dirty, Storable, InitialSerial, Woken, Filled, Positions;
    var left := s.writer.left;
    if left == {} {
      a := Publish;
    } else {
      var i :| i in left;
      a := StoreValue(i);
      assert |left - {i}| < |left|;
    }
  }

  lemma {:induction false} NextOfBackingUp(s: State) returns (a: Action)
    requires WriterOk(s) && s.writer.BackingUp?
    ensures EnabledWriter(s, a) && StepsLeft(StepWriter(s, a).writer) < StepsLeft(s.writer)
  {
    hide ShortSerial, NextSerial, Dirty, Storable, InitialSerial, Woken, Filled, Positions;
    var left := s.writer.left;
    if left == {} {
      PositionsCount(|s.writer.value| + 1);
      a := MarkDirty;
    } else {
      var i :| i in left;
      a := StoreBackup(i);
      assert |left - {i}| < |left|;
    }
  }

  /** In the middle of a call the writer can always go on, and gets nearer its end. */
  lemma {:induction false} NextAction(s: State) returns (a: Action)
    requires Inv(s) && !s.writer.Idle?
    ensures EnabledWriter(s, a) && StepsLeft(StepWriter(s, a).writer) < StepsLeft(s.writer)
  {
    hide ReaderOk, WaiterOk, EntryOk, WriterOk, Woken;
    match s.writer {
      case WakingAll => a := WakeGlobal;
      case Bumping => a := BumpGlobal;
      case WakingEntry(_) => a := WakeEntry;
      case Writing(_, _, _) => a := NextOfWriting(s);
      case BackingUp(_, _, _, _) => a := NextOfBackingUp(s);
    }
  }

  lemma {:induction false} PositionsCount(n: nat)
    ensures |Positions(n)| == n
  {
    if n > 0 {
      PositionsCount(n - 1);
    }
  }

  lemma {:induction false} EntryPending(s: State, a: Action, e: nat)
    requires EnabledWriter(s, a) && !s.writer.Idle? && e in s.entries
    ensures var t := StepWriter(s, a);
            e in t.entries && t.entries[e].history + Pending(t, e) == s.entries[e].history + Pending(s, e)
  {
    hide ShortSerial, NextSerial, Dirty, Storable, InitialSerial, Woken, UpToNul, Positions;
    var t := StepWriter(s, a);
    if a.Publish? && e == s.writer.e {
      assert t.entries[e].history + [] == t.entries[e].history;
    }
  }

  lemma {:induction false} SameKeys(s: State, a: Action)
    requires EnabledWriter(s, a) && !s.writer.Idle?
    ensures StepWriter(s, a).entries.Keys == s.entries.Keys
  {
    hide ShortSerial, NextSerial, Dirty, Storable, InitialSerial, Woken, UpToNul, Positions;
  }

  lemma {:induction false} StepKept(s: State, a: Action)
    requires EnabledWriter(s, a) && !s.writer.Idle?
    ensures Kept(s, StepWriter(s, a))
  {
    hide StepWriter, EnabledWriter, Pending;
    SameParties(s, a);
    SameKeys(s, a);
    forall e | e in s.entries
      ensures StepWriter(s, a).entries[e].history + Pending(StepWriter(s, a), e) == s.entries[e].history + Pending(s, e)
    {
      EntryPending(s, a, e);
    }
  }

  /** A step of the writer within a call. */
  predicate InCall(a: Action)
  {
    a.StoreBackup? || a.MarkDirty? || a.StoreValue? || a.Publish? || a.WakeEntry? || a.BumpGlobal? || a.WakeGlobal?
  }

  predicate AllInCall(acts: seq<Action>)
  {
    forall i :: 0 <= i < |acts| ==> InCall(acts[i])
  }

  /** From every state the invariant allows, the writer alone finishes the call it is in, which commits
      what that call set out to commit and counts the global serial up by one, modulo 2^32. */
  lemma {:induction false} WriterFinishes(s: State) returns (acts: seq<Action>)
    requires Inv(s)
    ensures Run(s, acts).Some? && Inv(Run(s, acts).value) && AllInCall(acts)
    ensures Run(s, acts).value.writer.Idle? && Kept(s, Run(s, acts).value)
    ensures Run(s, acts).value.global
         == if s.writer.Idle? || s.writer.WakingAll? then s.global else (s.global + 1) % 4_294_967_296
    decreases StepsLeft(s.writer)
  {
    hide Inv, EnabledWriter, StepWriter, EnabledReader, EnabledWaiter;
    if s.writer.Idle? {
      acts := [];
    } else {
      var a := NextAction(s);
      var t := StepWriter(s, a);
      StepKept(s, a);
      GlobalStep(s, a);
      WriterStepKeepsInv(s, a);
      var more := WriterFinishes(t);
      acts := [a] + more;
      assert acts[1..] == more && Step(s, a) == t;
      KeptTrans(s, t, Run(t, more).value);
    }
  }

  lemma {:induction false} GlobalStep(s: State, a: Action)
    requires EnabledWriter(s, a) && !s.writer.Idle?
    ensures InCall(a)
    ensures var t := StepWriter(s, a);
            (s.writer.Bumping? ==> t.writer.WakingAll? && t.global == (s.global + 1) % 4_294_967_296)
            && (s.writer.WakingAll? ==> t.writer.Idle? && t.global == s.global)
            && (!s.writer.Bumping? && !s.writer.WakingAll? ==> !t.writer.Idle? && !t.writer.WakingAll? && t.global == s.global)
  {
    hide ShortSerial, NextSerial, Dirty, Storable, InitialSerial, Woken, UpToNul, Positions;
  }

  lemma {:induction false} KeptTrans(a: State, b: State, c: State)
    requires Kept(a, b) && Kept(b, c)
    ensures Kept(a, c)
  {
    hide Pending;
    forall e | e in a.entries ensures c.entries[e].history + Pending(c, e) == a.entries[e].history + Pending(a, e) {
      assert e in b.entries;
    }
  }

  // ---------------------------------------------------------------- and so does a waiter

  /** From every reachable state whose watched word differs from the old one, a waiter that is not parked
      returns that word by its own steps alone, at most two of them. */
  lemma {:induction false} WaiterReturns(s: State, w: nat) returns (acts: seq<Action>)
    requires Reachable(s) && w in s.waiters && (s.waiters[w].Checking? || s.waiters[w].Parking?)
    requires WordOf(s, s.waiters[w].target) != Some(s.waiters[w].seen)
    ensures acts == if s.waiters[w].Checking? then [Check(w)] else [Park(w), Check(w)]
    ensures WordOf(s, s.waiters[w].target).Some? && Run(s, acts) == Some(AfterReturn(s, w))
  {
    hide Reachable, Inv, WordOf;
    ReachableInv(s);
    WaitersWord(s, w);
    if s.waiters[w].Checking? {
      acts := [Check(w)];
      CheckReturns(s, w);
    } else {
      acts := [Park(w), Check(w)];
      var t := StepWaiter(s, Park(w));
      SameWord(s, w, t.waiters[w], s.waiters[w].target);
      CheckReturns(t, w);
      assert acts[1..] == [Check(w)] && Step(s, Park(w)) == t;
      assert AfterReturn(t, w).waiters == AfterReturn(s, w).waiters;
    }
  }

  /** The waiter has returned the word as it is, and nothing else has changed. */
  function AfterReturn(s: State, w: nat): State
    requires w in s.waiters && WordOf(s, s.waiters[w].target).Some?
  {
    var waiter := s.waiters[w];
    s.(waiters := s.waiters[w := Returned(waiter.target, waiter.seen, WordOf(s, waiter.target).value)])
  }

  lemma {:induction false} SameWord(s: State, w: nat, waiter: Waiter, t: Target)
    ensures WordOf(SetWaiter(s, w, waiter), t) == WordOf(s, t)
  {
  }

  lemma {:induction false} WaitersWord(s: State, w: nat)
    requires Inv(s) && w in s.waiters
    ensures WordOf(s, s.waiters[w].target).Some?
  {
    hide WriterOk, EntryOk, ReaderOk, WordOf;
    assert WaiterOk(s, s.waiters[w]);
  }

  lemma {:induction false} CheckReturns(s: State, w: nat)
    requires w in s.waiters && s.waiters[w].Checking? && WordOf(s, s.waiters[w].target).Some?
    requires WordOf(s, s.waiters[w].target) != Some(s.waiters[w].seen)
    ensures Run(s, [Check(w)]) == Some(AfterReturn(s, w))
  {
    hide WordOf;
    assert Enabled(s, Check(w)) && Step(s, Check(w)) == AfterReturn(s, w);
    assert [Check(w)][1..] == [];
    assert Run(AfterReturn(s, w), []) == Some(AfterReturn(s, w));
  }

  /** A waiter parked on a word that has changed is woken by the call in progress, and then returns what the word
      has become by one step of its own. */
  lemma {:induction false} ParkedReturns(s: State, w: nat) returns (acts: seq<Action>)
    requires Reachable(s) && w in s.waiters && s.waiters[w].Parked?
    requires WordOf(s, s.waiters[w].target) != Some(s.waiters[w].seen)
    ensures AllInCall(acts) && Run(s, acts).Some?
    ensures var t := Run(s, acts).value;
            t.writer.Idle? && w in t.waiters && t.waiters[w] == Checking(s.waiters[w].target, s.waiters[w].seen)
            && WordOf(t, s.waiters[w].target).Some? && WordOf(t, s.waiters[w].target).value != s.waiters[w].seen
            && Run(s, acts + [Check(w)]) == Some(AfterReturn(t, w))
  {
    hide Reachable, Inv, WordOf, AfterReturn, Waking;
    ReachableInv(s);
    acts := WriterFinishes(s);
    var t := Run(s, acts).value;
    ParkedIsWaking(s, w);
    WokenByCall(s, acts, w, s.waiters[w].target, s.waiters[w].seen);
    WaitersWord(t, w);
    CheckReturns(t, w);
    RunAppend(s, acts, [Check(w)]);
  }

  /** The waiter is parked on a word that has changed, or has been woken from it and the word will not change again
      in this call. */
  predicate Waking(s: State, w: nat, target: Target, seen: nat)
  {
    w in s.waiters && WordOf(s, target).Some? && WordOf(s, target).value != seen
    && (s.waiters[w] == Parked(target, seen)
        || (s.waiters[w] == Checking(target, seen)
            && (s.writer.Idle? || (target.OfEntry? && (s.writer.Bumping? || s.writer.WakingAll?)))))
  }

  lemma {:induction false} ParkedIsWaking(s: State, w: nat)
    requires Inv(s) && w in s.waiters && s.waiters[w].Parked? && WordOf(s, s.waiters[w].target) != Some(s.waiters[w].seen)
    ensures Waking(s, w, s.waiters[w].target, s.waiters[w].seen)
  {
    hide Inv, WordOf;
    WaitersWord(s, w);
  }

  lemma {:induction false} WakingStep(s: State, a: Action, w: nat, target: Target, seen: nat)
    requires Inv(s) && Waking(s, w, target, seen) && InCall(a) && EnabledWriter(s, a)
    ensures Waking(StepWriter(s, a), w, target, seen)
  {
    hide WriterOk, EntryOk, ReaderOk, ShortSerial, NextSerial, Dirty, InitialSerial, Storable, Positions, UpToNul;
    assert WaiterOk(s, s.waiters[w]);
  }

  /** However the writer orders the rest of its call, such a waiter is awake at its end, and the word another than
      the one it has seen. */
  lemma {:induction false} WokenByCall(s: State, acts: seq<Action>, w: nat, target: Target, seen: nat)
    requires Inv(s) && Waking(s, w, target, seen)
    requires AllInCall(acts) && Run(s, acts).Some? && Run(s, acts).value.writer.Idle?
    ensures var t := Run(s, acts).value;
            w in t.waiters && t.waiters[w] == Checking(target, seen) && WordOf(t, target).Some? && WordOf(t, target).value != seen
    decreases |acts|
  {
    hide WriterOk, EntryOk, ReaderOk, EnabledWriter, StepWriter, EnabledReader, EnabledWaiter, StepReader, StepWaiter, WordOf, InCall;
    if acts == [] {
      assert WaiterOk(s, s.waiters[w]);
    } else {
      var a := acts[0];
      CallIsWriters(s, a);
      WakingStep(s, a, w, target, seen);
      WriterStepKeepsInv(s, a);
      WokenByCall(StepWriter(s, a), acts[1..], w, target, seen);
    }
  }

  lemma {:induction false} CallIsWriters(s: State, a: Action)
    requires InCall(a) && Enabled(s, a)
    ensures EnabledWriter(s, a)
  {
    hide EnabledWriter;
  }

  /** A caller whose word has moved on already gets the new word at once; any other is parked on it. */
  lemma {:induction false} EntersAndReturns(s: State, w: nat, t: Target, seen: nat, word: nat)
    requires w !in s.waiters && WordOf(s, t) == Some(word)
    ensures word != seen ==> Run(s, [Enter(w, t, seen), Check(w)]) == Some(s.(waiters := s.waiters[w := Returned(t, seen, word)]))
    ensures word == seen ==>
              Run(s, [Enter(w, t, seen), Check(w), Park(w)]) == Some(s.(waiters := s.waiters[w := Parked(t, seen)]))
  {
    hide WordOf;
    var s1 := StepWaiter(s, Enter(w, t, seen));
    SameWord(s, w, Checking(t, seen), t);
    var acts := [Enter(w, t, seen), Check(w)];
    assert acts[1..] == [Check(w)] && Step(s, acts[0]) == s1;
    if word != seen {
      CheckReturns(s1, w);
      assert AfterReturn(s1, w).waiters == s.waiters[w := Returned(t, seen, word)];
    } else {
      var s2 := StepWaiter(s1, Check(w));
      SameWord(s1, w, Parking(t, seen), t);
      var s3 := StepWaiter(s2, Park(w));
      assert s3 == s.(waiters := s.waiters[w := Parked(t, seen)]);
      var more := acts + [Park(w)];
      assert more == [Enter(w, t, seen), Check(w), Park(w)] && more[1..] == [Check(w), Park(w)] && more[1..][1..] == [Park(w)];
      assert [Park(w)][1..] == [] && Run(s3, []) == Some(s3);
      assert Run(s2, [Park(w)]) == Some(s3);
      assert Run(s1, more[1..]) == Some(s3);
    }
  }

  /** What one step does to one waiter: it enters checking, keeps what it watches, and returns only a word that it
      has just loaded and that is not the old one. */
  lemma {:induction false} WaiterMoves(s: State, a: Action, w: nat)
    requires Enabled(s, a) && w in Step(s, a).waiters
    ensures var now := Step(s, a).waiters[w];
            (w !in s.waiters ==> a == Enter(w, now.target, now.seen) && now.Checking?)
            && (w in s.waiters ==> now.target == s.waiters[w].target && now.seen == s.waiters[w].seen)
            && (w in s.waiters && s.waiters[w].Returned? ==> now == s.waiters[w])
            && (w in s.waiters && !s.waiters[w].Returned? && now.Returned? ==>
                  a == Check(w) && WordOf(s, now.target) == Some(now.serial) && now.serial != now.seen)
  {
    hide ShortSerial, NextSerial, Dirty, InitialSerial, Storable, Positions, UpToNul, CopyEnds, NextByte;
  }

  lemma {:induction false} WaitersStay(s: State, a: Action, w: nat)
    requires Enabled(s, a) && w in s.waiters
    ensures w in Step(s, a).waiters
  {
    hide ShortSerial, NextSerial, Dirty, InitialSerial, Storable, Positions, UpToNul, CopyEnds, NextByte;
  }

  lemma {:induction false} StaysReturned(s: State, acts: seq<Action>, w: nat)
    requires w in s.waiters && Run(s, acts).Some?
    ensures var t := Run(s, acts).value;
            w in t.waiters && t.waiters[w].target == s.waiters[w].target && t.waiters[w].seen == s.waiters[w].seen
            && (s.waiters[w].Returned? ==> t.waiters[w] == s.waiters[w])
    decreases |acts|
  {
    hide Enabled, Step;
    if acts != [] {
      WaitersStay(s, acts[0], w);
      WaiterMoves(s, acts[0], w);
      StaysReturned(Step(s, acts[0]), acts[1..], w);
    }
  }

  /** Over every run: what a waiter returns is the word it watches as it was in the state of the run in which the
      waiter last checked it, and is not the word that it entered with. */
  lemma {:induction false} ReturnedWasTheWord(s: State, acts: seq<Action>, w: nat) returns (k: nat)
    requires Run(s, acts).Some? && w in Run(s, acts).value.waiters && Run(s, acts).value.waiters[w].Returned?
    requires w in s.waiters ==> !s.waiters[w].Returned?
    ensures k < |acts| && acts[k] == Check(w) && Run(s, acts[..k]).Some?
    ensures var waiter := Run(s, acts).value.waiters[w];
            WordOf(Run(s, acts[..k]).value, waiter.target) == Some(waiter.serial) && waiter.serial != waiter.seen
            && (w in s.waiters ==> s.waiters[w].target == waiter.target && s.waiters[w].seen == waiter.seen)
            && (w !in s.waiters ==> exists j :: 0 <= j < k && acts[j] == Enter(w, waiter.target, waiter.seen))
    decreases |acts|
  {
    hide Enabled, Step, WordOf;
    var a, t := acts[0], Step(s, acts[0]);
    var rest := acts[1..];
    if w in s.waiters {
      WaitersStay(s, a, w);
    }
    if w in t.waiters {
      WaiterMoves(s, a, w);
      StaysReturned(t, rest, w);
    }
    if w in t.waiters && t.waiters[w].Returned? {
      k := 0;
      assert acts[..0] == [];
    } else {
      var i := ReturnedWasTheWord(t, rest, w);
      k := i + 1;
      assert acts[..k][1..] == rest[..i] && acts[..k][0] == a;
      var waiter := Run(s, acts).value.waiters[w];
      if w !in s.waiters {
        if w in t.waiters {
          assert acts[0] == Enter(w, waiter.target, waiter.seen);
        } else {
          var j :| 0 <= j < i && rest[j] == Enter(w, waiter.target, waiter.seen);
          assert acts[j + 1] == Enter(w, waiter.target, waiter.seen);
        }
      }
    }
  }

  // ---------------------------------------------------------------- a reader finishes, too

  /** The attempt began with the serial that its entry has now, but before its last update. */
  predicate Outdated(s: State, r: nat)
    requires r in s.readers && s.readers[r].e in s.entries
  {
    var reader := s.readers[r];
    reader.Copying? && reader.serial == s.entries[reader.e].serial && reader.from < Count(s.entries[reader.e])
  }

  /** How far a reader is from accepting, if nobody else moves. */
  function ReadLeft(s: State, r: nat): nat
    requires r in s.readers && s.readers[r].e in s.entries
  {
    match s.readers[r]
    case Accepted(_, _, _, _) => 0
    case Starting(_) => 200
    case Copying(e, serial, _, buf, done) =>
      (if serial == s.entries[e].serial then 0 else 201)
      + 1 + (if |buf| < PROP_VALUE_MAX then 2 * (PROP_VALUE_MAX - |buf|) else 0) + (if done then 0 else 1)
  }

  function NextRead(s: State, r: nat): Action
    requires r in s.readers && !s.readers[r].Accepted?
  {
    match s.readers[r]
    case Starting(_) => LoadSerial(r)
    case Copying(_, _, _, _, done) => if done then Recheck(r) else CopyByte(r)
  }

  /** Only the reader `r` has moved. */
  predicate OnlyRead(s: State, t: State, r: nat)
  {
    r in s.readers && r in t.readers && t == s.(readers := s.readers[r := t.readers[r]]) && t.readers[r].e == s.readers[r].e
  }

  lemma {:induction false} NextReadIsNearer(s: State, r: nat)
    requires Inv(s) && r in s.readers && !s.readers[r].Accepted?
    ensures s.readers[r].e in s.entries && EnabledReader(s, NextRead(s, r))
    ensures var t := StepReader(s, NextRead(s, r));
            OnlyRead(s, t, r) && ReadLeft(t, r) < ReadLeft(s, r) && (!Outdated(s, r) ==> !Outdated(t, r))
  {
    hide WaiterOk, ShortSerial, IsDirty, LengthOf, Storable, FilledBut, Filled;
    assert ReaderOk(s, s.readers[r]);
    assert EntryOk(s, s.readers[r].e);
  }

  /** Nor does a step of its own take it past an update. */
  lemma {:induction false} AcceptsAtLast(s: State, r: nat)
    requires Inv(s) && r in s.readers && !s.readers[r].Accepted?
    requires s.readers[r].e in s.entries && EnabledReader(s, NextRead(s, r)) && !Outdated(s, r)
    ensures var t := StepReader(s, NextRead(s, r));
            t.readers[r].Accepted? ==> t.readers[r].from == t.readers[r].to == Count(s.entries[s.readers[r].e])
  {
    hide WaiterOk, ShortSerial, IsDirty, LengthOf, Storable, FilledBut, Filled, WriterOk, EntryOk;
    assert ReaderOk(s, s.readers[r]);
  }

  lemma {:induction false} OnlyReadTrans(a: State, b: State, c: State, r: nat)
    requires OnlyRead(a, b, r) && OnlyRead(b, c, r)
    ensures OnlyRead(a, c, r)
  {
  }

  /** In every state the invariant allows, wherever the writer stands, a reader alone finishes; and unless it
      began a whole period of updates ago, it accepts the value last committed. */
  lemma {:induction false} ReaderFinishes(s: State, r: nat) returns (acts: seq<Action>)
    requires Inv(s) && r in s.readers && !s.readers[r].Accepted?
    ensures s.readers[r].e in s.entries && Run(s, acts).Some?
    ensures var t := Run(s, acts).value;
            OnlyRead(s, t, r) && t.readers[r].Accepted?
            && (!Outdated(s, r) ==> t.readers[r].value == Current(s.entries[s.readers[r].e]))
    decreases if s.readers[r].e in s.entries then ReadLeft(s, r) else 0
  {
    hide Inv, EnabledWriter, EnabledReader, EnabledWaiter, StepReader, Outdated, ReadLeft, NextRead, OnlyRead, Current;
    NextReadIsNearer(s, r);
    var a := NextRead(s, r);
    var t := StepReader(s, a);
    ReaderStepKeepsInv(s, a);
    assert Step(s, a) == t && t.entries == s.entries && r in t.readers && t.readers[r].e == s.readers[r].e by { StepIsRead(s, a, r); }
    if t.readers[r].Accepted? {
      acts := [a];
      assert acts[1..] == [];
      if !Outdated(s, r) {
        AcceptsAtLast(s, r);
        AcceptedIsCurrent(t, r);
      }
    } else {
      var more := ReaderFinishes(t, r);
      acts := [a] + more;
      assert acts[1..] == more;
      OnlyReadTrans(s, t, Run(t, more).value, r);
    }
  }

  /** In every reachable state a reader can open any entry, and alone reads its last committed value. */
  lemma {:induction false} OpensAndReads(s: State, r: nat, e: nat) returns (acts: seq<Action>)
    requires Reachable(s) && e in s.entries
    ensures acts != [] && acts[0] == Open(r, e) && Run(s, acts).Some?
    ensures var t := Run(s, acts).value;
            t.entries == s.entries && r in t.readers && t.readers[r].Accepted? && t.readers[r].e == e
            && t.readers[r].value == Current(s.entries[e])
  {
    hide Reachable, Inv, EnabledWriter, EnabledWaiter, OnlyRead, Current, Outdated;
    ReachableInv(s);
    var open := Open(r, e);
    assert EnabledReader(s, open) && !EnabledWriter(s, open) by { OpenIsReaders(s, r, e); }
    var t := StepReader(s, open);
    ReaderStepKeepsInv(s, open);
    var more := ReaderFinishes(t, r);
    assert !Outdated(t, r) && t.entries == s.entries && t.readers[r] == Starting(e) by { OpenIsReaders(s, r, e); }
    OnlyReaderMoved(t, Run(t, more).value, r);
    acts := [open] + more;
    assert acts[1..] == more && Step(s, open) == t;
  }

  lemma {:induction false} OpenIsReaders(s: State, r: nat, e: nat)
    requires e in s.entries
    ensures EnabledReader(s, Open(r, e)) && !EnabledWriter(s, Open(r, e))
    ensures var t := StepReader(s, Open(r, e));
            t.entries == s.entries && r in t.readers && t.readers[r] == Starting(e) && !Outdated(t, r)
  {
  }

  lemma {:induction false} OnlyReaderMoved(s: State, t: State, r: nat)
    requires OnlyRead(s, t, r)
    ensures t.entries == s.entries && r in t.readers && t.readers[r].e == s.readers[r].e
  {
  }

  lemma {:induction false} StepIsRead(s: State, a: Action, r: nat)
    requires EnabledReader(s, a) && OnlyRead(s, StepReader(s, a), r)
    ensures Step(s, a) == StepReader(s, a)
    ensures var t := StepReader(s, a); t.entries == s.entries && r in t.readers && t.readers[r].e == s.readers[r].e
  {
    hide StepReader, StepWriter, CopyEnds;
  }

  lemma {:induction false} AcceptedIsCurrent(s: State, r: nat)
    requires Inv(s) && r in s.readers && s.readers[r].Accepted? && s.readers[r].e in s.entries
    requires s.readers[r].from == s.readers[r].to == Count(s.entries[s.readers[r].e])
    ensures s.readers[r].value == Current(s.entries[s.readers[r].e])
  {
    hide WaiterOk, EntryOk, WriterOk;
    assert ReaderOk(s, s.readers[r]);
  }

  /** The step marks the entry or publishes it. */
  predicate Touches(s: State, a: Action, e: nat)
  {
    (a.MarkDirty? && s.writer.BackingUp? && s.writer.e == e) || (a.Publish? && s.writer.Writing? && s.writer.e == e)
  }

  predicate TouchedIn(s: State, acts: seq<Action>, e: nat)
    decreases |acts|
  {
    acts != [] && Enabled(s, acts[0]) && (Touches(s, acts[0], e) || TouchedIn(Step(s, acts[0]), acts[1..], e))
  }

  lemma {:induction false} SerialUntouched(s: State, a: Action, e: nat)
    requires Enabled(s, a) && e in s.entries && !Touches(s, a, e)
    ensures e in Step(s, a).entries && Step(s, a).entries[e].serial == s.entries[e].serial
  {
    hide ShortSerial, NextSerial, Dirty, InitialSerial, Storable, Positions, UpToNul, Woken, CopyEnds, NextByte, EnabledReader,
         EnabledWaiter;
  }

  /** If the serial of an entry is another after a run, some step of the run has marked the entry or published
      it. */
  lemma {:induction false} SerialMoves(s: State, acts: seq<Action>, e: nat)
    requires Run(s, acts).Some? && e in s.entries
    ensures e in Run(s, acts).value.entries
    ensures Run(s, acts).value.entries[e].serial != s.entries[e].serial ==> TouchedIn(s, acts, e)
    decreases |acts|
  {
    hide Enabled, Step, Touches;
    if acts != [] {
      var t := Step(s, acts[0]);
      if !Touches(s, acts[0], e) {
        SerialUntouched(s, acts[0], e);
      } else {
        EntriesStay(s, acts[0], e);
      }
      SerialMoves(t, acts[1..], e);
    }
  }

  lemma {:induction false} EntriesStay(s: State, a: Action, e: nat)
    requires Enabled(s, a) && e in s.entries
    ensures e in Step(s, a).entries
  {
    hide ShortSerial, NextSerial, Dirty, InitialSerial, Storable, Positions, UpToNul, Woken, CopyEnds, NextByte, EnabledReader,
         EnabledWaiter;
  }

  /** The step ends the attempt of reader `r`, or begins another. */
  predicate Restarts(a: Action, r: nat)
  {
    a == Recheck(r) || a == LoadSerial(r) || (a.Open? && a.r == r)
  }

  lemma {:induction false} AttemptGoesOn(s: State, a: Action, r: nat)
    requires Enabled(s, a) && r in s.readers && s.readers[r].Copying? && !Restarts(a, r)
    ensures var t := Step(s, a);
            r in t.readers && t.readers[r].Copying? && t.readers[r].e == s.readers[r].e && t.readers[r].serial == s.readers[r].serial
  {
    hide ShortSerial, NextSerial, Dirty, InitialSerial, Storable, Positions, UpToNul, Woken, CopyEnds, NextByte, StepWriter, EnabledWriter,
         EnabledWaiter;
    if EnabledWriter(s, a) {
      SameParties(s, a);
    }
  }

  lemma {:induction false} SerialInHand(s: State, acts: seq<Action>, r: nat)
    requires Run(s, acts).Some? && r in s.readers && s.readers[r].Copying? && forall a :: a in acts ==> !Restarts(a, r)
    ensures var t := Run(s, acts).value;
            r in t.readers && t.readers[r].Copying? && t.readers[r].e == s.readers[r].e && t.readers[r].serial == s.readers[r].serial
    decreases |acts|
  {
    hide Enabled, Step, Restarts;
    if acts != [] {
      AttemptGoesOn(s, acts[0], r);
      SerialInHand(Step(s, acts[0]), acts[1..], r);
    }
  }

  /** A reader repeats an attempt only because of an update of its entry within it. */
  lemma {:induction false} RepeatNeedsUpdate(s: State, acts: seq<Action>, r: nat)
    requires r in s.readers && s.readers[r].Starting? && EnabledReader(s, LoadSerial(r))
    requires Run(Step(s, LoadSerial(r)), acts).Some? && forall a :: a in acts ==> !Restarts(a, r)
    requires EnabledReader(Run(Step(s, LoadSerial(r)), acts).value, Recheck(r))
    requires Step(Run(Step(s, LoadSerial(r)), acts).value, Recheck(r)).readers[r].Starting?
    ensures TouchedIn(Step(s, LoadSerial(r)), acts, s.readers[r].e)
  {
    hide Restarts, Run, TouchedIn, CopyEnds, EnabledWaiter, StepWriter, StepWaiter;
    var s1 := Step(s, LoadSerial(r));
    assert s1.readers[r].Copying? && s1.readers[r].e == s.readers[r].e && s1.readers[r].serial == s1.entries[s.readers[r].e].serial;
    SerialInHand(s1, acts, r);
    SerialMoves(s1, acts, s.readers[r].e);
  }

  /** Between calls, any value of at most 91 bytes without a NUL can be added under a new entry. */
  lemma {:induction false} Adds(s: State, e: nat, v: Str)
    requires s.writer.Idle? && e !in s.entries && |v| <= 91 && 0 !in v
    ensures Run(s, [Add(e, v), BumpGlobal, WakeGlobal]).Some?
    ensures var t := Run(s, [Add(e, v), BumpGlobal, WakeGlobal]).value;
            t.writer.Idle? && t.global == (s.global + 1) % 4_294_967_296 && t.entries.Keys == s.entries.Keys + {e}
            && t.entries[e].history == [v] && v + [0] <= t.entries[e].slot
            && forall f :: f in s.entries ==> t.entries[f] == s.entries[f]
  {
    hide InitialSerial, Woken;
    var acts := [Add(e, v), BumpGlobal, WakeGlobal];
    var s1 := Step(s, acts[0]);
    var s2 := Step(s1, BumpGlobal);
    var t := Step(s2, WakeGlobal);
    assert acts[1..] == [BumpGlobal, WakeGlobal] && acts[1..][1..] == [WakeGlobal] && [WakeGlobal][1..] == [];
    assert Run(t, []) == Some(t);
    assert Run(s2, [WakeGlobal]) == Some(t);
    assert Run(s1, acts[1..]) == Some(t);
    assert t.entries == s1.entries;
  }

  /** `n` whole updates of one entry, with nothing else going on. */
  lemma {:induction false} Updates(s: State, e: nat, v: Str, n: nat) returns (acts: seq<Action>)
    requires Inv(s) && s.writer.Idle? && e in s.entries && Storable(v)
    ensures Run(s, acts).Some? && Inv(Run(s, acts).value)
    ensures var t := Run(s, acts).value;
            t.writer.Idle? && t.readers == s.readers && e in t.entries
            && |t.entries[e].history| == |s.entries[e].history| + n
            && t.entries[e].history[..|s.entries[e].history|] == s.entries[e].history
            && forall k :: |s.entries[e].history| <= k < |t.entries[e].history| ==> t.entries[e].history[k] == v
    decreases n
  {
    hide Inv, EnabledReader, EnabledWaiter, Storable, Positions, Kept, ShortSerial, Dirty, NextSerial, InitialSerial, Woken;
    if n == 0 {
      acts := [];
    } else {
      var begin := BeginUpdate(e, v);
      WriterStepKeepsInv(s, begin);
      var s1 := StepWriter(s, begin);
      var finish := WriterFinishes(s1);
      var s2 := Run(s1, finish).value;
      OneCommitted(s, s1, s2, e, v);
      var more := Updates(s2, e, v, n - 1);
      acts := [begin] + (finish + more);
      RunAppend(s1, finish, more);
      assert acts[1..] == finish + more && Step(s, begin) == s1;
      assert s2.entries[e].history[..|s.entries[e].history|] == s.entries[e].history;
    }
  }

  lemma {:induction false} OneCommitted(s: State, s1: State, s2: State, e: nat, v: Str)
    requires s.writer.Idle? && e in s.entries && EnabledWriter(s, BeginUpdate(e, v)) && s1 == StepWriter(s, BeginUpdate(e, v))
    requires Kept(s1, s2) && s2.writer.Idle?
    ensures e in s2.entries && s2.entries[e].history == s.entries[e].history + [v] && s2.readers == s.readers
  {
    hide Positions, Storable;
    assert Pending(s1, e) == [v] && Pending(s2, e) == [];
    assert s2.entries[e].history + [] == s2.entries[e].history;
  }

  // ---------------------------------------------------------------- the bound is tight

  const AA: Str := [0x61, 0x61]
  const BB: Str := [0x62, 0x62]
  const AB: Str := [0x61, 0x62]

  /** A reader that has copied one byte of "aa". */
  lemma {:induction false} HalfRead() returns (s: State)
    ensures Reachable(s) && Inv(s) && s.writer.Idle?
    ensures 0 in s.entries && s.entries[0].history == [AA]
    ensures s.readers == map[0 := Copying(0, ShortSerial(2, 0), 0, [0x61], false)]
  {
    hide Inv, Reachable;
    var acts := [Add(0, AA), BumpGlobal, WakeGlobal, Open(0, 0), LoadSerial(0), CopyByte(0)];
    var s0 := Start();
    StartInv();
    InitialIsZeroUpdates(2);
    ShortSerialFields(2, 0);
    var s1 := Step(s0, acts[0]);
    var s2 := Step(s1, acts[1]);
    var s3 := Step(s2, acts[2]);
    var s4 := Step(s3, acts[3]);
    var s5 := Step(s4, acts[4]);
    assert s3.entries[0].slot[0] == 0x61;
    assert s5.readers[0] == Copying(0, ShortSerial(2, 0), 0, [], false);
    s := Step(s5, acts[5]);
    assert s.readers[0].buf == [0x61];
    assert s.readers == map[0 := Copying(0, ShortSerial(2, 0), 0, [0x61], false)];
    assert Run(s0, acts) == Some(s) by {
      assert Run(s5, acts[5..]) == Some(s);
      assert acts[4..][1..] == acts[5..] && acts[3..][1..] == acts[4..] && acts[2..][1..] == acts[3..] && acts[1..][1..] == acts[2..];
      assert Run(s4, acts[4..]) == Some(s);
      assert Run(s3, acts[3..]) == Some(s);
      assert Run(s2, acts[2..]) == Some(s);
      assert Run(s1, acts[1..]) == Some(s);
    }
    ReachedBy(s, acts);
    RunKeepsInv(s0, acts);
  }

  lemma {:induction false} ReachedBy(s: State, acts: seq<Action>)
    requires Run(Start(), acts) == Some(s)
    ensures Reachable(s)
  {
  }

  /** The rest of a clean read of two bytes, ending on a serial that has not changed. */
  lemma {:induction false} FinishRead(s: State, serial: nat, b: byte, v: Str) returns (acts: seq<Action>)
    requires Inv(s) && s.writer.Idle? && 0 in s.readers && 0 in s.entries && s.entries[0].history != []
    requires s.readers[0] == Copying(0, serial, 0, [b], false) && !IsDirty(serial) && s.entries[0].serial == serial
    requires Filled(s.entries[0].slot, v) && |v| == 2 && 0 !in v
    ensures Run(s, acts).Some?
    ensures Run(s, acts).value.entries == s.entries
    ensures Run(s, acts).value.readers == s.readers[0 := Accepted(0, [b, v[1]], 0, Count(s.entries[0]))]
  {
    hide Inv, IsDirty, EnabledWaiter;
    var slot := s.entries[0].slot;
    assert slot[1] == slot[..2][1] == v[1] && v[1] in v;
    var s1 := Step(s, CopyByte(0));
    assert s1.readers[0] == Copying(0, serial, 0, [b, v[1]], false);
    var s2 := Step(s1, CopyByte(0));
    var s3 := Step(s2, Recheck(0));
    acts := [CopyByte(0), CopyByte(0), Recheck(0)];
    assert acts[1..] == [CopyByte(0), Recheck(0)] && acts[1..][1..] == [Recheck(0)];
    assert Run(s2, [Recheck(0)]) == Some(s3);
    assert Run(s1, [CopyByte(0), Recheck(0)]) == Some(s3);
  }

  /** The bound of `AcceptedWasCurrent` is tight, for every number of periods: some run lets exactly `k` times
      2^15 updates complete within one attempt, and the reader accepts a value that was never committed. */
  lemma {:induction false} TornReadAfterPeriods(k: nat) returns (s: State)
    requires k > 0
    ensures Reachable(s) && 0 in s.readers && s.readers[0] == Accepted(0, AB, 0, k * COUNTER_PERIOD)
    ensures 0 in s.entries && AB !in s.entries[0].history
  {
    hide Inv, Reachable, ShortSerial, IsDirty, IsLong, LengthOf, Dirty, EnabledReader, EnabledWriter, EnabledWaiter, Run, Filled;
    var n := k * COUNTER_PERIOD;
    Quotient(k, COUNTER_PERIOD, 0);
    assert n > 0;
    var half := HalfRead();
    var updates := Updates(half, 0, BB, n);
    var s1 := Run(half, updates).value;
    ReachMore(half, updates, s1);
    IdleEntry(s1, 0);
    ShortSerialFields(2, 0);
    SerialsCoincide(2, 0, 2, n);
    var rest := FinishRead(s1, ShortSerial(2, 0), 0x61, BB);
    s := Run(s1, rest).value;
    ReachMore(s1, rest, s);
    assert AB !in s.entries[0].history by {
      var h := s.entries[0].history;
      assert h[0] == h[..1][0] == AA;
      assert AA[1] != AB[1] && BB[0] != AB[0];
    }
  }

  /** The reader has accepted a value that its entry never had, with `n` updates completed within the attempt. */
  predicate Torn(s: State, r: nat, n: nat)
  {
    r in s.readers && s.readers[r].Accepted? && s.readers[r].from + n == s.readers[r].to
    && s.readers[r].e in s.entries && s.readers[r].value !in s.entries[s.readers[r].e].history
  }

  /** A read can be torn exactly if the number of updates within it is a positive multiple of 2^15. */
  lemma {:induction false} TornExactly(n: nat)
    ensures (exists s, r :: Reachable(s) && Torn(s, r, n)) <==> n > 0 && n % COUNTER_PERIOD == 0
  {
    hide Reachable;
    forall s, r | Reachable(s) && Torn(s, r, n) ensures n > 0 && n % COUNTER_PERIOD == 0 {
      AcceptedWasCurrent(s, r);
    }
    if n > 0 && n % COUNTER_PERIOD == 0 {
      var s := TornReadAfterPeriods(n / COUNTER_PERIOD);
      assert n / COUNTER_PERIOD * COUNTER_PERIOD == n;
      assert Torn(s, 0, n);
    }
  }

  lemma {:induction false} IdleEntry(s: State, e: nat)
    requires Inv(s) && s.writer.Idle? && e in s.entries
    ensures var entry := s.entries[e];
            entry.history != [] && entry.serial == ShortSerial(|Current(entry)|, Count(entry)) && Filled(entry.slot, Current(entry))
  {
    hide ReaderOk, WaiterOk, WriterOk, ShortSerial, Filled;
    assert EntryOk(s, e);
  }

  lemma {:induction false} ReachMore(s: State, acts: seq<Action>, t: State)
    requires Reachable(s) && Run(s, acts) == Some(t)
    ensures Reachable(t)
  {
    hide Run;
    var before :| Run(Start(), before) == Some(s);
    RunAppend(Start(), before, acts);
  }
}
