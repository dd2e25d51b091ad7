/** The serial word of a property entry: length, LONG flag, update counter and dirty bit.

    Bits 24-31 hold the value's length, bit 16 says that the value is stored out of line, bit 0 is set
    while an update is in progress.  The masks of the code are written out as arithmetic. */
module PropertySerial {

  /** Size of the value slot, with its terminating NUL. */
  const PROP_VALUE_MAX: nat := 92

  /** Length of "Must use __system_property_read_callback() to read". */
  const LONG_LEGACY_ERROR_LENGTH: nat := 50

  const LENGTH_UNIT: nat := 0x100_0000
  const LONG_FLAG: nat := 0x1_0000
  const COUNTER_PERIOD: nat := 0x8000

  predicate IsDirty(serial: nat)
  {
    serial % 2 == 1
  }

  predicate IsLong(serial: nat)
  {
    serial / LONG_FLAG % 2 == 1
  }

  /** `serial >> 24`. */
  function LengthOf(serial: nat): nat
  {
    serial / LENGTH_UNIT
  }

  /** `serial | 1`. */
  function Dirty(serial: nat): nat
  {
    if IsDirty(serial) then serial else serial + 1
  }

  /** `serial & SERIAL_COUNTER_MASK`: bits 0-15 and 17-23. */
  function CounterBits(serial: nat): nat
  {
    serial % LONG_FLAG + serial / (2 * LONG_FLAG) % 0x80 * (2 * LONG_FLAG)
  }

  /** The serial `apply_write` publishes for a value of `len` bytes. */
  function NextSerial(current: nat, len: nat): nat
  {
    len * LENGTH_UNIT + CounterBits(Dirty(current) + 1)
  }

  /** What `init_with_value` stores. */
  function InitialSerial(len: nat): nat
  {
    len * LENGTH_UNIT
  }

  const LONG_SERIAL: nat := LONG_LEGACY_ERROR_LENGTH * LENGTH_UNIT + LONG_FLAG

  /** The serial of a short entry holding `len` bytes after `updates` updates. */
  function ShortSerial(len: nat, updates: nat): nat
  {
    len * LENGTH_UNIT + 2 * (updates % COUNTER_PERIOD)
  }

  /** The fields in numbers: the length in bits 24 to 31, the LONG flag in bit 16, the updates in bits 1 to 15, and
      the dirty bit below; long entries give the length of the legacy error message. */
  lemma {:induction false} SerialInNumbers(len: nat, updates: nat)
    ensures ShortSerial(len, updates) == 16_777_216 * len + 2 * (updates % 32_768)
    ensures !IsDirty(ShortSerial(len, updates)) && Dirty(ShortSerial(len, updates)) == 16_777_216 * len + 2 * (updates % 32_768) + 1
    ensures NextSerial(ShortSerial(0, updates), len) == 16_777_216 * len + 2 * ((updates + 1) % 32_768)
    ensures InitialSerial(len) == 16_777_216 * len && LONG_SERIAL == 16_777_216 * 50 + 65_536
  {
    hide Dirty, CounterBits, NextSerial;
    ShortSerialFields(len, updates);
    NextIsOneMoreUpdate(0, updates, len);
  }

  lemma {:induction false} InitialIsZeroUpdates(len: nat)
    ensures InitialSerial(len) == ShortSerial(len, 0)
  {
  }

  lemma {:induction false} Multiples(a: int, b: int, d: nat)
    ensures a < b ==> a * d + d <= b * d
  {
    if a < b {
      assert (a + 1) * d <= b * d;
    }
  }

  lemma {:induction false} Quotient(q: nat, d: nat, r: nat)
    requires d > 0 && r < d
    ensures (q * d + r) / d == q && (q * d + r) % d == r
  {
    var n := q * d + r;
    Multiples(n / d, q, d);
    Multiples(q, n / d, d);
  }

  /** The mask drops the length, and a carry out of bit 15 with it. */
  lemma {:induction false} LengthVanishes(len: nat, low: nat)
    requires low <= LONG_FLAG
    ensures CounterBits(len * LENGTH_UNIT + low) == if low < LONG_FLAG then low else 0
  {
    var carry, rest := if low < LONG_FLAG then 0 else 1, if low < LONG_FLAG then low else 0;
    Quotient(len * 0x100 + carry, LONG_FLAG, rest);
    Quotient(len * 0x80, 2 * LONG_FLAG, low);
    Quotient(len, 0x80, 0);
  }

  lemma {:induction false} NextCount(updates: nat)
    ensures var c := updates % COUNTER_PERIOD;
            (updates + 1) % COUNTER_PERIOD == if c + 1 < COUNTER_PERIOD then c + 1 else 0
  {
  }

  lemma {:induction false} EvenAndDirty(len: nat, c: nat)
    ensures !IsDirty(len * LENGTH_UNIT + 2 * c)
  {
    Quotient(len * (LENGTH_UNIT / 2) + c, 2, 0);
  }

  /** The counter is `2 * updates` modulo 2^16: bits 17 to 23 never move. */
  lemma {:induction false} NextIsOneMoreUpdate(len: nat, updates: nat, len': nat)
    ensures NextSerial(ShortSerial(len, updates), len') == ShortSerial(len', updates + 1)
  {
    hide CounterBits, IsDirty;
    var c := updates % COUNTER_PERIOD;
    EvenAndDirty(len, c);
    LengthVanishes(len, 2 * c + 2);
    NextCount(updates);
  }

  lemma {:induction false} OddIsDirty(serial: nat)
    ensures IsDirty(serial + 1) <==> !IsDirty(serial)
  {
  }

  /** A short entry's serial is even, never flags LONG, and its top byte is the length. */
  lemma {:induction false} ShortSerialFields(len: nat, updates: nat)
    ensures var s := ShortSerial(len, updates);
            !IsDirty(s) && !IsLong(s) && LengthOf(s) == len
            && Dirty(s) == s + 1 && !IsLong(s + 1) && LengthOf(s + 1) == len
            && (len < 0x100 ==> s < 0xFFFF_FFFF)
  {
    var c := updates % COUNTER_PERIOD;
    EvenAndDirty(len, c);
    Quotient(len, LENGTH_UNIT, 2 * c);
    Quotient(len, LENGTH_UNIT, 2 * c + 1);
    Quotient(len * 0x100, LONG_FLAG, 2 * c);
    Quotient(len * 0x100, LONG_FLAG, 2 * c + 1);
    Quotient(len * 0x80, 2, 0);
  }

  /** Two clean serials of one entry coincide exactly when the lengths match and the update counts
      differ by a multiple of 2^15: the period is tight. */
  lemma {:induction false} SerialsCoincide(len: nat, k: nat, len': nat, k': nat)
    requires k <= k'
    ensures ShortSerial(len, k) == ShortSerial(len', k') <==> len == len' && (k' - k) % COUNTER_PERIOD == 0
  {
    ShortSerialFields(len, k);
    ShortSerialFields(len', k');
    var d := k' - k;
    assert k' == k + d;
    assert k % COUNTER_PERIOD == k' % COUNTER_PERIOD <==> d % COUNTER_PERIOD == 0;
  }

  lemma {:induction false} LongSerialFields()
    ensures IsLong(LONG_SERIAL) && !IsDirty(LONG_SERIAL) && LengthOf(LONG_SERIAL) == LONG_LEGACY_ERROR_LENGTH
    ensures LONG_SERIAL <= 0xFFFF_FFFF
  {
  }
}
