/**
 * The record log: fixed 14-byte slots on the FRAM after the bytes reserved
 * for the settings block. A slot holds the time as seconds since 2000, the
 * two sensor readings and a CRC-16 over the slot with its CRC field zeroed.
 * The number of records is not stored anywhere: `begin` finds it again by
 * scanning for the first slot that is all zero or fails validation, and
 * `appendRecord` keeps that scan correct by zeroing the slot after the one it
 * writes before writing it.
 *
 * The sensor readings are `float`s that the log only copies and range-checks;
 * here they are their four bytes, and the range check is the parameter
 * `readingsInRange` of the store.
 */
module LogSystem {
  import opened Bytes
  import opened Crc16
  import opened Storage
  import opened DateTimes

  /** `sizeof(InternalLogRecord)`: time (4) | humidity (4) | temperature (4) | crc (2), packed. */
  const SlotSize: nat := 14

  /** The four bytes of a `float` reading. */
  type Reading = s: seq<uint8> | |s| == 4 witness [0, 0, 0, 0]

  /** A record as the application sees it. */
  datatype LogRecord = LogRecord(dateTime: DateTime, temperature: Reading, humidity: Reading)

  /** The default record: the first moment and two readings of 0.0 (all four bytes zero). */
  const NullRecord: LogRecord := LogRecord(Epoch, [0, 0, 0, 0], [0, 0, 0, 0])

  // ---------------------------------------------------------------------
  // Slot layout

  /** `getRecordStart`: slot `index` begins after the reserved bytes and `index` whole slots. */
  function RecordStart(reserved: nat, index: nat): nat {
    reserved + SlotSize * index
  }

  /** The number of whole slots that fit between the reserved bytes and the end of the medium. */
  function Capacity(reserved: nat): (max: nat)
    requires reserved <= Size
    ensures RecordStart(reserved, max) <= Size < RecordStart(reserved, max + 1)
  {
    (Size - reserved) / SlotSize
  }

  /** With the 7 bytes of the settings block reserved, the log holds 2340 records. */
  lemma CapacityAfterSettings()
    ensures Capacity(7) == 2340
  {
  }

  /** The bytes of slot `index`. */
  function Slot(m: seq<uint8>, reserved: nat, index: nat): (slot: seq<uint8>)
    requires RecordStart(reserved, index) + SlotSize <= |m|
    ensures |slot| == SlotSize
  {
    m[RecordStart(reserved, index)..RecordStart(reserved, index) + SlotSize]
  }

  function Time(slot: seq<uint8>): nat
    requires |slot| == SlotSize
  {
    FromLe32(slot[..4])
  }

  function Humidity(slot: seq<uint8>): Reading
    requires |slot| == SlotSize
  {
    slot[4..8]
  }

  function Temperature(slot: seq<uint8>): Reading
    requires |slot| == SlotSize
  {
    slot[8..12]
  }

  function StoredCrc(slot: seq<uint8>): nat
    requires |slot| == SlotSize
  {
    FromLe16(slot[12..])
  }

  /** The bytes the CRC runs over: the slot with its CRC field set to zero. */
  function CrcInput(slot: seq<uint8>): seq<uint8>
    requires |slot| == SlotSize
  {
    slot[..12] + [0, 0]
  }

  /** The CRC a slot should carry. */
  function SlotCrc(slot: seq<uint8>): bv16
    requires |slot| == SlotSize
  {
    Crc(Seed, CrcInput(slot))
  }

  /** The CRC of a slot depends on its first twelve bytes only. */
  lemma SlotCrcIgnoresCrcField(s1: seq<uint8>, s2: seq<uint8>)
    requires |s1| == SlotSize && |s2| == SlotSize && s1[..12] == s2[..12]
    ensures SlotCrc(s1) == SlotCrc(s2)
  {
    assert CrcInput(s1) == CrcInput(s2);
  }

  /**
   * A slot that passed the CRC check fails it once any one of its fourteen
   * bytes has changed: a changed field byte changes the computed CRC, and a
   * changed CRC byte changes the stored one.
   */
  lemma ChangedByteFailsCrc(slot: seq<uint8>, p: nat, b: uint8)
    requires |slot| == SlotSize && p < SlotSize && slot[p] != b
    requires SlotCrc(slot) as int == StoredCrc(slot)
    ensures SlotCrc(slot[p := b]) as int != StoredCrc(slot[p := b])
  {
    var changed := slot[p := b];
    if p < 12 {
      assert changed[12..] == slot[12..];
      var m1, m2 := CrcInput(changed), CrcInput(slot);
      assert m1[p] != m2[p];
      assert forall k :: 0 <= k < |m1| && k != p ==> m1[k] == m2[k];
      CrcDetectsSingleByteChange(Seed, m1, m2, p);
      AsNatInjective(SlotCrc(changed), SlotCrc(slot));
    } else {
      SlotCrcIgnoresCrcField(changed, slot);
      FromLe16RoundTrip(changed[12..]);
      FromLe16RoundTrip(slot[12..]);
      assert changed[12..] != slot[12..] by {
        assert changed[12..][p - 12] == b;
      }
    }
  }

  /** A slot whose fourteen bytes are all zero: the end marker. */
  predicate IsNullSlot(slot: seq<uint8>)
    requires |slot| == SlotSize
  {
    slot == Zeros(SlotSize)
  }

  /** Readings in range and the stored CRC equal to the computed one. */
  predicate IsValidSlot(slot: seq<uint8>, readingsInRange: (Reading, Reading) -> bool)
    requires |slot| == SlotSize
  {
    readingsInRange(Temperature(slot), Humidity(slot)) && SlotCrc(slot) as int == StoredCrc(slot)
  }

  /** A slot that the scan of `begin` counts as a record. */
  predicate Holds(slot: seq<uint8>, readingsInRange: (Reading, Reading) -> bool)
    requires |slot| == SlotSize
  {
    !IsNullSlot(slot) && IsValidSlot(slot, readingsInRange)
  }

  /** Twelve bytes of fields followed, in the CRC field, by the CRC over them and a zeroed CRC field. */
  function WithCrc(fields: seq<uint8>): (slot: seq<uint8>)
    requires |fields| == 12
    ensures |slot| == SlotSize
  {
    fields + Le16(Crc(Seed, fields + [0, 0]) as nat)
  }

  /** A slot with the given fields and, in its CRC field, the CRC over them. */
  function PackSlot(time: nat, humidity: Reading, temperature: Reading): (slot: seq<uint8>)
    requires time < 0x1_0000_0000
    ensures |slot| == SlotSize
  {
    WithCrc(Le32(time) + humidity + temperature)
  }

  /** The slot that `appendRecord` builds for a record: its time truncated to 32 bits, then its readings. */
  function EncodeSlot(r: LogRecord): (slot: seq<uint8>)
    requires r.dateTime.month <= 13
    ensures |slot| == SlotSize
  {
    PackSlot(ToSeconds(r.dateTime) % 0x1_0000_0000, r.humidity, r.temperature)
  }

  /** A packed slot reads back as its fields. */
  lemma PackSlotFields(time: nat, humidity: Reading, temperature: Reading)
    requires time < 0x1_0000_0000
    ensures var slot := PackSlot(time, humidity, temperature);
            Time(slot) == time && Humidity(slot) == humidity && Temperature(slot) == temperature
  {
    var slot, fields := PackSlot(time, humidity, temperature), Le32(time) + humidity + temperature;
    WithCrcKeepsFields(fields);
    assert slot[..4] == fields[..4] == Le32(time);
    Le32RoundTrip(time);
  }

  lemma WithCrcKeepsFields(fields: seq<uint8>)
    requires |fields| == 12
    ensures var slot := WithCrc(fields);
            slot[..4] == fields[..4] && slot[4..8] == fields[4..8] && slot[8..12] == fields[8..12]
  {
  }

  /** The CRC field of a packed slot holds the CRC of its other bytes, so the CRC check passes. */
  lemma PackSlotCrc(time: nat, humidity: Reading, temperature: Reading)
    requires time < 0x1_0000_0000
    ensures var slot := PackSlot(time, humidity, temperature);
            StoredCrc(slot) == SlotCrc(slot) as int
  {
    var fields := Le32(time) + humidity + temperature;
    WithCrcStoresCrc(fields);
  }

  lemma WithCrcStoresCrc(fields: seq<uint8>)
    requires |fields| == 12
    ensures StoredCrc(WithCrc(fields)) == SlotCrc(WithCrc(fields)) as int
  {
    var slot := WithCrc(fields);
    assert slot[..12] == fields;
    assert CrcInput(slot) == fields + [0, 0];
    Le16RoundTrip(Crc(Seed, fields + [0, 0]) as nat);
  }

  /**
   * An appended record is never mistaken for the end marker: even a record
   * whose twelve data bytes are all zero gets a non-zero CRC from the seed
   * 0xFFFF.
   */
  lemma PackedSlotHolds(time: nat, humidity: Reading, temperature: Reading, readingsInRange: (Reading, Reading) -> bool)
    requires time < 0x1_0000_0000
    requires readingsInRange(temperature, humidity)
    ensures Holds(PackSlot(time, humidity, temperature), readingsInRange)
  {
    var slot := PackSlot(time, humidity, temperature);
    PackSlotFields(time, humidity, temperature);
    PackSlotCrc(time, humidity, temperature);
    if IsNullSlot(slot) {
      assert CrcInput(slot) == Zeros(SlotSize);
      CrcOfZerosNonZero(Seed, SlotSize);
      assert false;
    }
  }

  /**
   * An appended record reads back with the date and time it was stored with,
   * as long as its seconds value fits the 32-bit field; the weekday too, when
   * both carry the weekday of their date.
   */
  lemma AppendedTimeReadsBack(r: LogRecord, dt: DateTime)
    requires Fits(r.dateTime)
    requires IsValid(dt) && ToSeconds(dt) == Time(EncodeSlot(r))
    ensures SameMoment(dt, r.dateTime)
    ensures WeekdayMatches(dt) && WeekdayMatches(r.dateTime) ==> dt == r.dateTime
  {
    EncodedTime(r);
    ToSecondsInjective(dt, r.dateTime);
  }

  /** The time field of an appended record is its seconds value when that fits 32 bits. */
  lemma EncodedTime(r: LogRecord)
    requires r.dateTime.month <= 13 && 0 <= ToSeconds(r.dateTime) < 0x1_0000_0000
    ensures Time(EncodeSlot(r)) == ToSeconds(r.dateTime)
  {
    var t := ToSeconds(r.dateTime);
    assert t % 0x1_0000_0000 == t;
    PackSlotFields(t, r.humidity, r.temperature);
  }

  // ---------------------------------------------------------------------
  // The scan of `begin`

  /**
   * The verdict of `begin` on one slot: a record is there when the slot is
   * not null and valid. The scan and the crash lemmas below hold for any
   * verdict that rejects the null slot, and are stated for such a `holds`.
   */
  function SlotCheck(readingsInRange: (Reading, Reading) -> bool): (check: seq<uint8> -> bool)
    ensures forall slot :: |slot| == SlotSize ==> (check(slot) <==> Holds(slot, readingsInRange))
    ensures !check(Zeros(SlotSize))
  {
    slot => |slot| == SlotSize && Holds(slot, readingsInRange)
  }

  /** All slots below `max` lie inside the medium. */
  predicate SlotsFit(m: seq<uint8>, reserved: nat, max: nat) {
    RecordStart(reserved, max) <= |m|
  }

  /** The first slot from `i` on that `holds` rejects, or `max` when there is none. */
  function ScanFrom(m: seq<uint8>, reserved: nat, max: nat, holds: seq<uint8> -> bool, i: nat): nat
    requires SlotsFit(m, reserved, max) && i <= max
    decreases max - i
  {
    if i == max then max
    else if !holds(Slot(m, reserved, i)) then i
    else ScanFrom(m, reserved, max, holds, i + 1)
  }

  /** The record count a scan from slot 0 finds on medium `m`. */
  function ScanCount(m: seq<uint8>, reserved: nat, max: nat, holds: seq<uint8> -> bool): nat
    requires SlotsFit(m, reserved, max)
  {
    ScanFrom(m, reserved, max, holds, 0)
  }

  /** `c` is where a scan stops: every slot before it holds a record and slot `c` (if any) does not. */
  predicate StopsAt(m: seq<uint8>, reserved: nat, max: nat, holds: seq<uint8> -> bool, c: nat)
    requires SlotsFit(m, reserved, max)
  {
    && c <= max
    && (forall i :: 0 <= i < c ==> holds(Slot(m, reserved, i)))
    && (c < max ==> !holds(Slot(m, reserved, c)))
  }

  lemma {:induction false} ScanFromStops(m: seq<uint8>, reserved: nat, max: nat, holds: seq<uint8> -> bool, i: nat)
    requires SlotsFit(m, reserved, max) && i <= max
    requires forall j :: 0 <= j < i ==> holds(Slot(m, reserved, j))
    ensures StopsAt(m, reserved, max, holds, ScanFrom(m, reserved, max, holds, i))
    decreases max - i
  {
    if i < max && holds(Slot(m, reserved, i)) {
      ScanFromStops(m, reserved, max, holds, i + 1);
    }
  }

  /** The count a scan finds is the one and only place where the scan can stop. */
  lemma ScanCountIs(m: seq<uint8>, reserved: nat, max: nat, holds: seq<uint8> -> bool, c: nat)
    requires SlotsFit(m, reserved, max)
    ensures ScanCount(m, reserved, max, holds) == c <==> StopsAt(m, reserved, max, holds, c)
  {
    ScanFromStops(m, reserved, max, holds, 0);
  }

  /** Media that agree on every slot below `max` give the same count. */
  lemma SameSlotsSameCount(m1: seq<uint8>, m2: seq<uint8>, reserved: nat, max: nat, holds: seq<uint8> -> bool)
    requires SlotsFit(m1, reserved, max) && SlotsFit(m2, reserved, max)
    requires forall i :: 0 <= i < max ==> Slot(m1, reserved, i) == Slot(m2, reserved, i)
    ensures ScanCount(m1, reserved, max, holds) == ScanCount(m2, reserved, max, holds)
  {
    var c := ScanCount(m1, reserved, max, holds);
    ScanCountIs(m1, reserved, max, holds, c);
    ScanCountIs(m2, reserved, max, holds, c);
  }

  /** A write that ends before slot `index` begins or starts after it ends leaves the slot alone. */
  lemma SlotUntouched(m: seq<uint8>, reserved: nat, index: nat, first: nat, data: seq<uint8>)
    requires RecordStart(reserved, index) + SlotSize <= |m| && first + |data| <= |m|
    requires first + |data| <= RecordStart(reserved, index) || RecordStart(reserved, index) + SlotSize <= first
    ensures Slot(Overwrite(m, first, data), reserved, index) == Slot(m, reserved, index)
  {
    OverwriteKeepsOutside(m, first, data, RecordStart(reserved, index), RecordStart(reserved, index) + SlotSize);
  }

  /** A write of a prefix of a slot at the slot's start replaces that prefix only. */
  lemma SlotPrefixWritten(m: seq<uint8>, reserved: nat, index: nat, data: seq<uint8>)
    requires RecordStart(reserved, index) + SlotSize <= |m| && |data| <= SlotSize
    ensures Slot(Overwrite(m, RecordStart(reserved, index), data), reserved, index)
            == data + Slot(m, reserved, index)[|data|..]
  {
    var after := Slot(Overwrite(m, RecordStart(reserved, index), data), reserved, index);
    var expected := data + Slot(m, reserved, index)[|data|..];
    assert forall k :: 0 <= k < SlotSize ==> after[k] == expected[k];
  }

  /** Writing the settings block, which lies inside the reserved bytes, does not change the count. */
  lemma SettingsWriteKeepsCount(m: seq<uint8>, block: seq<uint8>, reserved: nat, max: nat, holds: seq<uint8> -> bool)
    requires |block| <= reserved && SlotsFit(m, reserved, max)
    ensures SlotsFit(Overwrite(m, 0, block), reserved, max)
    ensures ScanCount(Overwrite(m, 0, block), reserved, max, holds) == ScanCount(m, reserved, max, holds)
  {
    forall i | 0 <= i < max
      ensures Slot(Overwrite(m, 0, block), reserved, i) == Slot(m, reserved, i)
    {
      SlotUntouched(m, reserved, i, 0, block);
    }
    SameSlotsSameCount(Overwrite(m, 0, block), m, reserved, max, holds);
  }

  // ---------------------------------------------------------------------
  // Appending, step by step

  /** The medium once `appendRecord` has zeroed the slot after slot `c` (when there is one). */
  function ZeroAhead(m: seq<uint8>, reserved: nat, max: nat, c: nat): (r: seq<uint8>)
    requires SlotsFit(m, reserved, max) && c < max
    ensures |r| == |m|
  {
    if c + 1 < max then Overwrite(m, RecordStart(reserved, c + 1), Zeros(SlotSize)) else m
  }

  /**
   * Power lost while slot `c + 1` is being zeroed, after any number of its
   * bytes: the next scan finds the old count `c`.
   */
  lemma CrashWhileZeroing(m: seq<uint8>, reserved: nat, max: nat, holds: seq<uint8> -> bool, j: nat)
    requires SlotsFit(m, reserved, max) && j <= SlotSize
    requires ScanCount(m, reserved, max, holds) + 1 < max
    ensures var c := ScanCount(m, reserved, max, holds);
            ScanCount(Overwrite(m, RecordStart(reserved, c + 1), Zeros(SlotSize)[..j]), reserved, max, holds) == c
  {
    var c := ScanCount(m, reserved, max, holds);
    var first, data := RecordStart(reserved, c + 1), Zeros(SlotSize)[..j];
    var m' := Overwrite(m, first, data);
    ScanCountIs(m, reserved, max, holds, c);
    forall i | 0 <= i <= c
      ensures Slot(m', reserved, i) == Slot(m, reserved, i)
    {
      SlotUntouched(m, reserved, i, first, data);
    }
    ScanCountIs(m', reserved, max, holds, c);
  }

  /**
   * Power lost while slot `c` is being written, after `k` of its bytes, once
   * slot `c + 1` is rejected (or there is no slot `c + 1`): the next scan
   * finds either the old count or one more; the old count when no byte was
   * written yet, and one more once the whole slot is written.
   */
  lemma CrashWhileWriting(m: seq<uint8>, reserved: nat, max: nat, holds: seq<uint8> -> bool, slot: seq<uint8>, k: nat)
    requires SlotsFit(m, reserved, max) && |slot| == SlotSize && k <= SlotSize
    requires ScanCount(m, reserved, max, holds) < max
    requires var c := ScanCount(m, reserved, max, holds);
             c + 1 == max || !holds(Slot(m, reserved, c + 1))
    ensures var c := ScanCount(m, reserved, max, holds);
            var s := ScanCount(Overwrite(m, RecordStart(reserved, c), slot[..k]), reserved, max, holds);
            && (s == c || s == c + 1)
            && (k == 0 ==> s == c)
            && (k == SlotSize && holds(slot) ==> s == c + 1)
  {
    var c := ScanCount(m, reserved, max, holds);
    var first, data := RecordStart(reserved, c), slot[..k];
    var m' := Overwrite(m, first, data);
    ScanCountIs(m, reserved, max, holds, c);
    forall i | 0 <= i < max && i != c
      ensures Slot(m', reserved, i) == Slot(m, reserved, i)
    {
      SlotUntouched(m, reserved, i, first, data);
    }
    SlotPrefixWritten(m, reserved, c, data);
    if k == 0 {
      assert Slot(m', reserved, c) == Slot(m, reserved, c);
    }
    if k == SlotSize {
      assert Slot(m', reserved, c) == slot;
    }
    if holds(Slot(m', reserved, c)) {
      if c + 1 < max {
        assert !holds(Slot(m', reserved, c + 1));
      }
      ScanCountIs(m', reserved, max, holds, c + 1);
    } else {
      ScanCountIs(m', reserved, max, holds, c);
    }
  }

  /**
   * A complete append on a medium whose count is `c` leaves a medium whose
   * count is `c + 1`: the new slot holds a record and the zeroed slot after
   * it stops the scan.
   */
  lemma AppendAdvancesCount(m: seq<uint8>, reserved: nat, max: nat, holds: seq<uint8> -> bool, slot: seq<uint8>)
    requires SlotsFit(m, reserved, max) && |slot| == SlotSize
    requires ScanCount(m, reserved, max, holds) < max
    requires holds(slot) && !holds(Zeros(SlotSize))
    ensures var c := ScanCount(m, reserved, max, holds);
            ScanCount(Overwrite(ZeroAhead(m, reserved, max, c), RecordStart(reserved, c), slot), reserved, max, holds) == c + 1
  {
    var c := ScanCount(m, reserved, max, holds);
    var m1 := ZeroAhead(m, reserved, max, c);
    if c + 1 < max {
      CrashWhileZeroing(m, reserved, max, holds, SlotSize);
      assert Zeros(SlotSize)[..SlotSize] == Zeros(SlotSize);
      OverwriteReadsBack(m, RecordStart(reserved, c + 1), Zeros(SlotSize));
      assert Slot(m1, reserved, c + 1) == Zeros(SlotSize);
    }
    CrashWhileWriting(m1, reserved, max, holds, slot, SlotSize);
    assert slot[..SlotSize] == slot;
  }

  /** The number of single-byte writes of an append: the zeroing of slot `c + 1`, when there is one, then the slot. */
  function AppendWrites(max: nat, c: nat): nat {
    (if c + 1 < max then SlotSize else 0) + SlotSize
  }

  /** The medium after the first `n` single-byte writes of an append of `slot` at count `c`. */
  function AfterWrites(m: seq<uint8>, reserved: nat, max: nat, c: nat, slot: seq<uint8>, n: nat): (r: seq<uint8>)
    requires SlotsFit(m, reserved, max) && c < max && |slot| == SlotSize && n <= AppendWrites(max, c)
    ensures |r| == |m|
  {
    var zeroing := AppendWrites(max, c) - SlotSize;
    if n < zeroing then Overwrite(m, RecordStart(reserved, c + 1), Zeros(SlotSize)[..n])
    else Overwrite(ZeroAhead(m, reserved, max, c), RecordStart(reserved, c), slot[..n - zeroing])
  }

  /**
   * Power lost at any byte of an append: the next scan finds the old count
   * or one more, and one more once every byte of a counted slot is written.
   */
  lemma PowerLossDuringAppend(m: seq<uint8>, reserved: nat, max: nat, holds: seq<uint8> -> bool, slot: seq<uint8>, n: nat)
    requires SlotsFit(m, reserved, max) && |slot| == SlotSize && !holds(Zeros(SlotSize))
    requires ScanCount(m, reserved, max, holds) < max
    requires n <= AppendWrites(max, ScanCount(m, reserved, max, holds))
    ensures var c := ScanCount(m, reserved, max, holds);
            var s := ScanCount(AfterWrites(m, reserved, max, c, slot, n), reserved, max, holds);
            && (s == c || s == c + 1)
            && (n == AppendWrites(max, c) && holds(slot) ==> s == c + 1)
  {
    var c := ScanCount(m, reserved, max, holds);
    var m1 := ZeroAhead(m, reserved, max, c);
    if c + 1 < max {
      if n < SlotSize {
        CrashWhileZeroing(m, reserved, max, holds, n);
        return;
      }
      CrashWhileZeroing(m, reserved, max, holds, SlotSize);
      assert Zeros(SlotSize)[..SlotSize] == Zeros(SlotSize);
      OverwriteReadsBack(m, RecordStart(reserved, c + 1), Zeros(SlotSize));
      assert Slot(m1, reserved, c + 1) == Zeros(SlotSize);
    }
    var zeroing := AppendWrites(max, c) - SlotSize;
    CrashWhileWriting(m1, reserved, max, holds, slot, n - zeroing);
    assert n == AppendWrites(max, c) ==> slot[..n - zeroing] == slot;
  }

  /**
   * A complete append of a record whose readings are in range, on a medium
   * with room for it, raises the count the next `begin` finds by one.
   */
  lemma AppendedRecordCounted(m: seq<uint8>, reserved: nat, max: nat, readingsInRange: (Reading, Reading) -> bool, r: LogRecord)
    requires SlotsFit(m, reserved, max) && r.dateTime.month <= 13 && readingsInRange(r.temperature, r.humidity)
    requires ScanCount(m, reserved, max, SlotCheck(readingsInRange)) < max
    ensures var c := ScanCount(m, reserved, max, SlotCheck(readingsInRange));
            ScanCount(Overwrite(ZeroAhead(m, reserved, max, c), RecordStart(reserved, c), EncodeSlot(r)),
                      reserved, max, SlotCheck(readingsInRange)) == c + 1
  {
    PackedSlotHolds(ToSeconds(r.dateTime) % 0x1_0000_0000, r.humidity, r.temperature, readingsInRange);
    AppendAdvancesCount(m, reserved, max, SlotCheck(readingsInRange), EncodeSlot(r));
  }

  // ---------------------------------------------------------------------
  // Byte loops over a slot

  /** `isInternalRecordNull`: true when every byte of the slot is zero. */
  method IsInternalRecordNull(record: seq<uint8>) returns (isNull: bool)
    requires |record| == SlotSize
    ensures isNull == IsNullSlot(record)
  {
    for i := 0 to SlotSize
      invariant forall k :: 0 <= k < i ==> record[k] == 0
    {
      if record[i] != 0 {
        return false;
      }
    }
    return true;
  }

  /** `getCRCForInternalRecord`: the CRC-16 of a copy of the slot with the CRC field zeroed. */
  method GetCrcForInternalRecord(record: seq<uint8>) returns (crc: bv16)
    requires |record| == SlotSize
    ensures crc == SlotCrc(record)
  {
    var recordForCrc := record[..12] + [0, 0];
    crc := Checksum(recordForCrc);
  }

  /** `isInternalRecordValid`: the readings are in range and the stored CRC matches. */
  method IsInternalRecordValid(record: seq<uint8>, readingsInRange: (Reading, Reading) -> bool) returns (isValid: bool)
    requires |record| == SlotSize
    ensures isValid == IsValidSlot(record, readingsInRange)
  {
    if !readingsInRange(Temperature(record), Humidity(record)) {
      return false;
    }
    var crc := GetCrcForInternalRecord(record);
    isValid := crc as int == StoredCrc(record);
  }

  /**
   * The conversion in `appendRecord`: a zeroed structure gets the time and
   * the two readings, then the CRC computed while its CRC field is zero.
   */
  method EncodeInternalRecord(record: LogRecord) returns (internalRecord: seq<uint8>)
    requires record.dateTime.month <= 13
    ensures internalRecord == EncodeSlot(record)
  {
    var time := ToSecondsSince2000(record.dateTime);
    internalRecord := AddCrc(Le32(time as nat) + record.humidity + record.temperature);
  }

  /**
   * The structure with the CRC field still zero from the `memset`, its CRC
   * computed, then stored in the CRC field.
   */
  method AddCrc(fields: seq<uint8>) returns (internalRecord: seq<uint8>)
    requires |fields| == 12
    ensures internalRecord == WithCrc(fields)
  {
    internalRecord := fields + [0, 0];
    var crc := GetCrcForInternalRecord(internalRecord);
    internalRecord := fields + Le16(crc as nat);
    CrcOfZeroedField(fields);
  }

  /** The CRC of a structure whose CRC field is zero is the one `WithCrc` stores. */
  lemma CrcOfZeroedField(fields: seq<uint8>)
    requires |fields| == 12
    ensures WithCrc(fields) == fields + Le16(SlotCrc(fields + [0, 0]) as nat)
  {
    assert CrcInput(fields + [0, 0]) == fields + [0, 0] by {
      assert (fields + [0, 0])[..12] == fields;
    }
  }

  // ---------------------------------------------------------------------
  // The log

  /** The log system's state: its three counters and the medium it scans. */
  class LogStore {
    const medium: array<uint8>
    const readingsInRange: (Reading, Reading) -> bool
    var reserved: nat
    var count: nat
    var max: nat

    /** The slots below `max` fit the medium and the count does not exceed them. */
    predicate Valid()
      reads this
    {
      medium.Length == Size && RecordStart(reserved, max) <= Size && count <= max
    }

    /** The count is the one `begin` would find on the medium as it now is. */
    predicate Consistent()
      reads this, medium
      requires Valid()
    {
      count == ScanCount(medium[..], reserved, max, SlotCheck(readingsInRange))
    }

    /** The counters start at zero, as the static variables do. */
    constructor (medium: array<uint8>, readingsInRange: (Reading, Reading) -> bool)
      requires medium.Length == Size
      ensures Valid() && this.medium == medium && this.readingsInRange == readingsInRange
      ensures reserved == 0 && count == 0 && max == 0
    {
      this.medium := medium;
      this.readingsInRange := readingsInRange;
      reserved, count, max := 0, 0, 0;
    }

    /** `getInternalRecord`: read slot `index`. */
    method GetInternalRecord(index: nat) returns (record: seq<uint8>)
      requires Valid() && RecordStart(reserved, index) + SlotSize <= medium.Length
      ensures record == Slot(medium[..], reserved, index)
    {
      record := ReadBytes(medium, RecordStart(reserved, index), SlotSize);
    }

    /** `setInternalRecord`: write a whole slot. */
    method SetInternalRecord(record: seq<uint8>, index: nat)
      requires Valid() && |record| == SlotSize && RecordStart(reserved, index) + SlotSize <= medium.Length
      modifies medium
      ensures medium[..] == Overwrite(old(medium[..]), RecordStart(reserved, index), record)
    {
      WriteBytes(medium, RecordStart(reserved, index), record);
    }

    /** `zeroInternalRecord`: write the fourteen bytes of slot `index` to zero, one at a time. */
    method ZeroInternalRecord(index: nat)
      requires Valid() && RecordStart(reserved, index) + SlotSize <= medium.Length
      modifies medium
      ensures medium[..] == Overwrite(old(medium[..]), RecordStart(reserved, index), Zeros(SlotSize))
    {
      var storageIndex := RecordStart(reserved, index);
      for i := 0 to SlotSize
        invariant storageIndex == RecordStart(reserved, index) + i
        invariant medium[..] == Overwrite(old(medium[..]), RecordStart(reserved, index), Zeros(SlotSize)[..i])
      {
        OverwriteExtend(old(medium[..]), RecordStart(reserved, index), Zeros(SlotSize), i);
        WriteByte(medium, storageIndex, 0);
        storageIndex := storageIndex + 1;
      }
      OverwriteWhole(old(medium[..]), RecordStart(reserved, index), Zeros(SlotSize));
    }

    /**
     * `begin`: reserve the first bytes for the settings, work out the
     * capacity and count the records by scanning for the first slot that is
     * null or invalid. The scan stops at the capacity.
     */
    method Begin(reservedForConfig: nat)
      requires medium.Length == Size && reservedForConfig <= Size
      modifies this
      ensures Valid() && Consistent()
      ensures reserved == reservedForConfig && max == Capacity(reservedForConfig)
      ensures StopsAt(medium[..], reserved, max, SlotCheck(readingsInRange), count)
    {
      reserved := reservedForConfig;
      count := 0;
      max := Capacity(reserved);
      var index := 0;
      while index < max
        invariant reserved == reservedForConfig && max == Capacity(reservedForConfig) && count == 0
        invariant index <= max
        invariant ScanFrom(medium[..], reserved, max, SlotCheck(readingsInRange), index)
                  == ScanCount(medium[..], reserved, max, SlotCheck(readingsInRange))
        decreases max - index
      {
        var record := GetInternalRecord(index);
        var isNull := IsInternalRecordNull(record);
        if isNull {
          break;
        }
        var isValid := IsInternalRecordValid(record, readingsInRange);
        if !isValid {
          break;
        }
        index := index + 1;
      }
      count := index;
      ScanCountIs(medium[..], reserved, max, SlotCheck(readingsInRange), count);
    }

    /**
     * `getLogRecord`: the default record past the count, otherwise the
     * slot's readings and its time decoded from seconds since 2000.
     */
    method GetLogRecord(index: nat) returns (r: LogRecord)
      requires Valid()
      ensures index >= count ==> r == NullRecord
      ensures index < count ==>
                var slot := Slot(medium[..], reserved, index);
                && r.temperature == Temperature(slot) && r.humidity == Humidity(slot)
                && IsValid(r.dateTime) && WeekdayMatches(r.dateTime)
                && ToSeconds(r.dateTime) == Time(slot)
    {
      if index >= count {
        return NullRecord;
      }
      var record := GetInternalRecord(index);
      var dateTime := FromSecondsSince2000(Time(record) as uint32);
      r := LogRecord(dateTime, Temperature(record), Humidity(record));
    }

    /**
     * `appendRecord`: refuse when full; otherwise zero the slot after the
     * current one (when there is one), write the record with its CRC into
     * the current slot and count it.
     */
    method AppendRecord(record: LogRecord) returns (ok: bool)
      requires Valid() && record.dateTime.month <= 13
      modifies this`count, medium
      ensures Valid()
      ensures ok == (old(count) < max)
      ensures !ok ==> count == old(count) && medium[..] == old(medium[..])
      ensures ok ==> count == old(count) + 1
      ensures ok ==> medium[..] == Overwrite(ZeroAhead(old(medium[..]), reserved, max, old(count)),
                                             RecordStart(reserved, old(count)), EncodeSlot(record))
      ensures ok && old(Consistent()) && readingsInRange(record.temperature, record.humidity) ==> Consistent()
    {
      if count >= max {
        return false;
      }
      WriteRecord(record);
      count := count + 1;
      ok := true;
      if old(Consistent()) && readingsInRange(record.temperature, record.humidity) {
        AppendedRecordCounted(old(medium[..]), reserved, max, readingsInRange, record);
      }
    }

    /** The writes of `appendRecord` at the current count: zero the next slot (if any), then fill the current one. */
    method WriteRecord(record: LogRecord)
      requires Valid() && count < max && record.dateTime.month <= 13
      modifies medium
      ensures medium[..] == Overwrite(ZeroAhead(old(medium[..]), reserved, max, count), RecordStart(reserved, count), EncodeSlot(record))
    {
      if count + 1 < max {
        ZeroInternalRecord(count + 1);
      }
      var internalRecord := EncodeInternalRecord(record);
      SetInternalRecord(internalRecord, count);
    }

    /**
     * `format`: zero slots 0 and 1, so that the next scan stops at slot 0.
     * The count is left as it was.
     */
    method Format()
      requires Valid() && RecordStart(reserved, 2) <= medium.Length
      modifies medium
      ensures medium[..] == Overwrite(Overwrite(old(medium[..]), RecordStart(reserved, 0), Zeros(SlotSize)),
                                      RecordStart(reserved, 1), Zeros(SlotSize))
      ensures ScanCount(medium[..], reserved, max, SlotCheck(readingsInRange)) == 0
    {
      ZeroInternalRecord(0);
      ZeroInternalRecord(1);
      FormattedSlotZeroIsNull(old(medium[..]), reserved);
      FormatEmptiesLog(old(medium[..]), reserved, max, SlotCheck(readingsInRange));
    }

    /** `format` followed by what `begin` would do to the count: the log is empty and the count agrees. */
    method FormatAndReset()
      requires Valid() && RecordStart(reserved, 2) <= medium.Length
      modifies this`count, medium
      ensures Valid() && Consistent() && count == 0
      ensures medium[..] == Overwrite(Overwrite(old(medium[..]), RecordStart(reserved, 0), Zeros(SlotSize)),
                                      RecordStart(reserved, 1), Zeros(SlotSize))
    {
      Format();
      count := 0;
    }

    /** `maximumNumberOfRecords`. */
    function MaximumNumberOfRecords(): (n: nat)
      reads this
      requires Valid()
      ensures RecordStart(reserved, n) <= Size
    {
      max
    }

    /** `currentNumberOfRecords`. */
    function CurrentNumberOfRecords(): (n: nat)
      reads this
      requires Valid()
      ensures n <= MaximumNumberOfRecords()
    {
      count
    }
  }

  /** After `format`, slot 0 is all zero. */
  lemma FormattedSlotZeroIsNull(m: seq<uint8>, reserved: nat)
    requires RecordStart(reserved, 2) <= |m|
    ensures var f := Overwrite(Overwrite(m, RecordStart(reserved, 0), Zeros(SlotSize)), RecordStart(reserved, 1), Zeros(SlotSize));
            Slot(f, reserved, 0) == Zeros(SlotSize)
  {
    var m1 := Overwrite(m, RecordStart(reserved, 0), Zeros(SlotSize));
    OverwriteReadsBack(m, RecordStart(reserved, 0), Zeros(SlotSize));
    SlotUntouched(m1, reserved, 0, RecordStart(reserved, 1), Zeros(SlotSize));
  }

  /** Whatever the medium held before, the scan after `format` stops at slot 0. */
  lemma FormatEmptiesLog(m: seq<uint8>, reserved: nat, max: nat, holds: seq<uint8> -> bool)
    requires RecordStart(reserved, 2) <= |m| && SlotsFit(m, reserved, max) && !holds(Zeros(SlotSize))
    ensures var f := Overwrite(Overwrite(m, RecordStart(reserved, 0), Zeros(SlotSize)), RecordStart(reserved, 1), Zeros(SlotSize));
            ScanCount(f, reserved, max, holds) == 0
  {
    FormattedSlotZeroIsNull(m, reserved);
  }

  /**
   * `format` without a new `begin` (as the erase-all view calls it): with a
   * stale count of `c >= 2`, the next append writes slot `c`, and the
   * following `begin` still stops at slot 0, so that record is lost although
   * the store counted it.
   */
  lemma AppendAfterFormatIsLost(m: seq<uint8>, reserved: nat, max: nat, holds: seq<uint8> -> bool, c: nat, r: LogRecord)
    requires SlotsFit(m, reserved, max) && 2 <= c < max && r.dateTime.month <= 13 && !holds(Zeros(SlotSize))
    ensures var f := Overwrite(Overwrite(m, RecordStart(reserved, 0), Zeros(SlotSize)), RecordStart(reserved, 1), Zeros(SlotSize));
            var appended := Overwrite(ZeroAhead(f, reserved, max, c), RecordStart(reserved, c), EncodeSlot(r));
            ScanCount(appended, reserved, max, holds) == 0
  {
    var f := Overwrite(Overwrite(m, RecordStart(reserved, 0), Zeros(SlotSize)), RecordStart(reserved, 1), Zeros(SlotSize));
    FormattedSlotZeroIsNull(m, reserved);
    var z := ZeroAhead(f, reserved, max, c);
    if c + 1 < max {
      SlotUntouched(f, reserved, 0, RecordStart(reserved, c + 1), Zeros(SlotSize));
    }
    SlotUntouched(z, reserved, 0, RecordStart(reserved, c), EncodeSlot(r));
  }
}
