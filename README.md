# Data logger core: time codec, record log, settings block and RTC packing

This project models, in Dafny, the core of a battery-powered temperature and
humidity logger:

- **the `DateTime` value** (`DateTime.cpp`). This covers the calendar helpers,
  the clamping setters and the comparison operators. It also covers the
  seconds-since-2000 codec with its 32-bit arithmetic, and `addSeconds`,
  `addDays` and `secondsTo`. These live in `Calendar.dfy` and `DateTimes.dfy`.
- **the record log** (`LogSystem.cpp`). Records are 14-byte slots on a 32 KB
  FRAM, each protected by a CRC-16. The record count is found again at start-up
  by scanning for the first null or invalid slot. `appendRecord` keeps that scan
  right by zeroing the next slot before it writes. This is `LogSystem.dfy`, with
  the class `LogStore` over an `array<uint8>` medium.
- **the settings block** (`Settings.cpp`). This is a 7-byte block at address 0:
  the interval, the serial speed and a CRC-16. It is reloaded at start-up and
  falls back to the defaults when the CRC does not match. This is
  `Settings.dfy`, with the class `SettingsStore`.
- **the DS3231 real-time clock's register packing** (`DS3231.cpp`). This
  covers the BCD conversion, the century bit and the year base. It is
  `DS3231.dfy`.
- **the byte-level storage interface** (`Storage.cpp`) is `Storage.dfy`.

Two supporting modules complete the model:

- `Crc16.dfy` holds the bitwise CRC-16 of avr-libc's `_crc16_update`: reflected
  polynomial 0xA001, seed 0xFFFF. This is the CRC-16/MODBUS of section 6.2.2 of
  the Modbus over Serial Line specification V1.02.
- `Bytes.dfy` holds the little-endian layout of the packed structures.

The code that changes state step by step is modelled as methods with loops.
Each method is proved against a specification function:

- the byte loops of `Storage`;
- the CRC loop;
- `toSecondsSince2000` and `fromSecondsSince2000`;
- the slot loops of the log;
- `begin`, `appendRecord` and `format` of `LogStore`;
- `begin`, `saveToStorage` and the setters of `SettingsStore`.

The log and the settings are classes whose fields are the source's static
variables. `DateTime` is a value type in the source, so it is a datatype here.

The main properties proved are:

- `fromSecondsSince2000` inverts `toSecondsSince2000` for every valid date that
  fits in 32 bits;
- the comparison operators agree with the seconds order;
- after an append, the scan at the next start-up counts exactly one more record;
- a power loss at any byte of an append, whether in the zeroing of the next
  slot or in the writing of the record, leaves a count of the old value or the
  old value plus one (`PowerLossDuringAppend`);
- a stored record or settings block with any one byte changed fails its CRC
  check;
- saved settings reload unchanged, and any single corrupted byte of the
  settings block brings back the defaults;
- DS3231 registers read back as written, in both directions, for a year base
  that is a multiple of 100.

Where the comments of the source and its code disagree, the model follows the
code. The comment on `getCRCForInternalRecord` (`LogSystem.cpp:160-168`)
describes a 4-bit CRC made by XOR-ing nibbles, but the code stores and compares
the full 16-bit CRC. The model does the same as the code.

## Model

| member | source | states |
|---|---|---|
| Bytes.Le32RoundTrip | LogSystem.cpp:86-92 | The 32-bit time field, stored least significant byte first, reads back as the same number. |
| Bytes.FromLe32RoundTrip | Settings.cpp:30-34 | Any four stored bytes are exactly the little-endian image of the number they read as, so decoding the speed field loses nothing. |
| Bytes.Le16RoundTrip | LogSystem.cpp:86-92 | The 16-bit CRC field reads back as the number written. |
| Bytes.FromLe16RoundTrip | Settings.cpp:30-34 | Any two stored CRC bytes are the little-endian image of the number they read as. |
| Crc16.Checksum | Settings.cpp:58-63 | The byte loop that applies `_crc16_update` from seed 0xFFFF computes the CRC-16 of the whole message. |
| Crc16.ModbusCheckValue | LogSystem.cpp:169-180 | The CRC of the ASCII digits "123456789" is 0x4B37, the published CRC-16/MODBUS check value. |
| Crc16.CrcDetectsSingleByteChange | LogSystem.cpp:191-201 | Two equally long messages that differ in exactly one byte have different CRCs, from any seed. |
| Crc16.CrcOfZerosNonZero | LogSystem.cpp:148-158 | From a non-zero seed, the CRC of an all-zero message is never zero, so a zeroed slot or block never carries a matching CRC. |
| Crc16.UpdateInjectiveInCrc | LogSystem.cpp:176 | One `_crc16_update` step maps different running CRCs to different results. |
| Crc16.UpdateInjectiveInByte | LogSystem.cpp:176 | One `_crc16_update` step maps different input bytes to different results. |
| Crc16.CrcLast | LogSystem.cpp:174-178 | The CRC of a message is the CRC of all but its last byte, updated with that last byte. |
| Calendar.MaxDayPerMonth | DateTime.cpp:73-79 | February of a leap year has 29 days; every other month has the length in the month table `cDaysPerMonth`. |
| Calendar.DaysForYear | DateTime.cpp:82-89 | A year has 337 days plus the days of its February. |
| Calendar.DayOfWeekAgrees | DateTime.cpp:57-64 | `calculateDayOfWeek` on a date from 2000 on equals the count of days since 2000-01-01 plus 6, modulo 7 (2000-01-01 was a Saturday, 0 is Sunday). |
| Calendar.CalculateDayOfWeek | DateTime.cpp:57-64 | The weekday is below 7. |
| Calendar.MonthLengths | DateTime.cpp:73-79 | February has 29 days exactly in leap years and 28 otherwise; every other month has its table length in every year; every month has 28 to 31 days. |
| Calendar.CenturyYears | DateTime.cpp:67-70 | 2000 and 2400 are leap years and 2100 is not. |
| Calendar.MonthsFillYear | DateTime.cpp:82-89 | The twelve month lengths add up to `getDaysForYear`. |
| Calendar.DaysBeforeYearClosed | DateTime.cpp:299-301 | The days before a year, counted year by year from 2000, equal the closed leap-year formula. |
| DateTimes.SetDate | DateTime.cpp:184-210 | Each field is clamped to the nearest legal value: a year below 2000 becomes 2000 and one above 9999 becomes 9999, a month of 0 becomes 1 and one above 12 becomes 12, a day of 0 becomes 1 and one past the month's length becomes that length. An in-range argument is kept as given. The weekday is recomputed from the date, and the time of day is unchanged. |
| DateTimes.FebruaryThirtiethClamps | DateTime.cpp:184-210 | February 30 becomes February 29 in a leap year and February 28 in any other. |
| DateTimes.SetDateWeekday | DateTime.cpp:184-210 | After `setDate` the stored weekday is the one the day count since 2000 gives. |
| DateTimes.SetTime | DateTime.cpp:213-230 | An hour above 23 becomes 23 and a minute or second above 59 becomes 59; in-range arguments are kept, and the date is unchanged. |
| DateTimes.Make | DateTime.cpp:99-103 | The constructor without a weekday yields a valid date whose weekday matches its day count, and each of its six fields is the argument clamped into its range. |
| DateTimes.EpochIsFirst | DateTime.cpp:93-96 | The default date, 2000-01-01 00:00:00, is valid, is `isFirst`, and is second 0. |
| DateTimes.IsFirst | DateTime.cpp:313-316 | For a valid date, `isFirst` holds exactly when its seconds since 2000 are 0. |
| DateTimes.FirstIsSecondZero | DateTime.cpp:313-316 | A valid date is 2000-01-01 00:00:00 if and only if it converts to second 0. |
| DateTimes.StrictOrder | DateTime.cpp:136-175 | `<` is irreflexive, asymmetric and transitive; `>` is its converse; and any two dates compare one way or are the same moment. |
| DateTimes.LessSecondsBefore | DateTime.cpp:136-151 | For valid dates, `a < b` implies that `a` converts to fewer seconds than `b`. |
| DateTimes.LessMatchesSeconds | DateTime.cpp:136-175 | For valid dates, `<` and `>` hold exactly when the seconds since 2000 compare the same way. |
| DateTimes.ToSecondsSince2000 | DateTime.cpp:293-310 | The year and month loops with 32-bit wrap-around compute the seconds since 2000 modulo 2^32. |
| DateTimes.ToSecondsInjective | DateTime.cpp:293-310 | Two valid dates that fit in 32 bits and convert to the same seconds agree in all six fields, whatever their weekdays; when both weekdays match their dates they are equal. |
| DateTimes.YearFrom | DateTime.cpp:367-373 | Counting whole years off a day count from a start year ends in a year at or after it, with a remainder below that year's length and the same total day count. |
| DateTimes.MonthFrom | DateTime.cpp:374-380 | Counting whole months off the days of a year ends in a month in range, with a remainder below that month's length and the same total. |
| DateTimes.CountYears | DateTime.cpp:367-373 | The year loop computes the year and the remaining days that `YearFrom` specifies. |
| DateTimes.CountMonths | DateTime.cpp:374-380 | The month loop computes the month and the remaining days that `MonthFrom` specifies. |
| DateTimes.FromSeconds | DateTime.cpp:352-382 | Any 32-bit seconds value decodes to a valid date with a matching weekday, no later than 2136, that converts back to the same seconds. |
| DateTimes.FromSecondsSince2000 | DateTime.cpp:352-382 | The decoding method returns a valid date with a matching weekday whose seconds since 2000 are the input. |
| DateTimes.FromSecondsOfToSeconds | DateTime.cpp:352-382 | Decoding the seconds of a valid date that fits in 32 bits gives back its six fields, whatever weekday it carried; the weekday too when it was that of the date. |
| DateTimes.FromSecondsMonotone | DateTime.cpp:352-382 | A larger seconds count decodes to a later date under `operator<`. |
| DateTimes.AddSeconds | DateTime.cpp:275-278 | The result is valid and converts to the old seconds plus the offset, modulo 2^32. Without wrap-around it is exactly the sum. |
| DateTimes.AddDays | DateTime.cpp:281-284 | The result is valid and converts to the old seconds plus 86400 per day, modulo 2^32. Without wrap-around it is exactly the sum. |
| DateTimes.SecondsTo | DateTime.cpp:287-290 | The difference of the two seconds values, each read as a signed 32-bit number; the plain difference when both lie below 2^31. |
| DateTimes.EqualAsWritten | DateTime.cpp:119-127 | As written, `operator==` holds only for dates that are not the same moment, and so are ordered one way or the other by `<` and `>`. |
| DateTimes.EqualAsWrittenIrreflexive | DateTime.cpp:119-133 | As written, `operator==` is false for every date compared with itself, so `<=` and `>=` are false on equal dates. |
| DateTimes.GreaterOrEqualAsWrittenFiresEarly | DateTime.cpp:178-181 | As written, `>=` holds for 2015-12-31 23:59:59 against 2016-01-01 00:00:00, one second before the later moment is reached. |
| DateTimes.AtOrAfterMatchesSeconds | DateTime.cpp:178-181 | The intended `>=` (greater or all six fields equal) holds exactly when the seconds since 2000 are at least as large. The intended equality holds exactly when they are equal. |
| Storage.WriteByte | Storage.cpp:64-71 | Storing one byte changes that address alone. |
| Storage.WriteBytes | Storage.cpp:74-83 | The range write leaves the medium with the data at consecutive addresses from the first index and every other byte unchanged. |
| Storage.ReadByte | Storage.cpp:86-94 | The byte returned is the byte at the address. |
| Storage.ReadBytes | Storage.cpp:97-108 | The bytes returned are the medium's bytes from the first index on. |
| Storage.OverwriteReadsBack | Storage.cpp:74-83 | What a range write stores reads back unchanged. |
| Storage.OverwriteKeepsOutside | Storage.cpp:74-83 | A range write changes no byte outside its range. |
| LogSystem.Capacity | LogSystem.cpp:211 | The capacity is the largest number of whole 14-byte slots that fit after the reserved bytes. |
| LogSystem.CapacityAfterSettings | Application.cpp:113 | With the 7 bytes of the settings block reserved, the log holds 2340 records. |
| LogSystem.SlotCrcIgnoresCrcField | LogSystem.cpp:169-180 | The slot CRC depends only on the first twelve bytes, because the CRC field is zeroed before hashing. |
| LogSystem.ChangedByteFailsCrc | LogSystem.cpp:191-201 | A slot that passed the CRC check fails it once any one of its fourteen bytes is changed, whether a field byte or a CRC byte. |
| LogSystem.PackSlotFields | LogSystem.cpp:247-250 | A packed slot holds the given time, humidity and temperature in their fields. |
| LogSystem.PackSlotCrc | LogSystem.cpp:251 | A packed slot stores its own CRC in its CRC field. |
| LogSystem.PackedSlotHolds | LogSystem.cpp:236-255 | A packed slot whose readings are in range is not null and passes validation. |
| LogSystem.EncodedTime | LogSystem.cpp:248 | The time field of an encoded record is the record's seconds since 2000. |
| LogSystem.AppendedTimeReadsBack | LogSystem.cpp:226-233 | A valid date that decodes from an appended slot's time field has the six fields of the date that was appended, whatever weekday that date carried. |
| LogSystem.ScanCountIs | LogSystem.cpp:213-222 | The scan stops at `c` exactly when all slots below `c` pass and slot `c` is null or invalid, or `c` is the capacity. |
| LogSystem.SameSlotsSameCount | LogSystem.cpp:213-222 | Two media whose slots agree give the same count. |
| LogSystem.SettingsWriteKeepsCount | LogSystem.cpp:97-100 | A write within the reserved bytes leaves every slot, and so the count, unchanged. |
| LogSystem.CrashWhileZeroing | LogSystem.cpp:131-138 | A power loss after any number of the zeroing writes of an append leaves the scan count unchanged. |
| LogSystem.CrashWhileWriting | LogSystem.cpp:121-124 | A power loss after any number of the record's byte writes gives a count of the old value or the old value plus one. |
| LogSystem.PowerLossDuringAppend | LogSystem.cpp:236-255 | A power loss after any number of the single-byte writes of a whole append, zeroing of the next slot first, then the record, gives a count of the old value or the old value plus one, and one more once every byte of a counted slot is written. |
| LogSystem.AppendAdvancesCount | LogSystem.cpp:236-255 | A completed append of a slot that passes validation raises the scan count by exactly one. |
| LogSystem.AppendedRecordCounted | LogSystem.cpp:236-255 | A completed append of a record with in-range readings raises the scan count by exactly one. |
| LogSystem.IsInternalRecordNull | LogSystem.cpp:148-158 | The byte loop returns true exactly when all fourteen bytes are zero. |
| LogSystem.GetCrcForInternalRecord | LogSystem.cpp:169-180 | The loop computes the CRC-16 of the slot with its CRC field set to zero. |
| LogSystem.IsInternalRecordValid | LogSystem.cpp:191-201 | The result is true exactly when the readings are in range and the stored CRC matches the computed one. |
| LogSystem.EncodeInternalRecord | LogSystem.cpp:246-251 | The slot built for a record is its seconds, humidity and temperature with the matching CRC. |
| LogSystem.AddCrc | LogSystem.cpp:251 | The slot is the twelve field bytes followed by the CRC of the fields with a zeroed CRC field. |
| LogSystem.LogStore.constructor | LogSystem.cpp:79-81 | The three counters start at zero. |
| LogSystem.LogStore.GetInternalRecord | LogSystem.cpp:108-113 | Returns the fourteen bytes of slot `index`. |
| LogSystem.LogStore.SetInternalRecord | LogSystem.cpp:121-124 | Writes the fourteen bytes to slot `index` and nothing else. |
| LogSystem.LogStore.ZeroInternalRecord | LogSystem.cpp:131-138 | Zeroes slot `index` byte by byte and changes nothing else. |
| LogSystem.LogStore.Begin | LogSystem.cpp:204-223 | Sets the reserved size and the capacity. The count is where the scan of the medium stops, so it agrees with the medium. |
| LogSystem.LogStore.GetLogRecord | LogSystem.cpp:226-233 | Past the count it returns the null record. Otherwise it returns the slot's readings and a valid date whose seconds are the slot's time field. |
| LogSystem.LogStore.AppendRecord | LogSystem.cpp:236-255 | When full it refuses and changes nothing. Otherwise it zeroes the next slot (when there is one), writes the encoded record to the current slot and counts it. An in-range record keeps the count equal to what the next start-up scan finds. |
| LogSystem.LogStore.WriteRecord | LogSystem.cpp:241-252 | The medium after the two writes of an append. |
| LogSystem.LogStore.Format | LogSystem.cpp:258-262 | Zeroes slots 0 and 1, after which the scan finds no records. The count is not touched. |
| LogSystem.LogStore.FormatAndReset | LogSystem.cpp:258-262 | Format followed by a count of zero: the count agrees with the medium again. |
| LogSystem.LogStore.MaximumNumberOfRecords | LogSystem.cpp:265-268 | All of the capacity's slots fit on the medium. |
| LogSystem.LogStore.CurrentNumberOfRecords | LogSystem.cpp:271-274 | The count never exceeds the capacity. |
| LogSystem.FormattedSlotZeroIsNull | LogSystem.cpp:258-262 | After `format`, slot 0 is all zero. |
| LogSystem.FormatEmptiesLog | LogSystem.cpp:258-262 | Whatever the medium held, the scan after `format` counts no records. |
| LogSystem.AppendAfterFormatIsLost | EraseAllView.cpp:60-63 | After `format` with a stale count of 2 or more, one append still leaves a scan count of 0, so the appended record is lost at the next start-up. |
| Settings.Load | Settings.cpp:70-89 | The configuration loaded from a block is either its own fields or the defaults. |
| Settings.LoadBlock | Settings.cpp:70-89 | A block is loaded as its fields exactly when its stored CRC equals the CRC of the fields with a zeroed CRC field; otherwise the defaults are used. |
| Settings.LoadStored | Settings.cpp:55-67 | A block as `saveToStorage` writes it loads back as the same configuration. |
| Settings.SavedSettingsReload | Settings.cpp:55-67 | After saving, the first seven bytes of the medium load back as the saved configuration. |
| Settings.CorruptedBlockResets | Settings.cpp:82-87 | Changing any single byte of a saved block makes `begin` fall back to the defaults. |
| Settings.BlankChipGivesDefaults | Settings.cpp:70-89 | An all-zero block loads as the defaults. |
| Settings.SaveKeepsLog | Settings.cpp:92-95 | Saving the settings leaves the record count that the log scan finds unchanged. |
| Settings.IntervalInSeconds | Settings.cpp:39 | Every interval lasts 10 seconds to one day and divides a day evenly. |
| Settings.PowerSaveDuration | Settings.cpp:42 | Every power-save delay is shorter than its interval. |
| Settings.TablesMonotone | Settings.cpp:39-42 | Longer intervals come later in the table, and power-save delays never shrink along it. |
| Settings.DefaultIsOneHour | Settings.cpp:48-52 | The default interval is one hour. |
| Settings.SettingsStore.constructor | Settings.cpp:45 | The static data starts zeroed. |
| Settings.SettingsStore.ResetToDefault | Settings.cpp:48-52 | The configuration becomes the default one and the CRC field is untouched. |
| Settings.SettingsStore.SaveToStorage | Settings.cpp:55-67 | The CRC field becomes the CRC of the fields, and the block is written at address 0 and nowhere else. |
| Settings.SettingsStore.Begin | Settings.cpp:70-89 | The configuration is what `Load` gives for the first seven bytes of the medium, and the CRC field is left at 0. |
| Settings.SettingsStore.SetInterval | Settings.cpp:98-102 | Changes the interval alone, sets the CRC field to the CRC of the new fields and saves the block. |
| Settings.SettingsStore.SetSerialSpeed | Settings.cpp:123-127 | Changes the serial speed alone, sets the CRC field to the CRC of the new fields and saves the block. |
| Settings.SettingsStore.CurrentIntervalInSeconds | Settings.cpp:111-114 | The current interval lasts at least 10 seconds and divides a day. |
| Settings.SettingsStore.CurrentPowerSaveDuration | Settings.cpp:117-120 | The current power-save delay is shorter than the current interval. |
| DS3231.BcdOfBin | DS3231.cpp:49-53 | A number up to 99 converts to two BCD digits that convert back to it. |
| DS3231.BinOfBcd | DS3231.cpp:41-46 | A BCD byte converts to a number up to 99 that converts back to it. |
| DS3231.Encode | DS3231.cpp:90-117 | `setDateTime` ignores a year outside the 200 years from the base, and only such a year; the bound `base + 200` wraps at 2^16 as the target's 16-bit `unsigned int` does. |
| DS3231.EncodedCentury | DS3231.cpp:98-105 | The century bit is set exactly for years from base + 100 on, the month survives below the bit, and the year register holds the year modulo 100. |
| DS3231.DecodeEncode | DS3231.cpp:79-86 | A valid date in range, written and read back with a year base that is a multiple of 100, is the same date. |
| DS3231.EncodeDecode | DS3231.cpp:98-105 | Canonical registers, read and written back with a base that is a multiple of 100, are the same registers. |
| DS3231.DecodedYear | DS3231.cpp:80 | Read from canonical registers, the year lies within the 200 years of the base and is in the upper hundred exactly when the century bit is set. |
| DS3231.OffCenturyBaseMisreads | DS3231.cpp:80 | With base 2050, the year 2051 is written and reads back as 2101. |

## Left out

- The I2C traffic of the clock and the FRAM is left out. This covers `Storage::begin`'s device-ID check, the chip's wrap-around of addresses past 32 KB, and `DS3231::isRunning` and the temperature read. The medium is a 32768-byte array, and the clock's registers are a value.
- The `float` readings are not modelled as numbers. They are four opaque bytes, and the range test of `isInternalRecordValid` (`LogSystem.cpp:193-198`) is the store's parameter `readingsInRange`. `LogRecord`'s constructor clamping and `isNull` (`LogSystem.cpp:42-63`) are left out for the same reason.
- LogSystem.LogStore.Begin: the scan stops at the capacity. The source's `while` loop has no bound, and on a medium whose every slot is valid it would read slot `max`, which lies partly past the end of the chip.
- LogSystem.LogStore.AppendRecord: the count is proved to agree with the medium only when the readings are in range. With readings out of range the source writes a slot that its own scan rejects.
- `LogRecord::writeToSerial`, `DateTime::toString` and the views are output formatting and are not modelled.
- DateTimes.SetDate and DateTimes.SetTime return the updated value instead of changing the object's fields in place. `DateTime` objects are copied by value throughout the source, so no aliasing is lost.
- `DateTime::fromUncheckedValues` is the raw constructor. It is the datatype's own constructor, used by `DS3231.Decode`.
- DateTimes.FromSeconds: the bound `year <= 2136` reflects the 32-bit seconds range. Dates after 2136-02-07 do not fit, and `ToSecondsSince2000` then gives their value modulo 2^32.
- DateTimes.SecondsTo: the source converts both seconds values to `int32_t` and subtracts them in 32 bits. The model gives the exact difference of the two converted values, so it does not model a subtraction that overflows `int32_t` (undefined behaviour in C++). Both readings are plain seconds below 2^31, which is until January 2068.
- DS3231.DecodeEncode and DS3231.EncodeDecode require a base that is a multiple of 100. The source accepts any base, but only 2000 is used (`Application.cpp:120`), and `OffCenturyBaseMisreads` shows what goes wrong otherwise. `DS3231::begin` only stores the base and is the parameter `base` here.
- Settings.IntervalInSeconds requires an interval below 7. A stored interval outside the `Interval` enum, read from a block whose CRC happens to match, would index past the table `cIntervalSeconds` in the source.
- Settings.PowerSaveDuration requires an interval below 7, for the same reason, with the table of power-save delays.
- Settings.SettingsStore.CurrentIntervalInSeconds requires the current interval to be below 7, as `IntervalInSeconds` does.
- Settings.SettingsStore.CurrentPowerSaveDuration requires the current interval to be below 7, as `PowerSaveDuration` does.
- The getters of `Settings` (`getInterval`, `getSerialSpeed`) are the fields of `SettingsStore`, and `Settings::size` is the constant `BlockSize`.
- Concurrency is not modelled: the firmware is single-threaded. Power loss is modelled only as a prefix of the byte writes of one append.

## Findings

| source | as written | input that shows it | evidently intended | confidence | as-written member | corrected member |
|---|---|---|---|---|---|---|
| DateTime.cpp:119-127 | `operator==` joins `!=` tests with `&&`, so it is true only when all six fields differ. `<=` and `>=` inherit this, and `Application.cpp:163` uses `>=` to decide when to record. | now = 2015-12-31 23:59:59, next = 2016-01-01 00:00:00: `now >= next` is true one second early, and `d == d` is false for every `d` | `==` is true when all six fields are equal, so `>=` means at or after | high, not executed | DateTimes.GreaterOrEqualAsWrittenFiresEarly | DateTimes.AtOrAfterMatchesSeconds |
| LogSystem.cpp:258-262 | `format` zeroes slots 0 and 1 but keeps the record count, and the erase view (`EraseAllView.cpp:63`) calls it without a new `begin`. | a log of 5 records is erased, then one record is appended: it is written to slot 5, slot 0 stays zero, and the next start-up finds 0 records | `format` also sets the count to 0, so the next append goes to slot 0 | medium, not executed | LogSystem.AppendAfterFormatIsLost | LogSystem.LogStore.FormatAndReset |
