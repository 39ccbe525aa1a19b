/**
 * The register packing of the DS3231 real-time clock driver. The chip keeps
 * seconds, minutes, hours, weekday, day, month and a two-digit year in BCD;
 * bit 7 of the month register is the century bit. The driver counts years
 * from a base (2000 by default): the year register holds the year modulo
 * 100 and the century bit says whether the year is at least `base + 100`,
 * so 200 years from the base can be stored. Only the packing is modelled;
 * the I2C transfers around it are not.
 */
module DS3231 {
  import opened Bytes
  import opened DateTimes

  datatype Option<T> = None | Some(value: T)

  /** The seven timekeeping registers, from address 0x00 on. */
  datatype Registers = Registers(seconds: uint8, minutes: uint8, hours: uint8, dayOfWeek: uint8,
                                 day: uint8, month: uint8, year: uint8)

  /** `convertBcdToBin`: low nibble plus ten times the high nibble. */
  function BcdToBin(bcd: uint8): uint8 {
    bcd % 16 + bcd / 16 * 10
  }

  /** `convertBinToBcd`: the tens in the high nibble, the units in the low one, cut to eight bits. */
  function BinToBcd(bin: uint8): uint8 {
    ((bin as int % 10 + bin as int / 10 * 16) % 0x100) as uint8
  }

  /** Both nibbles are decimal digits. */
  predicate IsBcd(x: uint8) {
    x % 16 <= 9 && x / 16 <= 9
  }

  /** Two decimal digits survive the trip to BCD and back. */
  lemma BcdOfBin(bin: uint8)
    requires bin <= 99
    ensures IsBcd(BinToBcd(bin)) && BcdToBin(BinToBcd(bin)) == bin
  {
    var tens, units := bin as int / 10, bin as int % 10;
    assert BinToBcd(bin) as int == units + tens * 16;
    DivModUnique(units + tens * 16, 16, tens, units);
  }

  /** A number below `10 * tens` has a BCD code below `16 * tens`. */
  lemma BcdBelow(bin: uint8, tens: nat)
    requires (bin as int) < tens * 10 && tens <= 10
    ensures (BinToBcd(bin) as int) < tens * 16
  {
    var t := bin as int / 10;
    assert t * 10 <= bin as int;
    assert BinToBcd(bin) as int == bin as int % 10 + t * 16;
  }

  /** A BCD byte survives the trip to binary and back. */
  lemma BinOfBcd(bcd: uint8)
    requires IsBcd(bcd)
    ensures BcdToBin(bcd) <= 99 && BinToBcd(BcdToBin(bcd)) == bcd
  {
    var tens, units := bcd as int / 16, bcd as int % 16;
    assert BcdToBin(bcd) as int == units + tens * 10;
    DivModUnique(units + tens * 10, 10, tens, units);
  }

  /** `x | _BV(7)`. */
  function SetBit7(x: uint8): (r: uint8)
    ensures r >= 0x80 && r % 0x80 == x % 0x80 && r % 0x20 == x % 0x20
  {
    if x < 0x80 then x + 0x80 else x
  }

  /** `base + k` in the 16-bit `unsigned int` arithmetic of the target, which wraps modulo 2^16. */
  function Plus16(base: uint16, k: nat): (r: int)
    requires k < 0x1_0000
    ensures 0 <= r < 0x1_0000
    ensures base as int + k < 0x1_0000 ==> r == base as int + k
    ensures base as int + k >= 0x1_0000 ==> r == base as int + k - 0x1_0000
  {
    var sum := base as int + k;
    if sum < 0x1_0000 then DivModUnique(sum, 0x1_0000, 0, sum); sum % 0x1_0000
    else DivModUnique(sum, 0x1_0000, 1, sum - 0x1_0000); sum % 0x1_0000
  }

  /** The years the clock can hold from `base` on: `base <= year < base + 200`, the bound wrapping at 2^16. */
  predicate InRange(year: uint16, base: uint16) {
    base <= year && (year as int) < Plus16(base, 200)
  }

  /**
   * The register values `setDateTime` writes, or `None` when it ignores the
   * call because the year lies outside the 200 years from the base.
   */
  function Encode(dt: DateTime, base: uint16): (r: Option<Registers>)
    ensures r.None? <==> !InRange(dt.year, base)
  {
    if !InRange(dt.year, base) then None
    else
      var month := BinToBcd(dt.month);
      Some(Registers(BinToBcd(dt.second), BinToBcd(dt.minute), BinToBcd(dt.hour), dt.dayOfWeek,
                     BinToBcd(dt.day),
                     if dt.year as int >= Plus16(base, 100) then SetBit7(month) else month,
                     BinToBcd((dt.year % 100) as uint8)))
  }

  /**
   * The date `getDateTime` builds from the registers, without any check: the
   * unused bits are masked off, the year is the two BCD digits plus the base
   * or, with the century bit, the base plus 100, cut to 16 bits.
   */
  function Decode(r: Registers, base: uint16): DateTime {
    DateTime(Year(r, base),
             BcdToBin(r.month % 0x20), BcdToBin(r.day % 0x40), BcdToBin(r.hours % 0x40),
             BcdToBin(r.minutes % 0x80), BcdToBin(r.seconds % 0x80), r.dayOfWeek % 8)
  }

  /** The year of the registers: the two digits plus the century they fall in, cut to 16 bits. */
  function Year(r: Registers, base: uint16): (year: uint16)
    ensures year as int == (BcdToBin(r.year) as int + Century(r, base)) % 0x1_0000
  {
    ((BcdToBin(r.year) as int + Century(r, base)) % 0x1_0000) as uint16
  }

  /** The first year of the century the century bit selects. */
  function Century(r: Registers, base: uint16): int {
    if r.month >= 0x80 then base as int + 100 else base as int
  }

  /**
   * The month register carries the century bit exactly for the second
   * hundred years, and the year register the last two digits of the year.
   */
  lemma EncodedCentury(dt: DateTime, base: uint16)
    requires InRange(dt.year, base) && dt.month <= 12
    ensures var r := Encode(dt, base).value;
            && (r.month >= 0x80 <==> dt.year as int >= base as int + 100)
            && r.month % 0x80 == r.month % 0x20 == BinToBcd(dt.month)
            && BcdToBin(BinToBcd(dt.month)) == dt.month
            && BcdToBin(r.year) as int == dt.year as int % 100
  {
    BcdOfBin(dt.month);
    BcdBelow(dt.month, 2);
    var m := BinToBcd(dt.month) as int;
    DivModUnique(m, 0x80, 0, m);
    DivModUnique(m, 0x20, 0, m);
    BcdOfBin((dt.year % 100) as uint8);
  }

  /**
   * A valid date in range reads back unchanged when the base is a multiple
   * of 100 (the default base 2000 covers 2000 to 2199).
   */
  lemma DecodeEncode(dt: DateTime, base: uint16)
    requires IsValid(dt) && dt.dayOfWeek < 8 && InRange(dt.year, base) && base % 100 == 0
    ensures Encode(dt, base).Some? && Decode(Encode(dt, base).value, base) == dt
  {
    var r := Encode(dt, base).value;
    YearReadsBack(dt, base);
    MonthReadsBack(dt, base);
    TimeFieldRoundTrip(dt.second, 6);
    TimeFieldRoundTrip(dt.minute, 6);
    TimeFieldRoundTrip(dt.hour, 3);
    TimeFieldRoundTrip(dt.day, 4);
    DivModUnique(dt.dayOfWeek as int, 8, 0, dt.dayOfWeek as int);
  }

  /** The year comes back from the year register and the century bit. */
  lemma YearReadsBack(dt: DateTime, base: uint16)
    requires InRange(dt.year, base) && base % 100 == 0 && dt.month <= 12
    ensures Year(Encode(dt, base).value, base) == dt.year
  {
    var r := Encode(dt, base).value;
    var year := dt.year as int;
    assert BcdToBin(r.year) as int + Century(r, base) == year by {
      EncodedCentury(dt, base);
      CenturyYear(year, base as int);
    }
    DivModUnique(year, 0x1_0000, 0, year);
  }

  /** The month comes back from the month register without its century bit. */
  lemma MonthReadsBack(dt: DateTime, base: uint16)
    requires InRange(dt.year, base) && dt.month <= 12
    ensures BcdToBin(Encode(dt, base).value.month % 0x20) == dt.month
  {
    EncodedCentury(dt, base);
  }

  /** A field below `10 * tens` (at most 79) reads back through any mask of `16 * tens` or more. */
  lemma TimeFieldRoundTrip(v: uint8, tens: nat)
    requires (v as int) < tens * 10 && 1 <= tens <= 7
    ensures BinToBcd(v) % 0x80 == BinToBcd(v) && BcdToBin(BinToBcd(v)) == v
    ensures tens <= 4 ==> BinToBcd(v) % 0x40 == BinToBcd(v)
  {
    BcdOfBin(v);
    BcdBelow(v, tens);
    var b := BinToBcd(v) as int;
    DivModUnique(b, 0x80, 0, b);
    if tens <= 4 {
      DivModUnique(b, 0x40, 0, b);
    }
  }

  /** `year % 100` plus the base, and 100 more in the second century, is the year again. */
  lemma CenturyYear(year: int, base: int)
    requires base <= year < base + 200 && base % 100 == 0 && 0 <= base
    ensures year % 100 + (if year >= base + 100 then base + 100 else base) == year
  {
    var q := base / 100;
    if year >= base + 100 {
      DivModUnique(year, 100, q + 1, year - base - 100);
    } else {
      DivModUnique(year, 100, q, year - base);
    }
  }

  /** Registers as the chip keeps them: BCD digits and no stray bits. */
  predicate Canonical(r: Registers) {
    && IsBcd(r.seconds) && r.seconds < 0x80
    && IsBcd(r.minutes) && r.minutes < 0x80
    && IsBcd(r.hours) && r.hours < 0x40
    && IsBcd(r.day) && r.day < 0x40
    && IsBcd(r.month % 0x80) && r.month % 0x80 < 0x20
    && IsBcd(r.year) && r.dayOfWeek < 8
  }

  /**
   * The other direction: canonical registers read by the driver and written
   * back give the same registers, for a base that is a multiple of 100 and
   * leaves room for 200 years.
   */
  lemma EncodeDecode(r: Registers, base: uint16)
    requires Canonical(r) && base % 100 == 0 && base as int + 200 <= 0x1_0000
    ensures Encode(Decode(r, base), base) == Some(r)
  {
    DecodedYear(r, base);
    MonthRegister(r.month);
    FieldReadsBack(r.seconds, 0x80);
    FieldReadsBack(r.minutes, 0x80);
    FieldReadsBack(r.hours, 0x40);
    FieldReadsBack(r.day, 0x40);
    DivModUnique(r.dayOfWeek as int, 8, 0, r.dayOfWeek as int);
  }

  /** A BCD register below its mask reads back through the mask and is written back the same. */
  lemma FieldReadsBack(reg: uint8, mask: uint8)
    requires IsBcd(reg) && reg < mask
    ensures BinToBcd(BcdToBin(reg % mask)) == reg
  {
    DivModUnique(reg as int, mask as int, 0, reg as int);
    BinOfBcd(reg);
  }

  /**
   * The year read from canonical registers lies in the 200 years from the
   * base, in the second hundred exactly when the century bit is set, and
   * its last two digits are the year register again.
   */
  lemma DecodedYear(r: Registers, base: uint16)
    requires IsBcd(r.year) && base % 100 == 0 && base as int + 200 <= 0x1_0000
    ensures var year := Year(r, base);
            && InRange(year, base)
            && (year as int >= base as int + 100 <==> r.month >= 0x80)
            && BinToBcd((year % 100) as uint8) == r.year
  {
    BinOfBcd(r.year);
    CenturyBaseUnwrapped(base);
    var y := BcdToBin(r.year) as int;
    var century := Century(r, base);
    assert Year(r, base) as int == y + century by {
      DivModUnique(y + century, 0x1_0000, 0, y + century);
    }
    DivModUnique(y + century, 100, century / 100, y);
  }

  /** From a base that is a multiple of 100 and leaves room for 200 years, `base + 200` does not wrap. */
  lemma CenturyBaseUnwrapped(base: uint16)
    requires base % 100 == 0 && base as int + 200 <= 0x1_0000
    ensures Plus16(base, 200) == base as int + 200 && Plus16(base, 100) == base as int + 100
  {
    if base as int + 200 == 0x1_0000 {
      DivModUnique(base as int, 100, 653, 36);
      assert false;
    }
  }

  /**
   * The month register without its century bit is a BCD month that is
   * written back the same, and setting the century bit again gives the
   * register back.
   */
  lemma MonthRegister(month: uint8)
    requires IsBcd(month % 0x80) && month % 0x80 < 0x20
    ensures var low := month % 0x20;
            && BinToBcd(BcdToBin(low)) == low
            && (if month >= 0x80 then SetBit7(low) else low) == month
  {
    var low := month % 0x80;
    var q := if month >= 0x80 then 1 else 0;
    assert month as int == q * 0x80 + low as int;
    assert month % 0x20 == low by {
      DivModUnique(month as int, 0x20, q * 4, low as int);
    }
    BinOfBcd(low);
  }

  /**
   * With a base that is not a multiple of 100 the year does not read back:
   * base 2050 turns 2051 into 2101.
   */
  lemma OffCenturyBaseMisreads()
    ensures var dt := DateTime(2051, 1, 1, 0, 0, 0, 0);
            Encode(dt, 2050).Some? && Decode(Encode(dt, 2050).value, 2050).year == 2101
  {
    var dt := DateTime(2051, 1, 1, 0, 0, 0, 0);
    assert BinToBcd(51) == 0x51 && BinToBcd(1) == 1;
    assert BcdToBin(0x51) == 51;
    assert dt.year % 100 == 51;
    var r := Encode(dt, 2050).value;
    assert r.year == 0x51 && r.month == 1;
    assert BcdToBin(r.year) as int + Century(r, 2050) == 2101;
    DivModUnique(2101, 0x1_0000, 0, 2101);
    assert Year(r, 2050) == 2101;
  }
}
