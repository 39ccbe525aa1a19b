/**
 * Fixed-width integers as the AVR target lays them out in memory: bytes and
 * the little-endian byte order of `uint16_t` and `uint32_t` fields inside the
 * packed structures that are copied to and from the FRAM.
 */
module Bytes {

  /** A byte of the medium or of a packed structure. */
  newtype uint8 = x: int | 0 <= x < 0x100

  /** A `uint16_t` field. */
  newtype uint16 = x: int | 0 <= x < 0x1_0000

  /** A `uint32_t` value. */
  newtype uint32 = x: int | 0 <= x < 0x1_0000_0000

  /** The two bytes of a `uint16_t` in memory order (low byte first). */
  function Le16(v: nat): (r: seq<uint8>)
    requires v < 0x1_0000
    ensures |r| == 2
    ensures r[0] as int + 0x100 * r[1] as int == v
  {
    [(v % 0x100) as uint8, (v / 0x100) as uint8]
  }

  /** The `uint16_t` value held by two bytes in memory order. */
  function FromLe16(b: seq<uint8>): (v: nat)
    requires |b| == 2
    ensures v < 0x1_0000
  {
    b[0] as nat + 0x100 * b[1] as nat
  }

  /** The four bytes of a `uint32_t` in memory order (low byte first). */
  function Le32(v: nat): (r: seq<uint8>)
    requires v < 0x1_0000_0000
    ensures |r| == 4
  {
    [(v % 0x100) as uint8, (v / 0x100 % 0x100) as uint8,
     (v / 0x1_0000 % 0x100) as uint8, (v / 0x100_0000) as uint8]
  }

  /** The `uint32_t` value held by four bytes in memory order. */
  function FromLe32(b: seq<uint8>): (v: nat)
    requires |b| == 4
    ensures v < 0x1_0000_0000
  {
    b[0] as nat + 0x100 * b[1] as nat + 0x1_0000 * b[2] as nat + 0x100_0000 * b[3] as nat
  }

  lemma Le16RoundTrip(v: nat)
    requires v < 0x1_0000
    ensures FromLe16(Le16(v)) == v
  {
  }

  lemma FromLe16RoundTrip(b: seq<uint8>)
    requires |b| == 2
    ensures Le16(FromLe16(b)) == b
  {
  }

  lemma Le32RoundTrip(v: nat)
    requires v < 0x1_0000_0000
    ensures FromLe32(Le32(v)) == v
  {
    var b0, r1 := v % 0x100, v / 0x100;
    var b1, r2 := r1 % 0x100, r1 / 0x100;
    var b2, b3 := r2 % 0x100, r2 / 0x100;
    assert v == b0 + 0x100 * (b1 + 0x100 * (b2 + 0x100 * b3));
    DivModUnique(v, 0x1_0000, r2, b0 + 0x100 * b1);
    DivModUnique(v, 0x100_0000, b3, b0 + 0x100 * b1 + 0x1_0000 * b2);
    assert Le32(v) == [b0 as uint8, b1 as uint8, b2 as uint8, b3 as uint8];
  }

  lemma FromLe32RoundTrip(b: seq<uint8>)
    requires |b| == 4
    ensures Le32(FromLe32(b)) == b
  {
    var b0, b1, b2, b3 := b[0] as int, b[1] as int, b[2] as int, b[3] as int;
    var hi := b1 + 0x100 * (b2 + 0x100 * b3);
    assert FromLe32(b) == b0 + 0x100 * hi;
    DivModByte(FromLe32(b), hi, b0);
    DivModByte(hi, b2 + 0x100 * b3, b1);
    assert FromLe32(b) / 0x1_0000 == (b2 + 0x100 * b3) by {
      assert FromLe32(b) / 0x1_0000 == FromLe32(b) / 0x100 / 0x100;
    }
    DivModByte(b2 + 0x100 * b3, b3, b2);
    assert FromLe32(b) / 0x100_0000 == b3 by {
      assert FromLe32(b) / 0x100_0000 == FromLe32(b) / 0x1_0000 / 0x100;
    }
  }

  /** Division by 256 undoes `q * 256 + r` for a byte `r`. */
  lemma DivModByte(a: int, q: int, r: int)
    requires a == r + 0x100 * q && 0 <= r < 0x100
    ensures a / 0x100 == q && a % 0x100 == r
  {
  }

  /** `n` zero bytes. */
  function Zeros(n: nat): (r: seq<uint8>)
    ensures |r| == n && forall k :: 0 <= k < n ==> r[k] == 0
  {
    seq(n, _ => 0)
  }

  /** Truncation to `uint32_t`: arithmetic modulo 2^32, as unsigned C arithmetic wraps. */
  function Wrap32(x: int): (r: uint32)
    ensures r as int == x % 0x1_0000_0000
  {
    (x % 0x1_0000_0000) as uint32
  }

  /** Reducing an operand first does not change a sum modulo `n`. */
  lemma ModAddLeft(a: int, b: int, n: int)
    requires 0 < n
    ensures (a % n + b) % n == (a + b) % n
  {
    var q := a / n;
    assert a == q * n + a % n;
    ModShift(a % n + b, q, n);
  }

  /** Reducing a factor first does not change a product modulo `n`. */
  lemma ModMulLeft(a: int, c: int, n: int)
    requires 0 < n
    ensures (a % n * c) % n == (a * c) % n
  {
    var q := a / n;
    assert a == q * n + a % n;
    assert a * c == (a % n) * c + (q * c) * n by {
      assert a * c == (q * n + a % n) * c;
    }
    ModShift((a % n) * c, q * c, n);
  }

  /** Adding a multiple of `n` does not change a remainder modulo `n`. */
  lemma ModShift(a: int, k: int, n: int)
    requires 0 < n
    ensures (a + k * n) % n == a % n
  {
    var q, r := a / n, a % n;
    assert a == q * n + r && 0 <= r < n;
    assert a + k * n == (q + k) * n + r;
    DivModUnique(a + k * n, n, q + k, r);
  }

  /** Quotient and remainder are unique. */
  lemma DivModUnique(a: int, n: int, q: int, r: int)
    requires 0 < n && a == q * n + r && 0 <= r < n
    ensures a / n == q && a % n == r
  {
    var q', r' := a / n, a % n;
    assert a == q' * n + r' && 0 <= r' < n;
    if q' < q {
      assert (q - q') * n == r' - r;
      MulAtLeast(q - q', n);
    } else if q < q' {
      assert (q' - q) * n == r - r';
      MulAtLeast(q' - q, n);
    }
  }

  lemma MulAtLeast(a: int, n: int)
    requires 1 <= a && 0 < n
    ensures a * n >= n
  {
  }
}
