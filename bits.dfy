/**
 * Bit-level helpers shared by the HermesProxy model: bytes, the unsigned
 * bitwise AND used for power-of-two index masks, and the big-endian and
 * two's-complement conversions of the HPSDR USB frame format.
 */
module Bits {

  /** One byte of an HPSDR frame (`unsigned char` in the source). */
  type Byte = bv8

  /** 2^k. */
  function Pow2(k: nat): (p: nat)
    ensures p >= 1 && IsPow2(p)
  {
    if k == 0 then 1 else 2 * Pow2(k - 1)
  }

  /** c is 1, 2, 4, 8, ... */
  predicate IsPow2(c: nat)
    decreases c
  {
    c == 1 || (c > 1 && c % 2 == 0 && IsPow2(c / 2))
  }

  /** Bitwise AND of two unsigned integers, one bit at a time. */
  function And(a: nat, b: nat): (r: nat)
    ensures r <= b
    decreases a
  {
    if a == 0 || b == 0 then 0
    else 2 * And(a / 2, b / 2) + (if a % 2 == 1 && b % 2 == 1 then 1 else 0)
  }

  lemma MulAtLeast(d: nat, k: int)
    requires k >= 1
    ensures d * k >= d
  {
    var j := k - 1;
    assert d * k == d * j + d;
  }

  lemma ModUnique(x: int, d: nat, m: int, r: int)
    requires 0 <= r < d && x == d * m + r
    ensures x % d == r && x / d == m
  {
    var q, s := x / d, x % d;
    assert x == d * q + s;
    if m > q {
      MulAtLeast(d, m - q);
    } else if m < q {
      MulAtLeast(d, q - m);
    }
  }

  /** Reduction modulo c of a value less than c away from the range [0, c). */
  lemma ModNear(x: int, c: nat)
    requires c >= 1 && 0 <= x + c && x < 2 * c
    ensures x % c == if x < 0 then x + c else if x < c then x else x - c
  {
    if x < 0 {
      ModUnique(x, c, -1, x + c);
    } else if x < c {
      ModUnique(x, c, 0, x);
    } else {
      ModUnique(x, c, 1, x - c);
    }
  }

  lemma ModAdd(a: nat, b: nat, c: nat)
    requires c >= 1
    ensures (a % c + b) % c == (a + b) % c
  {
    var q := a / c;
    assert a == c * q + a % c;
    var x := a % c + b;
    var q2, s := x / c, x % c;
    assert x == c * q2 + s;
    assert a + b == c * (q + q2) + s;
    ModUnique(a + b, c, q + q2, s);
  }

  lemma ModOfHalves(x: nat, h: nat)
    requires h >= 1
    ensures 2 * ((x / 2) % h) + x % 2 == x % (2 * h)
  {
    var q, b := x / 2, x % 2;
    var m, t := q / h, q % h;
    assert q == h * m + t;
    assert x == 2 * q + b;
    assert x == (2 * h) * m + (2 * t + b);
    ModUnique(x, 2 * h, m, 2 * t + b);
  }

  /** For a power-of-two capacity c, masking with c - 1 is reduction modulo c:
      this is what `++i &= (N - 1)` relies on in the ring buffers. */
  lemma {:induction false} MaskIsMod(x: nat, c: nat)
    requires IsPow2(c)
    ensures And(x, c - 1) == x % c
    decreases c
  {
    if c == 1 {
      assert And(x, 0) == 0;
    } else {
      var h := c / 2;
      assert c == 2 * h;
      MaskIsMod(x / 2, h);
      assert (c - 1) / 2 == h - 1 && (c - 1) % 2 == 1;
      if x == 0 {
        assert And(x, c - 1) == 0;
      } else {
        assert And(x, c - 1) == 2 * And(x / 2, h - 1) + x % 2;
      }
      ModOfHalves(x, h);
    }
  }

  lemma ByteOf(x: int)
    requires 0 <= x < 256
    ensures (x as bv8) as int == x
  {
    assert x % 256 == x;
  }

  lemma ToByte(x: int, b: Byte)
    requires x == b as int
    ensures x as bv8 == b
  {
  }

  /** `(unsigned char)x` for an int: the low eight bits, two's complement. */
  function LowByte(x: int): (b: Byte)
    ensures b as int == x % 256
  {
    ByteOf(x % 256);
    (x % 256) as bv8
  }

  /** `(unsigned)x` for an int: x modulo 2^32. */
  function Unsigned32(x: int): bv32
  {
    (x % 0x1_0000_0000) as bv32
  }

  /** `(signed char)b` */
  function SignedChar(b: Byte): (v: int)
    ensures -128 <= v < 128
    ensures v % 256 == b as int
  {
    var u := b as int;
    ModNear(u - 256, 256);
    if u < 128 then u else u - 256
  }

  /** The four bytes of a 32-bit word, most significant first. */
  function BE32Bytes(w: bv32): (s: seq<Byte>)
    ensures |s| == 4
  {
    [((w >> 24) & 0xff) as bv8, ((w >> 16) & 0xff) as bv8,
     ((w >> 8) & 0xff) as bv8, (w & 0xff) as bv8]
  }

  /** The 32-bit word whose big-endian bytes are b0 b1 b2 b3. */
  function BE32(b0: Byte, b1: Byte, b2: Byte, b3: Byte): bv32
  {
    (b0 as bv32 << 24) | (b1 as bv32 << 16) | (b2 as bv32 << 8) | b3 as bv32
  }

  /** The unsigned value of the big-endian bytes b0 b1 b2 b3. */
  function BE32Value(b0: Byte, b1: Byte, b2: Byte, b3: Byte): nat
  {
    b0 as nat * 16777216 + b1 as nat * 65536 + b2 as nat * 256 + b3 as nat
  }

  lemma BE32RoundTrip(w: bv32)
    ensures var s := BE32Bytes(w); BE32(s[0], s[1], s[2], s[3]) == w
  {
  }

  /** The low sixteen bits of x, sent as two bytes, most significant first:
      `(x & 0xff00) >> 8` and `x & 0xff` of `(unsigned int)x`. */
  function Hi16(x: int): Byte { ((x % 65536) / 256) as bv8 }
  function Lo16(x: int): Byte { (x % 256) as bv8 }

  /** The two's-complement value of a big-endian 16-bit pair. */
  function Signed16(hi: Byte, lo: Byte): (v: int)
    ensures -32768 <= v < 32768
  {
    SignedChar(hi) * 256 + lo as int
  }

  /** x reduced to the signed 16-bit range, as a 16-bit register keeps it. */
  function Wrap16(x: int): (v: int)
    ensures -32768 <= v < 32768
    ensures (v - x) % 65536 == 0
  {
    (x + 32768) % 65536 - 32768
  }
}
