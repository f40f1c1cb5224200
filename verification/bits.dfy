/**
 * Fixed-width integers and the Go operators the loader applies to them.
 *
 * Dafny integers are unbounded, so every Go width, every truncating
 * conversion and every bitwise operator the loader relies on is written
 * out here explicitly.
 */
module Bits {

  type u8 = x: int | 0 <= x < 0x100
  type u16 = x: int | 0 <= x < 0x1_0000
  type u32 = x: int | 0 <= x < 0x1_0000_0000
  type u64 = x: int | 0 <= x < 0x1_0000_0000_0000_0000
  type i16 = x: int | -0x8000 <= x < 0x8000
  type i32 = x: int | -0x8000_0000 <= x < 0x8000_0000
  type i64 = x: int | -0x8000_0000_0000_0000 <= x < 0x8000_0000_0000_0000

  // ---------------------------------------------------------------------
  // Go's integer conversions: keep the low bits, reinterpret the top bit.
  // ---------------------------------------------------------------------

  /** Go's `int16(u)`: the unique i16 congruent to x modulo 2^16. */
  function ToInt16(x: int): (r: i16)
    ensures (x - r) % 0x1_0000 == 0
  {
    var m := x % 0x1_0000;
    if m < 0x8000 then m else m - 0x1_0000
  }

  /** Go's `uint16(v)`: the unique u16 congruent to x modulo 2^16. */
  function ToUint16(x: int): (r: u16)
    ensures (x - r) % 0x1_0000 == 0
  {
    x % 0x1_0000
  }

  /** Go's `int32(v)`: the unique i32 congruent to x modulo 2^32. */
  function ToInt32(x: int): (r: i32)
    ensures (x - r) % 0x1_0000_0000 == 0
  {
    var m := x % 0x1_0000_0000;
    if m < 0x8000_0000 then m else m - 0x1_0000_0000
  }

  /** Go's `uint32(v)`: the unique u32 congruent to x modulo 2^32. */
  function ToUint32(x: int): (r: u32)
    ensures (x - r) % 0x1_0000_0000 == 0
  {
    x % 0x1_0000_0000
  }

  /** Go's `int(u)` / `int64(u)` on a 64-bit platform: the unique i64 congruent to x modulo 2^64. */
  function ToInt64(x: int): (r: i64)
    ensures (x - r) % 0x1_0000_0000_0000_0000 == 0
  {
    var m := x % 0x1_0000_0000_0000_0000;
    if m < 0x8000_0000_0000_0000 then m else m - 0x1_0000_0000_0000_0000
  }

  /** A signed 16-bit value survives reinterpretation as unsigned and back. */
  lemma Int16RoundTrip(s: i16)
    ensures ToInt16(ToUint16(s)) == s
  {
  }

  /** An unsigned 16-bit pattern survives reinterpretation as signed and back. */
  lemma Uint16RoundTrip(u: u16)
    ensures ToUint16(ToInt16(u)) == u
  {
  }

  /** A signed 32-bit value survives reinterpretation as unsigned and back. */
  lemma Int32RoundTrip(s: i32)
    ensures ToInt32(ToUint32(s)) == s
  {
  }

  /** An unsigned 32-bit pattern survives reinterpretation as signed and back. */
  lemma Uint32RoundTrip(u: u32)
    ensures ToUint32(ToInt32(u)) == u
  {
  }

  // ---------------------------------------------------------------------
  // Bitwise operators on unsigned values.
  // ---------------------------------------------------------------------

  function Pow2(k: nat): (r: nat)
    ensures r > 0
  {
    if k == 0 then 1 else 2 * Pow2(k - 1)
  }

  /** Go's `a & b`, bit by bit from the least significant bit. */
  function BitAnd(a: nat, b: nat): nat
  {
    if a == 0 || b == 0 then 0
    else 2 * BitAnd(a / 2, b / 2) + (if a % 2 == 1 && b % 2 == 1 then 1 else 0)
  }

  /** Go's `a | b`, bit by bit from the least significant bit. */
  function BitOr(a: nat, b: nat): nat
  {
    if a == 0 then b
    else if b == 0 then a
    else 2 * BitOr(a / 2, b / 2) + (if a % 2 == 1 || b % 2 == 1 then 1 else 0)
  }

  /** Go's `x << k` on a uint8: bits shifted past bit 7 are lost. */
  function ShiftLeftU8(x: u8, k: nat): u8
  {
    (x * Pow2(k)) % 0x100
  }

  // ---------------------------------------------------------------------
  // Facts about the operators.
  // ---------------------------------------------------------------------

  /** Masking with 2^k - 1 keeps exactly the low k bits. */
  lemma {:induction false} AndLowMask(x: nat, k: nat)
    ensures BitAnd(x, Pow2(k) - 1) == x % Pow2(k)
  {
    if k > 0 && x > 0 {
      var p := Pow2(k - 1);
      var mask := Pow2(k) - 1;
      DivMod(mask, 2, p - 1, 1);
      assert BitAnd(x, mask) == 2 * BitAnd(x / 2, p - 1) + x % 2;
      AndLowMask(x / 2, k - 1);
      ModDouble(x, p);
      assert x % Pow2(k) == x % (2 * p);
    } else if k == 0 {
      DivMod(x, 1, x, 0);
    } else {
      DivMod(0, Pow2(k), 0, 0);
    }
  }

  /** Or-ing a value into bits that are zero is addition. */
  lemma {:induction false} OrDisjoint(a: nat, b: nat, k: nat)
    requires b < Pow2(k)
    ensures BitOr(a * Pow2(k), b) == a * Pow2(k) + b
  {
    if k > 0 && a > 0 && b > 0 {
      var p := Pow2(k - 1);
      var x := a * p;
      assert a * Pow2(k) == 2 * x && x > 0 by {
        MulMono(a, 1, p);
      }
      DivMod(2 * x, 2, x, 0);
      assert b / 2 < p;
      OrDisjoint(a, b / 2, k - 1);
      assert BitOr(2 * x, b) == 2 * BitOr(x, b / 2) + b % 2;
    }
  }

  /** Shifting a byte left by four keeps only its low nibble, moved to the high nibble. */
  lemma ShiftLeftNibble(x: u8)
    ensures ShiftLeftU8(x, 4) == (x % 16) * 16
  {
    assert Pow2(4) == 16;
    assert x * 16 == 0x100 * (x / 16) + (x % 16) * 16;
    DivMod(x * 16, 0x100, x / 16, (x % 16) * 16);
  }

  /** x modulo 2m splits into its lowest bit and (x / 2) modulo m. */
  lemma ModDouble(x: nat, m: nat)
    requires m > 0
    ensures x % (2 * m) == 2 * ((x / 2) % m) + x % 2
  {
    var q, r := x / 2, x % 2;
    var qq, rr := q / m, q % m;
    assert q == m * qq + rr;
    assert x == (2 * m) * qq + (2 * rr + r);
    DivMod(x, 2 * m, qq, 2 * rr + r);
  }

  /** Quotient and remainder are the unique q, t with x == d * q + t and 0 <= t < d. */
  lemma DivMod(x: int, d: int, q: int, t: int)
    requires d > 0 && x == d * q + t && 0 <= t < d
    ensures x / d == q && x % d == t
  {
    var q0, t0 := x / d, x % d;
    assert x == d * q0 + t0;
    if q0 > q {
      MulMono(d, q + 1, q0);
      assert false;
    }
    if q0 < q {
      MulMono(d, q0 + 1, q);
      assert false;
    }
  }

  lemma MulMono(d: int, a: int, b: int)
    requires d >= 0 && a <= b
    ensures d * a <= d * b
  {
  }

  /** A length made of whole records of width `w` holds `len / w` of them, one more than without the first. */
  lemma RecordCount(len: nat, w: nat)
    requires w > 0 && len % w == 0 && len > 0
    ensures w * (len / w) == len && len >= w
    ensures (len - w) % w == 0 && (len - w) / w == len / w - 1
  {
    var q := len / w;
    assert len == w * q;
    if q == 0 { assert false; }
    MulMono(w, 1, q);
    assert len - w == w * (q - 1);
    DivMod(len - w, w, q - 1, 0);
  }

  /** `len / w` whole records of width `w` fit in `len` bytes. */
  lemma WholeRecords(len: nat, w: nat)
    requires w > 0
    ensures w * (len / w) <= len
  {
    assert len == w * (len / w) + len % w;
  }
}
