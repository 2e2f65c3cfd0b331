/** Fixed-width machine arithmetic used by the runtime code being modelled: the
    32- and 64-bit unsigned C types with their wrap-around, the reading of a
    32-bit pattern as a signed `jint`, bitwise AND/OR on naturals, powers of
    two and power-of-two alignment (utilities/align.hpp and
    utilities/powerOfTwo.hpp are not part of this model; their definitions are
    restated here in arithmetic form). */
module MachineWords {

  const TwoTo8: int := 0x100
  const TwoTo31: int := 0x8000_0000
  const TwoTo32: int := 0x1_0000_0000
  const TwoTo63: int := 0x8000_0000_0000_0000
  const TwoTo64: int := 0x1_0000_0000_0000_0000

  /** max_uintx, which is also SIZE_MAX: the platform is 64-bit. */
  const MaxUintx: int := 0xFFFF_FFFF_FFFF_FFFF

  /** The values of a 32-bit unsigned C type (`uint`, `juint`). */
  type u32 = x: int | 0 <= x < 0x1_0000_0000

  /** The values of a 64-bit unsigned C type (`size_t`, `uintx`). */
  type u64 = x: int | 0 <= x < 0x1_0000_0000_0000_0000

  /** The values of a 64-bit signed C type (`intx`, `intptr_t`, `jlong`). */
  type i64 = x: int | -0x8000_0000_0000_0000 <= x < 0x8000_0000_0000_0000

  /** Truncation of an integer to 32 bits, as a store into a `uint` does. */
  function Wrap32(x: int): (r: u32)
    ensures 0 <= x < TwoTo32 ==> r == x
    ensures (r - x) % TwoTo32 == 0
  {
    x % TwoTo32
  }

  /** Truncation of an integer to 64 bits, as `size_t` arithmetic does. */
  function Wrap64(x: int): (r: u64)
    ensures 0 <= x < TwoTo64 ==> r == x
    ensures (r - x) % TwoTo64 == 0
  {
    x % TwoTo64
  }

  /** The signed reading of a 32-bit pattern (a `juint` returned as a `jint`). */
  function ToJint(x: u32): (r: int)
    ensures -TwoTo31 <= r < TwoTo31
    ensures Wrap32(r) == x
  {
    if x < TwoTo31 then x else x - TwoTo32
  }

  /** 2^k. */
  function Pow2(k: nat): (r: nat)
    ensures r >= 1
  {
    if k == 0 then 1 else 2 * Pow2(k - 1)
  }

  /** Bitwise AND of two naturals, defined bit by bit from the least significant end. */
  function BitAnd(x: nat, y: nat): nat
  {
    if x == 0 || y == 0 then 0
    else 2 * BitAnd(x / 2, y / 2) + (if x % 2 == 1 && y % 2 == 1 then 1 else 0)
  }

  /** Bitwise OR of two naturals, defined bit by bit from the least significant end. */
  function BitOr(x: nat, y: nat): nat
  {
    if x == 0 then y
    else if y == 0 then x
    else 2 * BitOr(x / 2, y / 2) + (if x % 2 == 1 || y % 2 == 1 then 1 else 0)
  }

  lemma {:induction false} BitAndSelf(x: nat)
    ensures BitAnd(x, x) == x
  {
    if x != 0 {
      BitAndSelf(x / 2);
    }
  }

  /** Quotient and remainder are unique: the facts nonlinear reasoning needs, stated once. */
  lemma DivModUnique(x: int, a: int, q: int, r: int)
    requires a > 0 && 0 <= r < a && x == a * q + r
    ensures x / a == q && x % a == r
  {
    var q0, r0 := x / a, x % a;
    assert x == a * q0 + r0;
    var k := q - q0;
    assert a * q == a * q0 + a * k;
    assert a * k == r0 - r;
  }

  /** Truncating after every addition gives the truncated sum, as a 32-bit
      accumulator does. */
  lemma Wrap32Add(a: int, b: int)
    ensures Wrap32(Wrap32(a) + b) == Wrap32(a + b)
  {
    var ra := a % TwoTo32;
    var r2 := (ra + b) % TwoTo32;
    assert a == TwoTo32 * (a / TwoTo32) + ra;
    assert ra + b == TwoTo32 * ((ra + b) / TwoTo32) + r2;
    DivModUnique(a + b, TwoTo32, a / TwoTo32 + (ra + b) / TwoTo32, r2);
  }

  /** checked_cast<int> of a wider integer: the debug build asserts that the
      value fits a 32-bit int, and the product build keeps its low 32 bits read
      as signed. Either way a value that fits comes back unchanged. */
  function CheckedCastInt(x: int): (r: int)
    ensures -TwoTo31 <= r < TwoTo31
    ensures Wrap32(r) == Wrap32(x)
    ensures -TwoTo31 <= x < TwoTo31 ==> r == x
  {
    if -TwoTo31 <= x < 0 then
      DivModUnique(x, TwoTo32, -1, x + TwoTo32);
      ToJint(Wrap32(x))
    else ToJint(Wrap32(x))
  }

  /** Reading a 32-bit pattern as a jint keeps its low byte: the cast to a
      jboolean of the jint stored in a stack word is that word's low byte. */
  lemma JintLowByte(x: int)
    ensures ToJint(Wrap32(x)) % TwoTo8 == x % TwoTo8
  {
    var w := Wrap32(x);
    var k := x / TwoTo32;
    assert x == TwoTo32 * k + w;
    var j := ToJint(w);
    var d := if w < TwoTo31 then k else k + 1;
    assert x == TwoTo32 * d + j;
    DivModUnique(x, TwoTo8, (TwoTo32 / TwoTo8) * d + j / TwoTo8, j % TwoTo8);
  }

  /** The low bits of x modulo 2p, split into x's lowest bit and the low bits of x / 2 modulo p. */
  lemma LowBitsHalving(x: nat, p: nat)
    requires p >= 1
    ensures (x % (2 * p)) % 2 == x % 2
    ensures (x % (2 * p)) / 2 == (x / 2) % p
  {
    var q, b := x / 2, x % 2;
    var m, t := q / p, q % p;
    assert x == 2 * q + b;
    assert q == p * m + t;
    assert x == (2 * p) * m + (2 * t + b);
    DivModUnique(x, 2 * p, m, 2 * t + b);
    DivModUnique(2 * t + b, 2, t, b);
  }

  /** OR-ing into x a value that already equals x's low n bits leaves x unchanged. */
  lemma {:induction false} BitOrLowBits(x: nat, y: nat, n: nat)
    requires y == x % Pow2(n)
    ensures BitOr(x, y) == x
  {
    if n == 0 {
      assert y == 0;
    } else if x != 0 && y != 0 {
      var p := Pow2(n - 1);
      assert Pow2(n) == 2 * p;
      assert y == x % (2 * p);
      LowBitsHalving(x, p);
      assert y % 2 == x % 2;
      assert y / 2 == (x / 2) % p;
      BitOrLowBits(x / 2, y / 2, n - 1);
      assert BitOr(x / 2, y / 2) == x / 2;
      assert BitOr(x, y) == 2 * BitOr(x / 2, y / 2) + x % 2;
      assert x == 2 * (x / 2) + x % 2;
    } else if x == 0 {
      DivModUnique(0, Pow2(n), 0, 0);
    }
  }

  /** `is_power_of_2(x)`: `x > 0 && (x & (x - 1)) == 0`. */
  predicate IsPowerOf2Bits(x: nat)
  {
    x > 0 && BitAnd(x, x - 1) == 0
  }

  /** The exponent of the highest power of two not above x. */
  function Log2(x: nat): nat
    requires x >= 1
  {
    if x == 1 then 0 else 1 + Log2(x / 2)
  }

  lemma {:induction false} Pow2BitTest(k: nat)
    ensures IsPowerOf2Bits(Pow2(k))
  {
    if k > 0 {
      Pow2BitTest(k - 1);
      var m := Pow2(k - 1);
      assert Pow2(k) == 2 * m;
      assert (2 * m - 1) / 2 == m - 1;
      assert BitAnd(2 * m, 2 * m - 1) == 2 * BitAnd(m, m - 1);
    }
  }

  /** The bit test of `is_power_of_2` accepts exactly the powers of two. */
  lemma {:induction false} PowerOf2BitsIff(x: nat)
    ensures IsPowerOf2Bits(x) <==> x >= 1 && Pow2(Log2(x)) == x
  {
    if x > 1 {
      PowerOf2BitsIff(x / 2);
      if x % 2 == 0 {
        var m := x / 2;
        assert (x - 1) / 2 == m - 1;
        assert BitAnd(x, x - 1) == 2 * BitAnd(m, m - 1);
      } else {
        var m := x / 2;
        assert (x - 1) / 2 == m && (x - 1) % 2 == 0;
        BitAndSelf(m);
        assert BitAnd(x, x - 1) == 2 * m;
        assert Log2(x) >= 1;
        assert Pow2(Log2(x)) == 2 * Pow2(Log2(x) - 1);
      }
    }
  }

  lemma {:induction false} Log2OfPow2(k: nat)
    ensures Log2(Pow2(k)) == k
  {
    if k > 0 {
      Log2OfPow2(k - 1);
      assert Pow2(k) / 2 == Pow2(k - 1);
    }
  }

  /** Every power of two passes the bit test, and the bit test passes only powers of two. */
  lemma PowerOf2BitsExactly(x: nat)
    ensures IsPowerOf2Bits(x) <==> exists k: nat :: Pow2(k) == x
  {
    PowerOf2BitsIff(x);
    if IsPowerOf2Bits(x) {
      assert Pow2(Log2(x)) == x;
    }
    if exists k: nat :: Pow2(k) == x {
      var k: nat :| Pow2(k) == x;
      Pow2BitTest(k);
    }
  }

  /** `align_down(x, a)` for a power-of-two a: `x & ~(a - 1)`, which clears the low bits. */
  function AlignDown(x: nat, a: nat): (r: nat)
    requires a >= 1
    ensures r <= x && r % a == 0 && x - r < a
  {
    var q := x / a;
    assert x == a * q + x % a;
    DivModUnique(x - x % a, a, q, 0);
    x - x % a
  }

  /** `align_up(x, a)` on size_t: `align_down(x + a - 1, a)`, where the sum wraps at 64 bits. */
  function AlignUp64(x: u64, a: u64): (r: u64)
    requires a >= 1
    ensures r % a == 0
  {
    AlignDown(Wrap64(x + a - 1), a)
  }

  /** Without wrap-around, align_up gives the least multiple of a that is not below x. */
  lemma AlignUpExact(x: u64, a: u64)
    requires a >= 1
    requires x + a - 1 < TwoTo64
    ensures x <= AlignUp64(x, a) < x + a
    ensures x % a == 0 ==> AlignUp64(x, a) == x
  {
    var s := x + a - 1;
    assert Wrap64(s) == s;
    var q := x / a;
    assert x == a * q + x % a;
    if x % a == 0 {
      DivModUnique(s, a, q, a - 1);
    } else {
      assert s == a * q + a + (x % a - 1);
      assert a * (q + 1) == a * q + a;
      DivModUnique(s, a, q + 1, x % a - 1);
    }
  }
}
