/** Go's fixed-width integers and the bit operations the codec uses on them.

    A uint64 is a number below 2^64; `&`, `|` and `<<` are defined bit by bit, with Go's truncation.
    A signed integer is the number itself, converted through its two's complement pattern.
 */
module Bits {

  const TWO31 := 0x8000_0000
  const TWO32 := 0x1_0000_0000
  const TWO63 := 0x8000_0000_0000_0000
  const TWO64 := 0x1_0000_0000_0000_0000

  type byte = b: nat | b < 0x100
  type uint64 = v: nat | v < 0x1_0000_0000_0000_0000
  type int32 = r: int | -0x8000_0000 <= r < 0x8000_0000

  function And(x: nat, y: nat): nat {
    if x == 0 || y == 0 then 0
    else 2 * And(x / 2, y / 2) + (if x % 2 == 1 && y % 2 == 1 then 1 else 0)
  }

  function Or(x: nat, y: nat): nat {
    if x == 0 then y else if y == 0 then x
    else 2 * Or(x / 2, y / 2) + (if x % 2 == 1 || y % 2 == 1 then 1 else 0)
  }

  function Pow2(n: nat): (p: nat)
    ensures p >= 1
  {
    if n == 0 then 1 else 2 * Pow2(n - 1)
  }

  /** `x << n` without a width. */
  function Shl(x: nat, n: nat): nat {
    if n == 0 then x else 2 * Shl(x, n - 1)
  }

  /** `x >> n` */
  function Shr(x: nat, n: nat): nat {
    if n == 0 then x else Shr(x / 2, n - 1)
  }

  /** The low 64 bits. */
  function Mod64(v: nat): uint64 {
    v % TWO64
  }

  /** `x << n` on a uint64: bits past the top are lost. */
  function Shl64(x: nat, n: nat): uint64 {
    Mod64(Shl(x, n))
  }

  /** `x << n` on the pattern of an int32. */
  function Shl32(x: nat, n: nat): (r: nat)
    ensures r < TWO32
  {
    Shl(x, n) % TWO32
  }

  /** int32(v): the low half of v, read as two's complement. */
  function Int32(v: nat): int32 {
    var u := v % TWO32;
    if u < TWO31 then u else u - TWO32
  }

  /** The 32-bit pattern of an int32. */
  function Pattern32(r: int32): (u: nat)
    ensures u < TWO32
  {
    if r < 0 then r + TWO32 else r
  }

  /** uint64(r) of an int32: sign extension. */
  function SignExtend(r: int32): uint64 {
    if r < 0 then r + TWO64 else r
  }

  /** The seven bits of b that count, shifted to their place. */
  function ShlGroup(b: byte, n: nat): nat {
    Shl(b % 0x80, n)
  }

  lemma Int32OfSignExtend(r: int32)
    ensures Int32(SignExtend(r)) == r && Int32(Pattern32(r)) == r
    ensures SignExtend(r) == 0 <==> r == 0
  {}

  lemma PatternOfInt32(v: nat)
    ensures Pattern32(Int32(v)) == v % TWO32
  {}

  // ---------- Bit by bit ----------

  /** Bit i of a number. */
  function Bit(x: nat, i: nat): bool {
    if i == 0 then x % 2 == 1 else Bit(x / 2, i - 1)
  }

  lemma {:induction false} ZeroBits(i: nat)
    ensures !Bit(0, i)
  {
    if i > 0 {
      ZeroBits(i - 1);
    }
  }

  lemma {:induction false} AndBits(x: nat, y: nat, i: nat)
    ensures Bit(And(x, y), i) <==> Bit(x, i) && Bit(y, i)
    decreases i
  {
    if x == 0 || y == 0 {
      ZeroBits(i);
    } else if i > 0 {
      AndBits(x / 2, y / 2, i - 1);
    }
  }

  lemma {:induction false} OrBits(x: nat, y: nat, i: nat)
    ensures Bit(Or(x, y), i) <==> Bit(x, i) || Bit(y, i)
    decreases i
  {
    if x == 0 || y == 0 {
      ZeroBits(i);
    } else if i > 0 {
      OrBits(x / 2, y / 2, i - 1);
    }
  }

  lemma {:induction false} ShlBits(x: nat, n: nat, i: nat)
    ensures Bit(Shl(x, n), i) <==> i >= n && Bit(x, i - n)
    decreases n
  {
    if n > 0 && i > 0 {
      ShlBits(x, n - 1, i - 1);
    }
  }

  lemma {:induction false} ShrBits(x: nat, n: nat, i: nat)
    ensures Bit(Shr(x, n), i) <==> Bit(x, i + n)
    decreases n
  {
    if n > 0 {
      ShrBits(x / 2, n - 1, i);
    }
  }

  // ---------- What the masks and merges of the codec compute ----------

  /** A mask of n ones keeps the low n bits. */
  lemma {:induction false} AndMask(x: nat, n: nat)
    ensures And(x, Pow2(n) - 1) == x % Pow2(n)
  {
    if n > 0 {
      var p := Pow2(n - 1);
      AndMask(x / 2, n - 1);
      ModDouble(x, p);
      assert (2 * p - 1) / 2 == p - 1 && (2 * p - 1) % 2 == 1;
      if x == 0 || p == 1 {
        assert And(0, p - 1) == 0;
      }
    }
  }

  lemma ModDouble(x: nat, p: nat)
    requires p >= 1
    ensures x % (2 * p) == 2 * (x / 2 % p) + x % 2
  {
    var q, r := x / 2 / p, x / 2 % p;
    assert x == q * (2 * p) + (2 * r + x % 2) by {
      assert x / 2 == q * p + r && x == 2 * (x / 2) + x % 2;
      MulTwo(q, p);
    }
    DivModUnique(x, 2 * p, q, 2 * r + x % 2);
  }

  lemma MulTwo(b: nat, p: nat)
    ensures b * (2 * p) == 2 * (b * p)
  {}

  lemma DivModUnique(x: nat, d: nat, q: nat, r: nat)
    requires d >= 1 && r < d && x == q * d + r
    ensures x % d == r
  {
    var q', r' := x / d, x % d;
    assert x == q' * d + r';
    Distribute(q, q', d);
    if q > q' {
      MulAtLeast(q - q', d);
    } else if q < q' {
      MulAtLeast(q' - q, d);
      Distribute(q', q, d);
    }
  }

  lemma Distribute(a: int, b: int, d: int)
    ensures (a - b) * d == a * d - b * d
  {}

  lemma MulAtLeast(a: nat, d: nat)
    requires a >= 1
    ensures a * d >= d
  {}

  /** Bits that do not overlap are merged by addition. */
  lemma {:induction false} OrDisjoint(a: nat, b: nat, n: nat)
    requires a < Pow2(n)
    ensures Or(a, Shl(b, n)) == a + Shl(b, n)
  {
    if n > 0 {
      OrDisjoint(a / 2, b, n - 1);
    }
  }

  lemma {:induction false} PowMonotone(m: nat, n: nat)
    requires m <= n
    ensures Pow2(m) <= Pow2(n)
  {
    if m < n {
      PowMonotone(m, n - 1);
    }
  }

  lemma PowSeven(n: nat)
    ensures Pow2(n + 7) == 0x80 * Pow2(n)
  {
    assert Pow2(n + 2) == 4 * Pow2(n) by { assert Pow2(n + 1) == 2 * Pow2(n); }
    assert Pow2(n + 4) == 4 * Pow2(n + 2) by { assert Pow2(n + 3) == 2 * Pow2(n + 2); }
    assert Pow2(n + 6) == 4 * Pow2(n + 4) by { assert Pow2(n + 5) == 2 * Pow2(n + 4); }
  }

  /** The powers that the widths need, in steps from a variable start, so that no power is computed by unfolding. */
  lemma PowersLow(z: nat)
    requires z == 0
    ensures Pow2(z + 21) == 0x20_0000 && Pow2(z + 28) == 0x1000_0000 && Pow2(z + 32) == TWO32
  {
    PowSeven(z);
    PowSeven(z + 7);
    PowSeven(z + 14);
    PowSeven(z + 21);
    PowSteps(z + 28);
  }

  lemma PowersHigh(z: nat)
    requires z == 0
    ensures Pow2(z + 63) == TWO63 && Pow2(z + 64) == TWO64
  {
    PowersLow(z);
    PowSeven(z + 28);
    PowSeven(z + 35);
    PowSeven(z + 42);
    PowSeven(z + 49);
    PowSeven(z + 56);
    assert Pow2(z + 64) == 2 * Pow2(z + 63);
  }

  lemma PowSteps(n: nat)
    ensures Pow2(n + 4) == 16 * Pow2(n)
  {
    assert Pow2(n + 2) == 4 * Pow2(n) by { assert Pow2(n + 1) == 2 * Pow2(n); }
    assert Pow2(n + 3) == 2 * Pow2(n + 2) && Pow2(n + 4) == 2 * Pow2(n + 3);
  }

  lemma ShlSeven(x: nat, n: nat)
    ensures Shl(x, n + 7) == 0x80 * Shl(x, n)
  {
    assert Shl(x, n + 2) == 4 * Shl(x, n) by { assert Shl(x, n + 1) == 2 * Shl(x, n); }
    assert Shl(x, n + 4) == 4 * Shl(x, n + 2) by { assert Shl(x, n + 3) == 2 * Shl(x, n + 2); }
    assert Shl(x, n + 6) == 4 * Shl(x, n + 4) by { assert Shl(x, n + 5) == 2 * Shl(x, n + 4); }
  }

  /** A group of seven bits at shift n stays below 2^(n+7). */
  lemma {:induction false} ShlBound(x: nat, n: nat)
    requires x < 0x80
    ensures Shl(x, n) <= 0x7F * Pow2(n)
  {
    if n > 0 {
      ShlBound(x, n - 1);
    }
  }

  lemma {:induction false} ShlSum(x: nat, y: nat, n: nat)
    ensures Shl(x + y, n) == Shl(x, n) + Shl(y, n)
  {
    if n > 0 {
      ShlSum(x, y, n - 1);
    }
  }

  lemma {:induction false} ShlOne(n: nat)
    ensures Shl(1, n) == Pow2(n) && Shl(0, n) == 0
  {
    if n > 0 {
      ShlOne(n - 1);
    }
  }

  /** Whatever is shifted by the full width is lost. */
  lemma {:induction false} ShlWidth(x: nat, n: nat, width: nat)
    requires width == TWO32 || width == TWO64
    requires Pow2(n) == width
    ensures Shl(x, n) % width == 0
  {
    ShlOne(n);
    if x > 0 {
      ShlWidth(x - 1, n, width);
      ShlSum(x - 1, 1, n);
    }
  }

  /** Shifting in two parts, the low one of one or four bits. */
  lemma ShlParts(high: nat, low: nat, n: nat, j: nat)
    requires j == 1 || j == 4
    ensures Shl((if j == 1 then 2 * high else 16 * high) + low, n) == Shl(high, n + j) + Shl(low, n)
  {
    ShlBack(high, j);
    ShlSum(Shl(high, j), low, n);
    ShlDown(high, n, j);
  }

  lemma ShlBack(high: nat, j: nat)
    requires j == 1 || j == 4
    ensures Shl(high, j) == if j == 1 then 2 * high else 16 * high
  {
    assert Shl(high, 1) == 2 * Shl(high, 0);
    assert Shl(high, 2) == 2 * Shl(high, 1);
    assert Shl(high, 3) == 2 * Shl(high, 2);
    assert Shl(high, 4) == 2 * Shl(high, 3);
  }

  lemma ModDrop(a: nat, b: nat, width: nat)
    requires (width == TWO32 || width == TWO64) && a % width == 0 && b < width
    ensures (a + b) % width == b
  {}

  /** Shifting by all but one bit of the width keeps the lowest bit... */
  lemma ShlTopOne(x: nat, n: nat, width: nat)
    requires (width == TWO32 || width == TWO64) && Pow2(n + 1) == width
    ensures Shl(x, n) % width == Shl(x % 2, n)
  {
    ShlParts(x / 2, x % 2, n, 1);
    ShlWidth(x / 2, n + 1, width);
    LowBits(x % 2, n, 1, width);
    ModDrop(Shl(x / 2, n + 1), Shl(x % 2, n), width);
  }

  /** ...and shifting by all but four keeps the lowest four. */
  lemma ShlTopFour(x: nat, n: nat, width: nat)
    requires (width == TWO32 || width == TWO64) && Pow2(n + 4) == width
    ensures Shl(x, n) % width == Shl(x % 16, n)
  {
    ShlParts(x / 16, x % 16, n, 4);
    ShlWidth(x / 16, n + 4, width);
    LowBits(x % 16, n, 4, width);
    ModDrop(Shl(x / 16, n + 4), Shl(x % 16, n), width);
  }

  lemma {:induction false} ShlDown(x: nat, n: nat, j: nat)
    ensures Shl(Shl(x, j), n) == Shl(x, n + j)
  {
    if n > 0 {
      ShlDown(x, n - 1, j);
    }
  }

  lemma {:induction false} LowBits(low: nat, n: nat, j: nat, width: nat)
    requires (j == 1 && Pow2(n + 1) == width && low < 2) || (j == 4 && Pow2(n + 4) == width && low < 16)
    ensures Shl(low, n) < width
  {
    if j == 4 {
      assert Pow2(n + 2) == 2 * Pow2(n + 1) && Pow2(n + 3) == 2 * Pow2(n + 2);
    }
    ShlLinear(low, n);
  }

  lemma {:induction false} ShlLinear(low: nat, n: nat)
    requires low < 16
    ensures low < 2 ==> Shl(low, n) <= Pow2(n)
    ensures Shl(low, n) <= 15 * Pow2(n)
  {
    if n > 0 {
      ShlLinear(low, n - 1);
    }
  }

  lemma ShiftBounds(n: nat)
    ensures n <= 56 ==> 0x80 * Pow2(n) <= TWO63
    ensures n == 63 ==> Pow2(n + 1) == TWO64
  {
    PowersHigh(0);
    PowSeven(n);
    if n <= 56 {
      PowMonotone(n + 7, 63);
    }
  }

  lemma ShiftBounds32(n: nat)
    ensures n <= 21 ==> 0x80 * Pow2(n) <= 0x1000_0000
    ensures n == 28 ==> Pow2(n + 4) == TWO32
  {
    PowersLow(0);
    PowSeven(n);
    if n <= 21 {
      PowMonotone(n + 7, 28);
    }
  }

  lemma HighShift(x: nat, n: nat)
    requires n >= 32
    ensures Shl(x, n) % TWO32 == 0
  {
    var k := n - (n - 32);
    ShlDown(x, k, n - 32);
    PowersLow(0);
    ShlWidth(Shl(x, n - 32), k, TWO32);
  }

  // ---------- The expressions of the source ----------

  /** `uint64(b) & 0x7F` keeps seven bits; `v & 0x7F | 0x80` adds the continuation bit. */
  lemma GroupBits(v: nat)
    ensures And(v, 0x7F) == v % 0x80
    ensures Or(And(v, 0x7F), 0x80) == v % 0x80 + 0x80
  {
    assert Pow2(3) == 8 && Pow2(5) == 32 && Pow2(7) == 0x80;
    assert Shl(1, 3) == 8 && Shl(1, 5) == 32 && Shl(1, 7) == 0x80;
    AndMask(v, 7);
    OrDisjoint(v % 0x80, 1, 7);
  }

  lemma ModSmall(y: nat, m: nat)
    requires y < m
    ensures y % m == y
  {}

  /** A group that fits below the width is merged unchanged. */
  lemma MergeLow(acc: nat, x: nat, n: nat, width: nat)
    requires x < 0x80 && acc < Pow2(n) && 0x80 * Pow2(n) <= width
    ensures Or(acc, Shl(x, n) % width) == (acc + Shl(x, n)) % width
  {
    ShlBound(x, n);
    OrDisjoint(acc, x, n);
    ModSmall(Shl(x, n), width);
    ModSmall(acc + Shl(x, n), width);
  }

  /** A group that straddles the width keeps only its low bits. */
  lemma MergeTop(acc: nat, x: nat, low: nat, n: nat, j: nat, width: nat)
    requires width == TWO32 || width == TWO64
    requires (j == 1 && Pow2(n + 1) == width && low < 2) || (j == 4 && Pow2(n + 4) == width && low < 16)
    requires acc < Pow2(n) && Shl(x, n) % width == Shl(low, n)
    ensures Or(acc, Shl(x, n) % width) == (acc + Shl(x, n)) % width
  {
    OrDisjoint(acc, low, n);
    ModSum(acc, Shl(x, n), width);
    TopFits(acc, low, n, j, width);
    ModSmall(acc + Shl(low, n), width);
  }

  lemma TopFits(acc: nat, low: nat, n: nat, j: nat, width: nat)
    requires (j == 1 && Pow2(n + 1) == width && low < 2) || (j == 4 && Pow2(n + 4) == width && low < 16)
    requires acc < Pow2(n)
    ensures acc + Shl(low, n) < width
  {
    if j == 4 {
      assert Pow2(n + 2) == 2 * Pow2(n + 1) && Pow2(n + 3) == 2 * Pow2(n + 2);
    }
    ShlLinear(low, n);
  }

  lemma ModSum(a: nat, b: nat, m: nat)
    requires m == TWO32 || m == TWO64
    ensures (a + b) % m == (a + b % m) % m
  {}

  /** A group shifted past the width adds nothing. */
  lemma MergeLost(acc: nat, x: nat, n: nat)
    requires acc < TWO32 && n >= 32
    ensures Or(acc, Shl(x, n) % TWO32) == (acc + Shl(x, n)) % TWO32
  {
    HighShift(x, n);
    ModSum(acc, Shl(x, n), TWO32);
    ModSmall(acc, TWO32);
  }

  /** `acc |= (uint64(b) & 0x7F) << shift` adds the group, whenever the accumulator holds only bits below the shift,
      for every shift the loops reach; at 63 the upper six bits of the group are lost. */
  lemma MergeIsOr(acc: nat, b: byte, shift: nat)
    requires (shift <= 56 || shift == 63) && acc < TWO64 && acc < Pow2(shift)
    ensures Or(acc, Shl64(And(b, 0x7F), shift)) == Mod64(acc + ShlGroup(b, shift))
  {
    hide And, Or, Shl, Pow2;
    GroupBits(b);
    MergeAny64(acc, b % 0x80, shift);
  }

  lemma MergeAny64(acc: nat, x: nat, shift: nat)
    requires x < 0x80 && (shift <= 56 || shift == 63) && acc < Pow2(shift)
    ensures Or(acc, Shl(x, shift) % TWO64) == (acc + Shl(x, shift)) % TWO64
  {
    hide Or, Shl;
    ShiftBounds(shift);
    if shift == 63 {
      ShlTopOne(x, shift, TWO64);
      MergeTop(acc, x, x % 2, shift, 1, TWO64);
    } else {
      MergeLow(acc, x, shift, TWO64);
    }
  }

  /** The int32 accumulator: shifts of 35 and more add nothing, and 28 keeps four bits. */
  lemma MergeIsOr32(acc: nat, b: byte, shift: nat)
    requires shift <= 21 || shift == 28 || 35 <= shift
    requires acc < TWO32 && acc < Pow2(shift)
    ensures Or(acc, Shl32(And(b, 0x7F), shift)) == (acc + ShlGroup(b, shift)) % TWO32
  {
    hide And, Or, Shl, Pow2;
    GroupBits(b);
    MergeAny32(acc, b % 0x80, shift);
  }

  lemma MergeAny32(acc: nat, x: nat, shift: nat)
    requires x < 0x80 && (shift <= 21 || shift == 28 || 35 <= shift) && acc < TWO32 && acc < Pow2(shift)
    ensures Or(acc, Shl(x, shift) % TWO32) == (acc + Shl(x, shift)) % TWO32
  {
    hide Or, Shl;
    ShiftBounds32(shift);
    if shift >= 35 {
      MergeLost(acc, x, shift);
    } else if shift == 28 {
      ShlTopFour(x, shift, TWO32);
      MergeTop(acc, x, x % 16, shift, 4, TWO32);
    } else {
      MergeLow(acc, x, shift, TWO32);
    }
  }

  lemma ShrThree(v: nat, n: nat)
    ensures Shr(v, n + 3) == Shr(v / 8, n)
  {
    assert Shr(v, n + 3) == Shr(v / 2, n + 2) == Shr(v / 2 / 2, n + 1) == Shr(v / 2 / 2 / 2, n);
  }

  /** `v >>= 7` moves to the next group; `wire >> 3` and `wire & 0x7` take a tag apart. */
  lemma ShiftRight(v: nat)
    ensures Shr(v, 7) == v / 0x80 && Shr(v, 3) == v / 8
  {
    ShrThree(v, 4);
    ShrThree(v / 8, 1);
    ShrThree(v, 0);
    assert Shr(v / 8 / 8, 1) == Shr(v / 8 / 8 / 2, 0);
  }

  lemma LowThree(v: nat)
    ensures And(v, 0x7) == v % 8
  {
    assert Pow2(3) == 8;
    AndMask(v, 3);
  }
}
