/** Bit manipulation on machine integers of a given width (src/riscv/utils/bits.hpp).

    A value of an unsigned type of width `w` is a natural number below `Pow2(w)`, a value of the
    signed type of that width is its two's-complement reading (`Signed`). The bitwise operators
    are defined bit by bit, so that what the masks and shifts compute is proved, not assumed. */
module Bits {

  function Pow2(n: nat): (r: int)
    ensures r >= 1
  {
    if n == 0 then 1 else 2 * Pow2(n - 1)
  }

  const TWO_32: int := 0x1_0000_0000
  const TWO_64: int := 0x1_0000_0000_0000_0000

  type Byte = x: int | 0 <= x < 256
  type Word32 = x: int | 0 <= x < TWO_32
  type Word64 = x: int | 0 <= x < TWO_64

  /** An unsigned 64-bit result, wrapped. */
  function Wrap64(x: int): Word64 {
    x % TWO_64
  }

  // ----- arithmetic of powers of two -----

  lemma Pow2Values()
    ensures Pow2(1) == 2 && Pow2(2) == 4 && Pow2(3) == 8 && Pow2(4) == 16 && Pow2(5) == 32
    ensures Pow2(6) == 64 && Pow2(7) == 128 && Pow2(8) == 256 && Pow2(10) == 1024
    ensures Pow2(11) == 2048 && Pow2(12) == 4096 && Pow2(13) == 8192 && Pow2(15) == 0x8000
    ensures Pow2(16) == 0x1_0000 && Pow2(20) == 0x10_0000 && Pow2(21) == 0x20_0000
    ensures Pow2(24) == 0x100_0000 && Pow2(25) == 0x200_0000 && Pow2(31) == 0x8000_0000
    ensures Pow2(32) == TWO_32 && Pow2(64) == TWO_64 && Pow2(63) == 0x8000_0000_0000_0000
  {
    SmallPow2Values();
    Pow2Add(16, 4);
    Pow2Add(16, 5);
    Pow2Add(16, 8);
    Pow2Add(16, 9);
    Pow2Add(16, 15);
    Pow2Add(16, 16);
    Pow2Add(32, 32);
    Pow2Add(32, 31);
  }

  lemma SmallPow2Values()
    ensures Pow2(1) == 2 && Pow2(2) == 4 && Pow2(3) == 8 && Pow2(4) == 16 && Pow2(5) == 32
    ensures Pow2(6) == 64 && Pow2(7) == 128 && Pow2(8) == 256 && Pow2(9) == 512 && Pow2(10) == 1024
    ensures Pow2(11) == 2048 && Pow2(12) == 4096 && Pow2(13) == 8192 && Pow2(15) == 0x8000
    ensures Pow2(16) == 0x1_0000
  {
    assert Pow2(4) == 16;
    assert Pow2(8) == 256;
    assert Pow2(12) == 4096;
  }

  lemma {:induction false} Pow2Add(a: nat, b: nat)
    ensures Pow2(a + b) == Pow2(a) * Pow2(b)
  {
    if b == 0 {
    } else {
      Pow2Add(a, b - 1);
      assert Pow2(a + b) == 2 * (Pow2(a) * Pow2(b - 1)) == Pow2(a) * (2 * Pow2(b - 1));
    }
  }

  lemma DivModUnique(x: int, d: int, q: int, r: int)
    requires 0 <= r < d && x == q * d + r
    ensures x / d == q && x % d == r
  {
    var q', r' := x / d, x % d;
    assert x == q' * d + r' && 0 <= r' < d;
    assert (q - q') * d == r' - r;
    NonzeroMultiple(q - q', d);
  }

  lemma NonzeroMultiple(k: int, d: int)
    requires d > 0
    ensures k > 0 ==> k * d >= d
    ensures k < 0 ==> k * d <= -d
  {
  }

  lemma ModDouble(x: nat, p: nat)
    requires p >= 1
    ensures x % (2 * p) == 2 * (x / 2 % p) + x % 2
    ensures x / (2 * p) == x / 2 / p
  {
    var q, r := x / 2 / p, x / 2 % p;
    assert x / 2 == q * p + r;
    assert x == q * (2 * p) + (2 * r + x % 2);
    DivModUnique(x, 2 * p, q, 2 * r + x % 2);
  }

  lemma DivDiv(x: int, a: int, b: int)
    requires a >= 1 && b >= 1
    ensures a * b >= 1 && x / (a * b) == x / a / b
  {
    var q, r := x / a, x % a;
    var q', r' := q / b, q % b;
    ScaleLess(r', b, a);
    Regroup(q', b, r', a);
    assert b * a == a * b;
    DivModUnique(x, a * b, q', r' * a + r);
  }

  // ----- bitwise operators -----

  function And(x: nat, y: nat): (r: nat) {
    if x == 0 || y == 0 then 0
    else 2 * And(x / 2, y / 2) + (if x % 2 == 1 && y % 2 == 1 then 1 else 0)
  }

  function Or(x: nat, y: nat): (r: nat)
    decreases x + y
  {
    if x == 0 then y
    else if y == 0 then x
    else 2 * Or(x / 2, y / 2) + (if x % 2 == 1 || y % 2 == 1 then 1 else 0)
  }

  /** The complement within a width. */
  function Not(width: nat, x: nat): nat
    requires x < Pow2(width)
  {
    Pow2(width) - 1 - x
  }

  /** `value << amount` in an unsigned type of the given width. */
  function Shl(width: nat, value: nat, amount: nat): nat
    decreases amount, value
  {
    if amount == 0 then value % Pow2(width) else Shl(width, 2 * value, amount - 1)
  }

  /** `value >> amount`: logical on unsigned values, arithmetic (rounding down) on signed ones. */
  function Shr(value: int, amount: nat): (r: int)
    ensures value >= 0 ==> r >= 0
    decreases amount, value
  {
    if amount == 0 then value else Shr(value / 2, amount - 1)
  }

  lemma {:induction false} ShlValue(width: nat, value: nat, amount: nat)
    ensures Shl(width, value, amount) == value * Pow2(amount) % Pow2(width)
    decreases amount
  {
    if amount == 0 {
      assert Pow2(0) == 1;
    } else {
      ShlValue(width, 2 * value, amount - 1);
      assert 2 * value * Pow2(amount - 1) == value * Pow2(amount);
    }
  }

  lemma {:induction false} ShrValue(value: int, amount: nat)
    ensures Shr(value, amount) == value / Pow2(amount)
    decreases amount
  {
    if amount == 0 {
      assert Pow2(0) == 1;
    } else {
      ShrValue(value / 2, amount - 1);
      DivDiv(value, 2, Pow2(amount - 1));
    }
  }

  /** Bit number `index` of a value. */
  predicate Bit(value: nat, index: nat) {
    Shr(value, index) % 2 == 1
  }

  /** Masking with the `n` low bits takes the remainder. */
  lemma {:induction false} AndOneBits(x: nat, n: nat)
    ensures And(x, Pow2(n) - 1) == x % Pow2(n)
  {
    if n == 0 {
    } else if x == 0 {
      DivModUnique(0, Pow2(n), 0, 0);
    } else {
      var p := Pow2(n - 1);
      AndOneBits(x / 2, n - 1);
      ModDouble(x, p);
      assert (2 * p - 1) / 2 == p - 1 && (2 * p - 1) % 2 == 1;
    }
  }

  /** Bits below and from position `n` upward combine by addition. */
  lemma {:induction false} OrDisjoint(low: nat, high: nat, n: nat)
    requires low < Pow2(n) && high % Pow2(n) == 0
    ensures Or(low, high) == low + high
  {
    if n == 0 || low == 0 || high == 0 {
    } else {
      ModDouble(high, Pow2(n - 1));
      OrDisjoint(low / 2, high / 2, n - 1);
    }
  }

  lemma {:induction false} OrCommutes(x: nat, y: nat)
    ensures Or(x, y) == Or(y, x)
    decreases x + y
  {
    if x != 0 && y != 0 {
      OrCommutes(x / 2, y / 2);
    }
  }

  lemma Halves(x: nat, y: nat)
    requires x != 0 && y != 0
    ensures And(x, y) / 2 == And(x / 2, y / 2) && (And(x, y) % 2 == 1) == (x % 2 == 1 && y % 2 == 1)
    ensures Or(x, y) / 2 == Or(x / 2, y / 2) && (Or(x, y) % 2 == 1) == (x % 2 == 1 || y % 2 == 1)
  {
  }

  lemma BitOfHalf(x: nat, i: nat)
    ensures Bit(x, i) == if i == 0 then x % 2 == 1 else Bit(x / 2, i - 1)
  {
  }

  /** Bitwise and, or and complement really act on every bit separately. */
  lemma {:induction false} AndBit(x: nat, y: nat, i: nat)
    ensures Bit(And(x, y), i) == (Bit(x, i) && Bit(y, i))
  {
    ZeroBit(i);
    if x != 0 && y != 0 {
      hide And, Bit;
      Halves(x, y);
      BitOfHalf(x, i);
      BitOfHalf(y, i);
      BitOfHalf(And(x, y), i);
      if i > 0 {
        AndBit(x / 2, y / 2, i - 1);
      }
    }
  }

  lemma {:induction false} OrBit(x: nat, y: nat, i: nat)
    ensures Bit(Or(x, y), i) == (Bit(x, i) || Bit(y, i))
    decreases x + y
  {
    ZeroBit(i);
    if x != 0 && y != 0 {
      hide Or, Bit;
      Halves(x, y);
      BitOfHalf(x, i);
      BitOfHalf(y, i);
      BitOfHalf(Or(x, y), i);
      if i > 0 {
        OrBit(x / 2, y / 2, i - 1);
      }
    }
  }

  lemma {:induction false} NotBit(width: nat, x: nat, i: nat)
    requires x < Pow2(width)
    ensures Bit(Not(width, x), i) == (i < width && !Bit(x, i))
  {
    if width == 0 {
      ZeroBit(i);
    } else if i == 0 {
    } else {
      assert Not(width, x) / 2 == Not(width - 1, x / 2);
      NotBit(width - 1, x / 2, i - 1);
    }
  }

  lemma {:induction false} ZeroBit(i: nat)
    ensures !Bit(0, i)
  {
    if i > 0 {
      ZeroBit(i - 1);
    }
  }

  lemma {:induction false} PowerBit(k: nat, i: nat)
    ensures Bit(Pow2(k), i) == (i == k)
  {
    if i == 0 {
    } else {
      if k == 0 {
        ZeroBit(i - 1);
      } else {
        PowerBit(k - 1, i - 1);
      }
    }
  }

  /** Two values with the same bits are the same value. */
  lemma {:induction false} SameBits(x: nat, y: nat)
    requires forall i: nat :: Bit(x, i) == Bit(y, i)
    ensures x == y
    decreases x + y
  {
    assert Bit(x, 0) == Bit(y, 0);
    if x + y > 0 {
      forall i: nat
        ensures Bit(x / 2, i) == Bit(y / 2, i)
      {
        assert Bit(x, i + 1) == Bit(y, i + 1);
      }
      SameBits(x / 2, y / 2);
    }
  }

  // ----- hasBit, setBit, clearBit, oneBits, getBits, signExtend -----

  predicate HasBit(width: nat, value: nat, index: nat)
    requires index < width
  {
    And(value, Pow2(index)) != 0
  }

  function SetBit(width: nat, value: nat, index: nat): nat
    requires index < width
  {
    Or(value, Pow2(index))
  }

  function ClearBit(width: nat, value: nat, index: nat): nat
    requires index < width
  {
    Pow2Monotone(index, width);
    And(value, Not(width, Pow2(index)))
  }

  function OneBits(count: nat): nat {
    Pow2(count) - 1
  }

  /** The bitfield `firstBit .. lastBit`, as a number. */
  function GetBits(width: nat, value: nat, firstBit: nat, lastBit: nat): nat
    requires firstBit <= lastBit < width && lastBit - firstBit + 1 < width
  {
    And(Shr(value, firstBit), OneBits(lastBit - firstBit + 1))
  }

  /** Reading back the field of `size` bits at position `first` that a value was put together from. */
  lemma GetBitsOf(width: nat, value: nat, first: nat, size: nat, p: int, q: int, low: nat, field: nat, high: nat)
    requires 0 < size < width && first + size <= width
    requires p == Pow2(first) && q == Pow2(size) && low < p && field < q
    requires value == (high * q + field) * p + low
    ensures GetBits(width, value, first, first + size - 1) == field
  {
    var rest := high * q + field;
    ShrValue(value, first);
    DivModUnique(value, p, rest, low);
    AndOneBits(rest, size);
    DivModUnique(rest, q, high, field);
  }

  /** The value of a bit pattern whose sign bit has the given weight. */
  function TwosComplement(signWeight: nat, pattern: nat): int {
    if pattern < signWeight then pattern else pattern - 2 * signWeight
  }

  /** The bits of a number put together from `n` low bits and the rest. */
  lemma {:induction false} PackedBits(low: nat, high: nat, n: nat, i: nat)
    requires low < Pow2(n)
    ensures Bit(high * Pow2(n) + low, i) == if i < n then Bit(low, i) else Bit(high, i - n)
    decreases n
  {
    if n == 0 {
      assert Pow2(0) == 1;
    } else {
      var p := high * Pow2(n - 1);
      assert high * Pow2(n) == 2 * p;
      HalfBit(p, low, i);
      assert low / 2 < Pow2(n - 1);
      hide Bit, Pow2;
      if i > 0 {
        PackedBits(low / 2, high, n - 1, i - 1);
      }
    }
  }

  lemma HalfBit(p: nat, low: nat, i: nat)
    ensures i == 0 ==> Bit(2 * p + low, i) == Bit(low, i)
    ensures i > 0 ==> Bit(2 * p + low, i) == Bit(p + low / 2, i - 1) && Bit(low, i) == Bit(low / 2, i - 1)
  {
    assert (2 * p + low) / 2 == p + low / 2;
  }

  /** The two's-complement reading of a value of the given width. */
  function Signed(width: nat, value: nat): int
    requires width > 0
  {
    TwosComplement(Pow2(width - 1), value)
  }

  /** The unsigned representation of a signed value. */
  function Unsigned(width: nat, value: int): nat {
    value % Pow2(width)
  }

  /** Shift left until the sign bit is on top, then shift right arithmetically. */
  function SignExtend(width: nat, value: nat, signBit: nat): int
    requires signBit < width
  {
    var shiftAmount := width - (signBit + 1);
    Shr(Signed(width, Shl(width, value, shiftAmount)), shiftAmount)
  }

  lemma {:induction false} Pow2Monotone(a: nat, b: nat)
    requires a < b
    ensures 2 * Pow2(a) <= Pow2(b)
  {
    if a + 1 < b {
      Pow2Monotone(a, b - 1);
    }
  }

  lemma HasBitIsBit(width: nat, value: nat, index: nat)
    requires index < width
    ensures HasBit(width, value, index) == Bit(value, index)
  {
    PowerBit(index, index);
    AndBit(value, Pow2(index), index);
    ZeroBit(index);
    if HasBit(width, value, index) && !Bit(value, index) {
      forall i: nat
        ensures Bit(And(value, Pow2(index)), i) == Bit(0, i)
      {
        AndBit(value, Pow2(index), i);
        PowerBit(index, i);
        ZeroBit(i);
      }
      SameBits(And(value, Pow2(index)), 0);
    }
  }

  /** Setting a bit sets that bit and no other. */
  lemma SetBitBits(width: nat, value: nat, index: nat, i: nat)
    requires index < width
    ensures Bit(SetBit(width, value, index), i) == (i == index || Bit(value, i))
  {
    OrBit(value, Pow2(index), i);
    PowerBit(index, i);
  }

  /** Clearing a bit clears that bit and no other one of the type's width. */
  lemma ClearBitBits(width: nat, value: nat, index: nat, i: nat)
    requires index < width
    ensures Bit(ClearBit(width, value, index), i) == (i < width && i != index && Bit(value, i))
  {
    Pow2Monotone(index, width);
    AndBit(value, Not(width, Pow2(index)), i);
    NotBit(width, Pow2(index), i);
    PowerBit(index, i);
  }

  /** As a number, clearing a set bit subtracts its weight. */
  lemma {:induction false} ClearBitValue(width: nat, value: nat, index: nat)
    requires index < width && value < Pow2(width)
    ensures ClearBit(width, value, index) == if Bit(value, index) then value - Pow2(index) else value
  {
    Pow2Monotone(index, width);
    var mask := Not(width, Pow2(index));
    if value == 0 {
      ZeroBit(index);
    } else if index == 0 {
      assert mask == 2 * (Pow2(width - 1) - 1);
      AndOneBits(value / 2, width - 1);
      DivModUnique(value / 2, Pow2(width - 1), 0, value / 2);
    } else {
      Pow2Monotone(index - 1, width - 1);
      assert mask == 2 * Not(width - 1, Pow2(index - 1)) + 1;
      ClearBitValue(width - 1, value / 2, index - 1);
    }
  }

  /** As a number, setting a clear bit adds its weight. */
  lemma {:induction false} SetBitValue(width: nat, value: nat, index: nat)
    requires index < width
    ensures SetBit(width, value, index) == if Bit(value, index) then value else value + Pow2(index)
  {
    if value == 0 {
      ZeroBit(index);
    } else if index == 0 {
      assert Or(value / 2, 0) == value / 2;
    } else {
      SetBitValue(width - 1, value / 2, index - 1);
    }
  }

  /** The shift pair of `signExtend` is the two's-complement value of the low bits, for every
      width, every sign bit and every value, whatever the bits above the sign bit are. */
  lemma SignExtendIsSigned(width: nat, value: nat, signBit: nat)
    requires signBit < width
    ensures SignExtend(width, value, signBit) == Signed(signBit + 1, value % Pow2(signBit + 1))
  {
    var n, s := signBit + 1, width - (signBit + 1);
    var low := value % Pow2(n);
    Pow2Add(n, s);
    Pow2Add(n - 1, s);
    ScaledRemainder(value, Pow2(n), Pow2(s));
    ShlValue(width, value, s);
    ShrValue(Signed(width, low * Pow2(s)), s);
    ScaledSign(low, Pow2(n - 1), Pow2(s));
  }

  lemma ScaledRemainder(value: nat, p: nat, scale: nat)
    requires p >= 1 && scale >= 1
    ensures 1 <= p * scale && value * scale % (p * scale) == value % p * scale
    ensures value % p % p == value % p
  {
    var q, low := value / p, value % p;
    DivModUnique(low, p, 0, low);
    ScaleLess(low, p, scale);
    Regroup(q, p, low, scale);
    DivModUnique(value * scale, p * scale, q, low * scale);
  }

  lemma Regroup(q: int, p: int, low: int, scale: int)
    ensures (q * p + low) * scale == q * (p * scale) + low * scale
  {
    assert (q * p) * scale == q * (p * scale);
  }

  lemma ScaleLess(a: int, b: int, c: int)
    requires 0 <= a < b && c >= 1
    ensures 0 <= a * c <= (b - 1) * c < b * c
  {
  }

  lemma ScaledSign(low: nat, half: int, scale: int)
    requires low < 2 * half && scale >= 1
    ensures low < half <==> low * scale < half * scale
    ensures low * scale / scale == low
    ensures (low * scale - 2 * (half * scale)) / scale == low - 2 * half
  {
    if low < half {
      ScaleLess(low, half, scale);
    } else {
      ScaleLess(half, low + 1, scale);
    }
    DivModUnique(low * scale, scale, low, 0);
    Regroup(1, low, -2 * half, scale);
    assert (low - 2 * half) * scale == low * scale - 2 * (half * scale);
    DivModUnique(low * scale - 2 * (half * scale), scale, low - 2 * half, 0);
  }

  /** Signed and unsigned readings of a width are inverse to each other. */
  lemma SignedUnsigned(width: nat, value: int)
    requires width > 0
    ensures Unsigned(width, value) < Pow2(width)
    ensures 0 - Pow2(width - 1) <= value < Pow2(width - 1) ==> Signed(width, Unsigned(width, value)) == value
    ensures 0 <= value < Pow2(width) ==> Unsigned(width, Signed(width, value)) == value
  {
    var p := Pow2(width);
    if 0 <= value < p {
      DivModUnique(value, p, 0, value);
      DivModUnique(value - p, p, -1, value);
    } else if 0 - Pow2(width - 1) <= value < 0 {
      DivModUnique(value, p, -1, value + p);
    }
  }

  /** Sign extension of a pattern that has nothing above its sign bit. */
  lemma SignExtendPattern(width: nat, value: nat, signBit: nat, signWeight: int)
    requires signBit < width && signWeight == Pow2(signBit) && value < 2 * signWeight
    ensures SignExtend(width, value, signBit) == TwosComplement(signWeight, value)
  {
    SignExtendIsSigned(width, value, signBit);
    DivModUnique(value, Pow2(signBit + 1), 0, value);
  }

  /** Or-ing a bitfield, shifted to its place, above the lower ones adds it with its weight. */
  lemma OrField(width: nat, low: nat, field: nat, position: nat, p: int, size: nat, q: int)
    requires p == Pow2(position) && q == Pow2(size) && position + size <= width
    requires low < p && field < q
    ensures Shl(width, field, position) == field * p
    ensures Or(low, Shl(width, field, position)) == low + field * p
  {
    ShlValue(width, field, position);
    Pow2Add(size, position);
    ScaleLess(field, q, p);
    if position + size < width {
      Pow2Monotone(position + size, width);
    }
    DivModUnique(field * p, Pow2(width), 0, field * p);
    DivModUnique(field * p, p, field, 0);
    OrDisjoint(low, field * p, position);
  }
}
