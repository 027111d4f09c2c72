/**
 int-util.h: 64x64 bit multiplication, 128 by 32 bit division and byte swapping, in explicit
 64 bit arithmetic.
 */
module IntUtil {
  import opened Common
  import opened Positional


  type U64 = x: nat | x < TWO_64
  type U32 = x: nat | x < TWO_32

  /** Bitwise or, bit by bit. */
  function Or(x: nat, y: nat): nat
    decreases x + y
  {
    if x == 0 && y == 0 then 0
    else 2 * Or(x / 2, y / 2) + (if x % 2 == 1 || y % 2 == 1 then 1 else 0)
  }

  function Pow2(k: nat): (r: nat)
    ensures r > 0
  {
    if k == 0 then 1 else 2 * Pow2(k - 1)
  }

  lemma {:induction false} OrZero(x: nat)
    ensures Or(x, 0) == x && Or(0, x) == x
    decreases x
  {
    if x == 0 {
    } else {
      OrZero(x / 2);
    }
  }

  lemma DivDouble(y: nat, p: nat)
    ensures (y * (2 * p)) / 2 == y * p && (y * (2 * p)) % 2 == 0
  {
    assert y * (2 * p) == 2 * (y * p);
  }

  /** Or of bits that do not overlap is a sum. */
  lemma {:induction false} OrDisjoint(x: nat, y: nat, k: nat)
    requires x < Pow2(k)
    ensures Or(x, y * Pow2(k)) == x + y * Pow2(k) && Or(y * Pow2(k), x) == x + y * Pow2(k)
    decreases k
  {
    if k == 0 {
      assert y * 1 == y;
      OrZero(y);
    } else {
      DivDouble(y, Pow2(k - 1));
      OrDisjoint(x / 2, y, k - 1);
    }
  }

  lemma Powers()
    ensures Pow2(7) == 128 && Pow2(8) == 256 && Pow2(32) == TWO_32 && Pow2(64) == TWO_64
  {
    assert Pow2(8) == 256;
    assert Pow2(16) == 256 * 256;
    assert Pow2(24) == 256 * 256 * 256;
    assert Pow2(32) == TWO_32;
    assert Pow2(40) == TWO_32 * 256;
    assert Pow2(48) == TWO_32 * 256 * 256;
    assert Pow2(56) == TWO_32 * 256 * 256 * 256;
  }

  // ---------------------------------------------------------------- multiplication

  function HiDword(v: U64): U32 { v / TWO_32 }
  function LoDword(v: U64): U32 { v % TWO_32 }

  lemma Dwords(v: U64)
    ensures v == HiDword(v) * TWO_32 + LoDword(v)
  {
  }

  lemma MulLe(x: nat, y: nat, z: nat)
    requires x <= y
    ensures x * z <= y * z && z * x <= z * y
  {
  }

  lemma ProductBound(a: nat, b: nat, n: nat)
    requires a <= n && b <= n
    ensures a * b <= n * n
  {
    MulLe(a, n, b);
    MulLe(b, n, n);
  }

  /** A carry is seen by the sum being smaller than a summand. */
  lemma Carry(x: U64, y: U64)
    ensures var s := (x + y) % TWO_64; x + y == s + (if s < x then TWO_64 else 0)
  {
  }

  lemma ShiftSplit(x: U64)
    ensures x * TWO_32 == x / TWO_32 * TWO_64 + x * TWO_32 % TWO_64
  {
    var q, r := x / TWO_32, x % TWO_32;
    assert x * TWO_32 == q * TWO_64 + r * TWO_32 && r * TWO_32 < TWO_64;
  }

  lemma Distribute(a: nat, b: nat, c: nat, d: nat)
    ensures (a * TWO_32 + b) * (c * TWO_32 + d) == a * c * TWO_64 + (a * d + b * c) * TWO_32 + b * d
  {
    assert (a * TWO_32 + b) * (c * TWO_32 + d) == a * TWO_32 * (c * TWO_32) + a * TWO_32 * d + b * (c * TWO_32) + b * d;
    assert a * TWO_32 * (c * TWO_32) == a * c * TWO_64;
    assert a * TWO_32 * d == a * d * TWO_32;
    assert b * (c * TWO_32) == b * c * TWO_32;
  }

  /** The 128 bit product of two 64 bit numbers, from four partial products and two carries. */
  method Mul128(multiplier: U64, multiplicand: U64) returns (productLo: U64, productHi: U64)
    ensures productHi * TWO_64 + productLo == multiplier * multiplicand
  {
    Dwords(multiplier);
    Dwords(multiplicand);
    var a: nat, b: nat := HiDword(multiplier), LoDword(multiplier);
    var c: nat, d: nat := HiDword(multiplicand), LoDword(multiplicand);
    hide HiDword, LoDword;
    PartialProducts(multiplier, multiplicand, a, b, c, d);
    productLo, productHi := Combine(a * c, a * d, b * c, b * d);
  }

  lemma PartialProducts(x: U64, y: U64, a: U32, b: U32, c: U32, d: U32)
    requires x == a * TWO_32 + b && y == c * TWO_32 + d
    ensures a * c < TWO_64 && a * d < TWO_64 && b * c < TWO_64 && b * d < TWO_64
    ensures x * y == a * c * TWO_64 + (a * d + b * c) * TWO_32 + b * d < TWO_64 * TWO_64
  {
    Distribute(a, b, c, d);
    SquareBound32(a, c);
    SquareBound32(a, d);
    SquareBound32(b, c);
    SquareBound32(b, d);
    SquareBound64(x, y);
  }

  lemma SquareBound32(a: U32, b: U32)
    ensures a * b < TWO_64
  {
    ProductBound(a, b, TWO_32 - 1);
  }

  lemma SquareBound64(a: U64, b: U64)
    ensures a * b < TWO_64 * TWO_64
  {
    ProductBound(a, b, TWO_64 - 1);
  }

  /** The partial products added up, with both carries. */
  method Combine(ac: U64, ad: U64, bc: U64, bd: U64) returns (productLo: U64, productHi: U64)
    requires ac * TWO_64 + (ad + bc) * TWO_32 + bd < TWO_64 * TWO_64
    ensures productHi * TWO_64 + productLo == ac * TWO_64 + (ad + bc) * TWO_32 + bd
    ensures ac <= productHi
  {
    var adbc := (ad + bc) % TWO_64;
    var adbcCarry := if adbc < ad then 1 else 0;
    Carry(ad, bc);
    ShiftSplit(adbc);
    var shifted := adbc * TWO_32 % TWO_64;
    productLo := (bd + shifted) % TWO_64;
    var productLoCarry := if productLo < bd then 1 else 0;
    Carry(bd, shifted);
    ghost var exact := ac + adbc / TWO_32 + adbcCarry * TWO_32 + productLoCarry;
    assert exact * TWO_64 + productLo == ac * TWO_64 + (ad + bc) * TWO_32 + bd;
    productHi := (ac + adbc / TWO_32 + adbcCarry * TWO_32 + productLoCarry) % TWO_64;
  }

  // ---------------------------------------------------------------- division

  /** A bit of the result is set exactly when it is set in one of the two. */
  lemma {:induction false} OrBits(x: nat, y: nat, i: nat)
    ensures Or(x, y) / Pow2(i) % 2 == 1 <==> x / Pow2(i) % 2 == 1 || y / Pow2(i) % 2 == 1
    decreases i
  {
    if i == 0 {
      Pow2Zero();
      assert Or(x, y) % 2 == 1 <==> x % 2 == 1 || y % 2 == 1;
    } else {
      OrBits(x / 2, y / 2, i - 1);
      assert Or(x, y) / 2 == Or(x / 2, y / 2);
      HalfFirst(Or(x, y), i);
      HalfFirst(x, i);
      HalfFirst(y, i);
    }
  }

  lemma HalfFirst(x: nat, i: nat)
    requires i > 0
    ensures x / Pow2(i) == x / 2 / Pow2(i - 1)
  {
    DivDiv(x, 2, Pow2(i - 1));
  }

  lemma {:induction false} OrBound(x: nat, y: nat, k: nat)
    requires x < Pow2(k) && y < Pow2(k)
    ensures Or(x, y) < Pow2(k)
    decreases k
  {
    if k == 0 {
    } else {
      OrBound(x / 2, y / 2, k - 1);
    }
  }

  /** One step of long division in base 2^32; the remainder is or-ed above the dividend. */
  method DivWithRemainder(dividend: U64, divisor: U32, remainder: U32) returns (quotient: U64, remainder': U32)
    requires 0 < divisor
    ensures quotient * divisor + remainder' == Or(dividend, remainder * TWO_32) && remainder' < divisor
    ensures dividend < TWO_32 ==> quotient * divisor + remainder' == remainder * TWO_32 + dividend
    ensures dividend < TWO_32 && remainder < divisor ==> quotient < TWO_32
  {
    hide Or, Pow2;
    Powers();
    OrBound(dividend, remainder * TWO_32, 64);
    var joined: U64 := Or(dividend, remainder * TWO_32);
    quotient, remainder' := Divide(joined, divisor);
    if dividend < TWO_32 {
      OrDisjoint(dividend, remainder, 32);
      if remainder < divisor {
        QuotientBound(quotient, divisor, remainder, joined);
      }
    }
  }

  method Divide(x: U64, d: U32) returns (q: U64, r: U32)
    requires 0 < d
    ensures q * d + r == x && r < d
  {
    DivMod(x, d);
    q, r := x / d, x % d;
  }

  lemma DivMod(x: nat, d: nat)
    requires 0 < d
    ensures x / d * d + x % d == x && x % d < d && x / d <= x
  {
    var q, r := x / d, x % d;
    assert x == d * q + r;
    MulLe(1, d, q);
  }

  lemma QuotientBound(q: nat, divisor: nat, remainder: nat, x: nat)
    requires remainder < divisor && q * divisor <= x < (remainder + 1) * TWO_32
    ensures q < TWO_32
  {
    MulLe(remainder + 1, divisor, TWO_32);
    if q >= TWO_32 {
      MulLe(TWO_32, q, divisor);
    }
  }

  /** 128 by 32 bit division: the quotient in two words, and the remainder. */
  method Div128By32(hi: U64, lo: U64, divisor: U32) returns (remainder: U32, quotientHi: U64, quotientLo: U64)
    requires 0 < divisor
    ensures (quotientHi * TWO_64 + quotientLo) * divisor + remainder == hi * TWO_64 + lo
    ensures remainder < divisor
  {
    hide Or, Pow2;
    var d3, d2, d1, d0 := HiDword(hi), LoDword(hi), HiDword(lo), LoDword(lo);
    var q3, q2, q1, q0;
    remainder := 0;
    q3, remainder := DivWithRemainder(d3, divisor, remainder);
    ghost var r3 := remainder;
    q2, remainder := DivWithRemainder(d2, divisor, remainder);
    ghost var r2 := remainder;
    q1, remainder := DivWithRemainder(d1, divisor, remainder);
    ghost var r1 := remainder;
    q0, remainder := DivWithRemainder(d0, divisor, remainder);
    Powers();
    OrDisjoint(q2, q3, 32);
    OrDisjoint(q0, q1, 32);
    quotientHi := Or(q3 * TWO_32, q2);
    quotientLo := Or(q1 * TWO_32, q0);
    LongDivision(d3, d2, d1, d0, q3, q2, q1, q0, r3, r2, r1, remainder, divisor);
  }

  lemma LongDivision(d3: nat, d2: nat, d1: nat, d0: nat, q3: nat, q2: nat, q1: nat, q0: nat, r3: nat, r2: nat,
      r1: nat, r0: nat, divisor: nat)
    requires q3 * divisor + r3 == d3 && q2 * divisor + r2 == r3 * TWO_32 + d2
    requires q1 * divisor + r1 == r2 * TWO_32 + d1 && q0 * divisor + r0 == r1 * TWO_32 + d0
    ensures ((q3 * TWO_32 + q2) * TWO_64 + (q1 * TWO_32 + q0)) * divisor + r0 ==
            (d3 * TWO_32 + d2) * TWO_64 + (d1 * TWO_32 + d0)
  {
    var a, b, c, d := q3 * divisor, q2 * divisor, q1 * divisor, q0 * divisor;
    assert ((q3 * TWO_32 + q2) * TWO_64 + (q1 * TWO_32 + q0)) * divisor ==
        a * TWO_32 * TWO_64 + b * TWO_64 + c * TWO_32 + d;
  }

  /** Dividing a product by a factor gives back the other factor. */
  lemma DivisionIsUnique(q: nat, r: nat, d: nat, a: nat)
    requires 0 < d && r < d && q * d + r == a * d
    ensures q == a && r == 0
  {
    if q < a {
      MulLe(q + 1, a, d);
    } else if q > a {
      MulLe(a + 1, q, d);
    }
  }

  method DivideProduct(a: U64, d: U32) returns (quotientHi: U64, quotientLo: U64, remainder: U32)
    requires 0 < d
    ensures quotientHi == 0 && quotientLo == a && remainder == 0
  {
    var lo, hi := Mul128(a, d);
    remainder, quotientHi, quotientLo := Div128By32(hi, lo, d);
    DivisionIsUnique(quotientHi * TWO_64 + quotientLo, remainder, d, a);
  }

  // ---------------------------------------------------------------- byte order

  /** The bytes of a 64 bit number in the memory of a little-endian machine. */
  function Memory(x: U64): seq<nat> { Reversed(ToDigits(x, 8, TWO_8)) }

  /** Byte i of x, counted from the least significant one, moved to place 7 - i. */
  function Moved(x: U64, i: nat): nat
    requires i < 8
  {
    x / Pow2(8 * i) % TWO_8 * Pow2(8 * (7 - i))
  }

  /** The SWAP64 macro: the eight bytes masked, shifted and or-ed together. */
  function Swap64(x: U64): nat {
    Or(Or(Or(Or(Or(Or(Or(Moved(x, 0), Moved(x, 1)), Moved(x, 2)), Moved(x, 3)), Moved(x, 4)), Moved(x, 5)),
        Moved(x, 6)), Moved(x, 7))
  }

  lemma Pow2Byte(k: nat)
    ensures Pow2(k + 8) == TWO_8 * Pow2(k)
  {
    assert Pow2(k + 2) == 4 * Pow2(k);
    assert Pow2(k + 4) == 4 * Pow2(k + 2);
    assert Pow2(k + 6) == 4 * Pow2(k + 4);
  }

  /** Or-ing one byte below a number appends it. */
  lemma OrByte(h: nat, byte: nat, k: nat)
    requires byte < TWO_8
    ensures Or(h * Pow2(k + 8), byte * Pow2(k)) == (h * TWO_8 + byte) * Pow2(k)
  {
    hide Or;
    Pow2Byte(k);
    ByteBelow(h, byte, Pow2(k));
    OrDisjoint(byte * Pow2(k), h, k + 8);
  }

  lemma ByteBelow(h: nat, byte: nat, p: nat)
    requires byte < TWO_8 && p > 0
    ensures byte * p < TWO_8 * p
    ensures byte * p + h * (TWO_8 * p) == (h * TWO_8 + byte) * p
  {
    MulLe(byte + 1, TWO_8, p);
    assert h * (TWO_8 * p) == h * TWO_8 * p;
  }

  lemma {:induction false} PowBytes(i: nat)
    ensures Pow(TWO_8, i) == Pow2(8 * i)
    decreases i
  {
    if i == 0 {
    } else {
      PowBytes(i - 1);
      Pow2Byte(8 * (i - 1));
    }
  }

  lemma MovedByte(x: U64, i: nat)
    requires i < 8
    ensures Memory(x)[i] < TWO_8 && Moved(x, i) == Memory(x)[i] * Pow2(8 * (7 - i))
  {
    DigitAt(x, 8, i, TWO_8);
    PowBytes(i);
    DigitsInBase(x, 8, TWO_8);
  }

  /** Or-ing the next byte of a list below the value of the bytes before it. */
  lemma AppendByte(bs: seq<nat>, i: nat)
    requires 0 < i < 8 == |bs| && bs[i] < TWO_8
    ensures Or(Value(bs[..i], TWO_8) * Pow2(8 * (8 - i)), bs[i] * Pow2(8 * (7 - i))) ==
            Value(bs[..i + 1], TWO_8) * Pow2(8 * (7 - i))
  {
    OrByte(Value(bs[..i], TWO_8), bs[i], 8 * (7 - i));
    assert bs[..i + 1][..i] == bs[..i];
  }

  /** SWAP64 is the number whose bytes are those of x backwards. */
  lemma Swap64Reverses(x: U64)
    ensures Swap64(x) == Value(Memory(x), TWO_8) < TWO_64
    ensures ToDigits(Swap64(x), 8, TWO_8) == Memory(x)
  {
    hide Or, Pow2, Moved, Memory, Value;
    var bs := Memory(x);
    MemorySize(x);
    FirstByte(x);
    forall i | 0 <= i < 8 ensures bs[i] < TWO_8 && Moved(x, i) == bs[i] * Pow2(8 * (7 - i)) {
      MovedByte(x, i);
    }
    AppendByte(bs, 1);
    AppendByte(bs, 2);
    AppendByte(bs, 3);
    AppendByte(bs, 4);
    AppendByte(bs, 5);
    AppendByte(bs, 6);
    AppendByte(bs, 7);
    assert bs[..8] == bs;
    Powers();
    ValueBound(bs, TWO_8);
    PowBytes(8);
    DigitsOfValue(bs, TWO_8);
    Pow2Zero();
  }

  lemma Pow2Zero()
    ensures Pow2(0) == 1
  {
  }

  lemma MemorySize(x: U64)
    ensures |Memory(x)| == 8
  {
  }

  lemma FirstByte(x: U64)
    ensures Memory(x)[..1] == [Memory(x)[0]] && Value(Memory(x)[..1], TWO_8) == Memory(x)[0]
  {
    var one := Memory(x)[..1];
    assert one[..0] == [];
  }

  /** The i-th byte of a swapped number, from the lowest, is the i-th from the highest of the number itself. */
  lemma SwappedByte(x: U64, i: nat)
    requires i < 8
    ensures Pow(256, i) > 0 && Pow(256, 7 - i) > 0 && Swap64(x) / Pow(256, i) % 256 == x / Pow(256, 7 - i) % 256
  {
    hide Swap64, Pow, ToDigits, Value;
    Swap64Reverses(x);
    MemorySize(x);
    DigitAt(Swap64(x), 8, i, 256);
    DigitAt(x, 8, 7 - i, 256);
  }

  /** In memory a swapped number is its bytes, most significant first. */
  lemma SwappedMemory(x: U64)
    ensures Swap64(x) < TWO_64 && Memory(Swap64(x)) == ToDigits(x, 8, TWO_8)
  {
    hide Swap64, ToDigits;
    Swap64Reverses(x);
    var ds := ToDigits(x, 8, TWO_8);
    assert Reversed(Reversed(ds)) == ds;
  }

  /** Swapping twice is the identity. */
  lemma SwapTwice(x: U64)
    ensures Swap64(x) < TWO_64 && Swap64(Swap64(x)) == x
  {
    hide Swap64, ToDigits;
    SwappedMemory(x);
    Swap64Reverses(Swap64(x));
    PowBytes(8);
    Powers();
    ValueOfDigits(x, 8, TWO_8);
  }
}
