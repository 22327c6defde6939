/** JavaScript's bitwise operators, which the adapter's decoders are written in.
    JavaScript converts the operands of `&`, `|`, `~`, `<<` and `>>` to 32-bit
    two's complement integers and reads the result back as a signed 32-bit
    integer; `And` and `Or` work bit by bit on the unsigned patterns. */
module Bits {

  function Pow2(n: nat): (p: nat)
    ensures p >= 1
  {
    if n == 0 then 1 else 2 * Pow2(n - 1)
  }

  const TwoTo32: int := 0x1_0000_0000

  /** The 32-bit pattern of an integer (ECMAScript ToUint32). */
  function ToUint32(x: int): nat {
    x % TwoTo32
  }

  /** The signed reading of an integer's 32-bit pattern (ECMAScript ToInt32). */
  function ToInt32(x: int): int {
    var u := x % TwoTo32;
    if u >= 0x8000_0000 then u - TwoTo32 else u
  }

  /** Bitwise and of two unsigned patterns. */
  function And(x: nat, y: nat): nat
    decreases x
  {
    if x == 0 || y == 0 then 0
    else 2 * And(x / 2, y / 2) + (if x % 2 == 1 && y % 2 == 1 then 1 else 0)
  }

  /** Bitwise or of two unsigned patterns. */
  function Or(x: nat, y: nat): nat
    decreases x
  {
    if x == 0 then y
    else if y == 0 then x
    else 2 * Or(x / 2, y / 2) + (if x % 2 == 1 || y % 2 == 1 then 1 else 0)
  }

  /** JavaScript `x & y`. */
  function JsAnd(x: int, y: int): int {
    ToInt32(And(ToUint32(x), ToUint32(y)))
  }

  /** JavaScript `x | y`. */
  function JsOr(x: int, y: int): int {
    ToInt32(Or(ToUint32(x), ToUint32(y)))
  }

  /** JavaScript `~x`. */
  function JsNot(x: int): int {
    - ToInt32(x) - 1
  }

  /** JavaScript `x << n`. */
  function JsShl(x: int, n: nat): int
    requires n < 32
  {
    ToInt32(ToUint32(x) * Pow2(n))
  }

  /** JavaScript `x >> n`: an arithmetic shift, that is, floor division of the
      signed 32-bit value (Dafny's `/` rounds down for a positive divisor). */
  function JsShr(x: int, n: nat): int
    requires n < 32
  {
    ToInt32(x) / Pow2(n)
  }

  /** Bit `i` of a non-negative integer. */
  predicate Bit(x: nat, i: nat) {
    x / Pow2(i) % 2 == 1
  }

  // Shifts and the low-bit remainder by halving, so that induction over the
  // bit position stays within linear arithmetic.

  function Shl(x: nat, k: nat): nat {
    if k == 0 then x else 2 * Shl(x, k - 1)
  }

  function Shr(x: nat, k: nat): nat {
    if k == 0 then x else Shr(x / 2, k - 1)
  }

  function Low(x: nat, n: nat): nat {
    if n == 0 then 0 else 2 * Low(x / 2, n - 1) + x % 2
  }

  // Multiplication and division facts, each kept to one nonlinear step.

  lemma MulAssoc(a: int, b: int, c: int)
    ensures (a * b) * c == a * (b * c)
  {
  }

  lemma MulAdd(d: int, a: int, b: int)
    ensures d * (a + b) == d * a + d * b
    ensures d * (a - b) == d * a - d * b
  {
  }

  lemma MulMono(d: int, a: int, b: int)
    requires d >= 0 && a <= b
    ensures d * a <= d * b
  {
  }

  lemma Double(a: int, p: int)
    ensures a * (2 * p) == 2 * (a * p)
  {
    MulAssoc(a, 2, p);
    MulAssoc(2, a, p);
  }

  /** Quotient and remainder of a non-negative integer. */
  lemma DivBasics(x: int, d: int)
    requires x >= 0 && d > 0
    ensures 0 <= x / d <= x && 0 <= x % d < d && x == d * (x / d) + x % d
  {
    assert 0 <= x / d;
    MulMono(x / d, 1, d);
  }

  /** A remainder and quotient are determined by any decomposition with a
      remainder in range. */
  lemma DivModUnique(x: int, d: int, q: int, r: int)
    requires d > 0 && 0 <= r < d && x == d * q + r
    ensures x / d == q && x % d == r
  {
    var q' := x / d;
    var r' := x % d;
    assert x == d * q' + r';
    if q > q' {
      MulAdd(d, q, q');
      MulMono(d, 1, q - q');
      assert false;
    } else if q < q' {
      MulAdd(d, q', q);
      MulMono(d, 1, q' - q);
      assert false;
    }
  }

  /** Taking the remainder by a multiple of `a` first does not change the
      remainder by `a`. */
  lemma ModMod(x: int, a: nat, b: nat)
    requires a > 0 && b > 0
    ensures x % (a * b) % a == x % a
  {
    var r := x % (a * b);
    var q := x / (a * b);
    assert x == (a * b) * q + r;
    assert r == a * (r / a) + r % a;
    MulAssoc(a, b, q);
    MulAdd(a, b * q, r / a);
    DivModUnique(x, a, b * q + r / a, r % a);
  }

  /** Dividing twice is dividing by the product. */
  lemma DivDiv(x: nat, a: nat, b: nat)
    requires a > 0 && b > 0
    ensures x / a / b == x / (a * b)
  {
    var q := x / a / b;
    var r := x / a % b;
    assert x / a == b * q + r;
    assert x == a * (x / a) + x % a;
    MulAdd(a, b * q, r);
    MulAssoc(a, b, q);
    MulMono(a, r, b - 1);
    MulAdd(a, b, 1);
    DivModUnique(x, a * b, q, a * r + x % a);
  }

  /** One bit of the remainder by 2p comes from the last bit, the rest from
      the half. */
  lemma ModHalf(x: nat, p: nat)
    requires p > 0
    ensures x % (2 * p) == 2 * (x / 2 % p) + x % 2
  {
    var h := x / 2;
    assert x == 2 * h + x % 2;
    assert h == p * (h / p) + h % p;
    MulAssoc(2, p, h / p);
    DivModUnique(x, 2 * p, h / p, 2 * (h % p) + x % 2);
  }

  // Powers of two.

  lemma {:induction false} Pow2Mul(n: nat, k: nat)
    ensures Pow2(n) * Pow2(k) == Pow2(n + k)
    decreases n
  {
    if n > 0 {
      Pow2Mul(n - 1, k);
      MulAssoc(2, Pow2(n - 1), Pow2(k));
    }
  }

  lemma {:induction false} Pow2Mono(a: nat, b: nat)
    requires a <= b
    ensures Pow2(a) <= Pow2(b)
    decreases b
  {
    if a < b {
      Pow2Mono(a, b - 1);
    }
  }

  /** The powers the adapter's masks are built from. */
  lemma Pow2Values()
    ensures Pow2(4) == 0x10 && Pow2(8) == 0x100 && Pow2(12) == 0x1000
    ensures Pow2(16) == 0x1_0000 && Pow2(31) == 0x8000_0000 && Pow2(32) == TwoTo32
  {
    Pow2Of16();
    Pow2Of32();
  }

  lemma Pow2Of16()
    ensures Pow2(16) == 0x1_0000
  {
    assert Pow2(8) == 0x100;
    Pow2Mul(8, 8);
  }

  lemma Pow2Of32()
    ensures Pow2(31) == 0x8000_0000 && Pow2(32) == TwoTo32
  {
    Pow2Of16();
    Pow2Mul(16, 16);
    assert Pow2(32) == 2 * Pow2(31);
  }

  // The halving definitions agree with multiplication, division and remainder.

  lemma {:induction false} ShlMul(x: nat, k: nat)
    ensures Shl(x, k) == x * Pow2(k)
    decreases k
  {
    if k > 0 {
      ShlMul(x, k - 1);
      Double(x, Pow2(k - 1));
    }
  }

  lemma {:induction false} ShrDiv(x: nat, k: nat)
    ensures Shr(x, k) == x / Pow2(k)
    decreases k
  {
    if k > 0 {
      ShrDiv(x / 2, k - 1);
      DivDiv(x, 2, Pow2(k - 1));
    }
  }

  lemma {:induction false} LowMod(x: nat, n: nat)
    ensures Low(x, n) == x % Pow2(n)
    decreases n
  {
    if n > 0 {
      LowMod(x / 2, n - 1);
      ModHalf(x, Pow2(n - 1));
    }
  }

  lemma {:induction false} ShlZero(k: nat)
    ensures Shl(0, k) == 0
    decreases k
  {
    if k > 0 {
      ShlZero(k - 1);
    }
  }

  lemma {:induction false} ShrZero(k: nat)
    ensures Shr(0, k) == 0
    decreases k
  {
    if k > 0 {
      ShrZero(k - 1);
    }
  }

  lemma {:induction false} LowZero(n: nat)
    ensures Low(0, n) == 0
    decreases n
  {
    if n > 0 {
      LowZero(n - 1);
    }
  }

  lemma {:induction false} ShlPositive(x: nat, k: nat)
    requires x > 0
    ensures Shl(x, k) > 0
    decreases k
  {
    if k > 0 {
      ShlPositive(x, k - 1);
    }
  }

  // Bitwise and and or against masks, by induction over the bit position.

  /** Masking with n low ones keeps the low n bits. */
  lemma {:induction false} AndLow(x: nat, n: nat)
    ensures And(x, Pow2(n) - 1) == Low(x, n)
    decreases n
  {
    if n > 0 {
      var m := Pow2(n) - 1;
      if x == 0 {
        LowZero(n);
      } else {
        assert m % 2 == 1 && m / 2 == Pow2(n - 1) - 1;
        AndLow(x / 2, n - 1);
      }
    }
  }

  /** Masking with a mask shifted by k bits is masking the shifted value. */
  lemma {:induction false} AndShift(x: nat, m: nat, k: nat)
    ensures And(x, Shl(m, k)) == Shl(And(Shr(x, k), m), k)
    decreases k
  {
    if k > 0 {
      if m == 0 {
        ShlZero(k);
        ShlZero(k - 1);
      } else if x == 0 {
        ShrZero(k);
        ShlZero(k);
      } else {
        ShlPositive(m, k - 1);
        AndShift(x / 2, m, k - 1);
      }
    }
  }

  /** Or-ing bits that do not overlap is adding them. */
  lemma {:induction false} OrDisjoint(x: nat, c: nat, k: nat)
    requires x < Pow2(k)
    ensures Or(x, Shl(c, k)) == x + Shl(c, k)
    decreases k
  {
    if k > 0 && x != 0 && c != 0 {
      ShlPositive(c, k - 1);
      OrDisjoint(x / 2, c, k - 1);
    } else if k > 0 && c == 0 {
      ShlZero(k);
    }
  }

  lemma {:induction false} OrCommutes(x: nat, y: nat)
    ensures Or(x, y) == Or(y, x)
    decreases x
  {
    if x != 0 && y != 0 {
      OrCommutes(x / 2, y / 2);
    }
  }

  lemma {:induction false} AndBound(x: nat, y: nat)
    ensures And(x, y) <= x
    decreases x
  {
    if x != 0 && y != 0 {
      AndBound(x / 2, y / 2);
    }
  }

  // The JavaScript operators on the operands the adapter gives them.

  /** Integers below 2^31 read back unchanged as 32-bit values. */
  lemma Int32Small(x: int)
    requires 0 <= x < 0x8000_0000
    ensures ToUint32(x) == x && ToInt32(x) == x
  {
  }

  /** On non-negative 31-bit operands JavaScript `&` is the plain bitwise and. */
  lemma JsAndNat(x: int, y: int)
    requires 0 <= x < 0x8000_0000 && 0 <= y < 0x8000_0000
    ensures JsAnd(x, y) == And(x, y)
  {
    Int32Small(x);
    Int32Small(y);
    AndBound(x, y);
    Int32Small(And(x, y));
  }

  /** Masking with n low ones is the remainder by 2^n. */
  lemma AndLowMod(u: nat, n: nat)
    ensures And(u, Pow2(n) - 1) == u % Pow2(n)
  {
    AndLow(u, n);
    LowMod(u, n);
  }

  /** The 32-bit pattern keeps the remainder by any smaller power of two. */
  lemma Uint32Mod(x: int, n: nat)
    requires n <= 32
    ensures ToUint32(x) % Pow2(n) == x % Pow2(n)
  {
    Pow2Mul(n, 32 - n);
    Pow2Values();
    ModMod(x, Pow2(n), Pow2(32 - n));
  }

  /** JavaScript `x & (2^n - 1)` is the remainder by 2^n, also for negative x. */
  lemma JsAndLow(x: int, n: nat)
    requires n <= 31
    ensures JsAnd(x, Pow2(n) - 1) == x % Pow2(n)
  {
    Pow2Bound(n);
    Int32Small(Pow2(n) - 1);
    AndLowMod(ToUint32(x), n);
    Uint32Mod(x, n);
    Int32Small(x % Pow2(n));
  }

  /** JavaScript `x & ((2^n - 1) << k)` on a non-negative 31-bit x extracts the
      n-bit field at bit k. */
  lemma JsAndField(x: int, n: nat, k: nat)
    requires 0 <= x < 0x8000_0000 && n + k <= 31
    ensures JsAnd(x, (Pow2(n) - 1) * Pow2(k)) == x / Pow2(k) % Pow2(n) * Pow2(k)
  {
    var mask := (Pow2(n) - 1) * Pow2(k);
    ShlMul(Pow2(n) - 1, k);
    AndShift(x, Pow2(n) - 1, k);
    ShrDiv(x, k);
    AndLow(x / Pow2(k), n);
    LowMod(x / Pow2(k), n);
    ShlMul(x / Pow2(k) % Pow2(n), k);
    MaskBound(n, k);
    JsAndNat(x, mask);
  }

  lemma MaskBound(n: nat, k: nat)
    requires n + k <= 31
    ensures 0 <= (Pow2(n) - 1) * Pow2(k) < 0x8000_0000
  {
    ShlMul(Pow2(n) - 1, k);
    ShlBound(Pow2(n) - 1, n, k);
    Pow2Bound(n + k);
  }

  lemma {:induction false} ShlBound(x: nat, n: nat, k: nat)
    requires x < Pow2(n)
    ensures Shl(x, k) < Pow2(n + k)
    decreases k
  {
    if k > 0 {
      ShlBound(x, n, k - 1);
    }
  }

  lemma Pow2Bound(n: nat)
    requires n <= 31
    ensures Pow2(n) <= 0x8000_0000
  {
    Pow2Values();
    Pow2Mono(n, 31);
  }

  /** Masking with a single bit keeps exactly that bit. */
  lemma AndBit(x: nat, i: nat)
    ensures And(x, Pow2(i)) == (if Bit(x, i) then Pow2(i) else 0)
  {
    ShlMul(1, i);
    AndShift(x, 1, i);
    ShrDiv(x, i);
    var b := x / Pow2(i);
    AndLow(b, 1);
    assert And(b, 1) == b % 2;
    if b % 2 == 0 {
      ShlZero(i);
    }
  }

  /** JavaScript `x & (1 << i)` on a non-negative 31-bit x tests bit i. */
  lemma JsAndBit(x: int, i: nat)
    requires 0 <= x < 0x8000_0000 && i <= 30
    ensures JsAnd(x, Pow2(i)) == (if Bit(x, i) then Pow2(i) else 0)
  {
    Pow2Bound(i + 1);
    assert Pow2(i + 1) == 2 * Pow2(i);
    JsAndNat(x, Pow2(i));
    AndBit(x, i);
  }

  /** JavaScript `x | (c << k)` and `(c << k) | x` on non-negative operands whose
      bits do not overlap, and whose sum stays below 2^31, are their sum. */
  lemma JsOrDisjoint(x: int, c: nat, k: nat)
    requires 0 <= x < Pow2(k) && x + c * Pow2(k) < 0x8000_0000
    ensures JsOr(x, c * Pow2(k)) == x + c * Pow2(k)
    ensures JsOr(c * Pow2(k), x) == x + c * Pow2(k)
  {
    ShlMul(c, k);
    Int32Small(x);
    Int32Small(c * Pow2(k));
    OrDisjoint(x, c, k);
    OrCommutes(x, c * Pow2(k));
    Int32Small(x + c * Pow2(k));
  }
}
