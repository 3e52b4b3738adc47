/** Go's unsigned 32-bit arithmetic, written out on unbounded integers:
    the truncating conversion `uint32(x)`, the shift `>>` (a count of 32 or
    more gives 0) and the bitwise exclusive or `^`, with the algebra the
    proof-of-work code relies on. */
module Uint32 {

  const Modulus: int := 0x1_0000_0000

  type u32 = x: int | 0 <= x < Modulus
  type byte = x: int | 0 <= x < 256

  function Pow2(n: nat): (r: nat)
    ensures r >= 1
  {
    if n == 0 then 1 else 2 * Pow2(n - 1)
  }

  /** Go's conversion `uint32(x)` of a signed integer, and wrap-around of uint32 arithmetic. */
  function Wrap(x: int): (r: u32)
    ensures 0 <= x < Modulus ==> r == x
    ensures Modulus <= x < 2 * Modulus ==> r == x - Modulus
    ensures -Modulus <= x < 0 ==> r == x + Modulus
  {
    x % Modulus
  }

  /** Go's `x >> s` on uint32: a shift count of 32 or more yields 0. */
  function Shr(x: u32, s: u32): (r: u32)
    ensures s >= 32 ==> r == 0
    ensures s == 0 ==> r == x
  {
    if s >= 32 then 0
    else if s == 0 then x
    else DivAtMost(x, Pow2(s)); x / Pow2(s)
  }

  lemma DivAtMost(x: nat, d: nat)
    requires d >= 1
    ensures 0 <= x / d <= x
  {
  }

  /** Go's `x << s` on uint32: bits moved past bit 31 are lost, and a count of 32 or more yields 0. */
  function Shl(x: u32, s: u32): (r: u32)
    ensures s >= 32 ==> r == 0
    ensures s < 32 && x * Pow2(s) < Modulus ==> r == x * Pow2(s)
  {
    if s >= 32 then 0 else Wrap(x * Pow2(s))
  }

  lemma DivBelow(x: nat, a: nat, d: nat)
    requires d > 0 && x < a * d
    ensures x / d < a
  {
  }

  /** Shifting a word right by 32 - w leaves a value of at most w bits. */
  lemma ShrBelow(x: u32, w: nat)
    requires w <= 32
    ensures Shr(x, 32 - w) < Pow2(w)
  {
    Pow2Value32();
    if 0 < w < 32 {
      Pow2Add(w, 32 - w);
      DivBelow(x, Pow2(w), Pow2(32 - w));
    }
  }

  /** Bitwise exclusive or of two naturals, least significant bit first. */
  function Xor(a: nat, b: nat): nat
    decreases a + b
  {
    if a == 0 then b
    else if b == 0 then a
    else 2 * Xor(a / 2, b / 2) + (if a % 2 == b % 2 then 0 else 1)
  }

  lemma XorUnfold(a: nat, b: nat)
    ensures Xor(a, b) == 2 * Xor(a / 2, b / 2) + (if a % 2 == b % 2 then 0 else 1)
  {
    if a == 0 {
      assert a / 2 == 0;
      assert Xor(a / 2, b / 2) == b / 2;
    } else if b == 0 {
      assert Xor(a / 2, b / 2) == a / 2;
    }
  }

  lemma {:induction false} XorZero(a: nat)
    ensures Xor(a, 0) == a && Xor(0, a) == a
  {
  }

  lemma {:induction false} XorSelf(a: nat)
    ensures Xor(a, a) == 0
    decreases a
  {
    if a != 0 {
      XorUnfold(a, a);
      XorSelf(a / 2);
    }
  }

  lemma {:induction false} XorComm(a: nat, b: nat)
    ensures Xor(a, b) == Xor(b, a)
    decreases a + b
  {
    if a != 0 && b != 0 {
      XorComm(a / 2, b / 2);
    }
  }

  lemma {:induction false} XorAssoc(a: nat, b: nat, c: nat)
    ensures Xor(Xor(a, b), c) == Xor(a, Xor(b, c))
    decreases a + b + c
  {
    if a == 0 || b == 0 || c == 0 {
      XorZero(a); XorZero(b); XorZero(c);
    } else {
      var ab := Xor(a, b);
      var bc := Xor(b, c);
      XorUnfold(a, b);
      XorUnfold(b, c);
      XorUnfold(ab, c);
      XorUnfold(a, bc);
      assert ab / 2 == Xor(a / 2, b / 2);
      assert bc / 2 == Xor(b / 2, c / 2);
      XorAssoc(a / 2, b / 2, c / 2);
    }
  }

  /** The exclusive or of two values below 2^n stays below 2^n. */
  lemma {:induction false} XorBelow(a: nat, b: nat, n: nat)
    requires a < Pow2(n) && b < Pow2(n)
    ensures Xor(a, b) < Pow2(n)
    decreases n
  {
    if a != 0 && b != 0 {
      assert n > 0;
      XorBelow(a / 2, b / 2, n - 1);
    }
  }

  /** uint32 `^`. */
  function XorU32(a: u32, b: u32): (r: u32)
    ensures r == Xor(a, b)
  {
    Pow2Value32();
    XorBelow(a, b, 32);
    Xor(a, b)
  }

  lemma Pow2Value32()
    ensures Pow2(32) == Modulus
  {
    assert Pow2(8) == 256;
    assert Pow2(16) == 65536 by { Pow2Add(8, 8); }
    Pow2Add(16, 16);
  }

  /** A power of two below 2^32 is at most half the modulus. */
  lemma {:induction false} Pow2Half(w: nat)
    requires w < 32
    ensures 2 * Pow2(w) <= Modulus
    decreases 32 - w
  {
    if w == 31 {
      Pow2Value32();
    } else {
      Pow2Half(w + 1);
    }
  }

  lemma {:induction false} Pow2Add(a: nat, b: nat)
    ensures Pow2(a + b) == Pow2(a) * Pow2(b)
    decreases a
  {
    if a > 0 {
      Pow2Add(a - 1, b);
    }
  }
}
