/** 32-bit machine words as naturals below 2^32, with the register operations of the
    ARM runtime: wrapping negation and subtraction, shifts, and the bitwise operations
    read off the binary digits. */
module Words {
  const WORDS: int := 0x1_0000_0000
  const SIGN: int := 0x8000_0000

  type Word = w: int | 0 <= w < 0x1_0000_0000

  /** What a routine hands back to its caller: a register, or the exception of `__div0`. */
  datatype Outcome = Value(word: Word) | DivideByZero

  function Wrap(x: int): (w: Word) {
    x % WORDS
  }

  function Neg(x: Word): (w: Word) {
    Wrap(WORDS - x)
  }

  /** The two's complement reading of a register. */
  function Signed(x: Word): (s: int)
    ensures -SIGN <= s < SIGN && Wrap(s) == x
  {
    if x < SIGN then x else x - WORDS
  }

  predicate Negative(x: Word) {
    x >= SIGN
  }

  /** Bit `n` of the result is `f` applied to bit `n` of both arguments; `f(0, 0) == 0`. */
  function Or(x: nat, y: nat): nat
    decreases x + y
  {
    if x == 0 then y else if y == 0 then x
    else 2 * Or(x / 2, y / 2) + (if x % 2 == 1 || y % 2 == 1 then 1 else 0)
  }

  function And(x: nat, y: nat): nat {
    if x == 0 || y == 0 then 0
    else 2 * And(x / 2, y / 2) + (if x % 2 == 1 && y % 2 == 1 then 1 else 0)
  }

  function Xor(x: nat, y: nat): nat
    decreases x + y
  {
    if x == 0 && y == 0 then 0
    else 2 * Xor(x / 2, y / 2) + (if x % 2 != y % 2 then 1 else 0)
  }

  function Pow2(k: nat): (p: nat)
    ensures p >= 1
  {
    if k == 0 then 1 else 2 * Pow2(k - 1)
  }

  lemma {:induction false} Pow2Monotone(j: nat, k: nat)
    requires j <= k
    ensures Pow2(j) <= Pow2(k)
  {
    if j < k { Pow2Monotone(j, k - 1); }
  }

  lemma Pow2At32()
    ensures Pow2(28) == 0x1000_0000 && Pow2(32) == WORDS
  {
    assert Pow2(8) == 0x100;
    assert Pow2(16) == 0x1_0000;
    assert Pow2(24) == 0x100_0000;
  }

  lemma {:induction false} OrBound(x: nat, y: nat, k: nat)
    requires x < Pow2(k) && y < Pow2(k)
    ensures Or(x, y) < Pow2(k)
  {
    if k > 0 { OrBound(x / 2, y / 2, k - 1); }
  }

  /** Setting a bit below the lowest bit of a number adds that power of two. */
  lemma {:induction false} OrBelow(m: nat, k: nat)
    ensures Or(2 * (m * Pow2(k)), Pow2(k)) == 2 * (m * Pow2(k)) + Pow2(k)
  {
    if k == 0 {
    } else {
      OrBelow(m, k - 1);
      var half := m * Pow2(k - 1);
      assert m * Pow2(k) == 2 * half;
      assert 2 * (m * Pow2(k)) / 2 == 2 * half && Pow2(k) / 2 == Pow2(k - 1);
    }
  }

  /** The top bit of an exclusive or says whether the top bits differ. */
  lemma {:induction false} XorTopBit(x: nat, y: nat, k: nat)
    requires x < 2 * Pow2(k) && y < 2 * Pow2(k)
    ensures Xor(x, y) < 2 * Pow2(k)
    ensures Xor(x, y) >= Pow2(k) <==> (x >= Pow2(k)) != (y >= Pow2(k))
  {
    if k == 0 {
      assert x == 0 || x == 1;
      assert y == 0 || y == 1;
    } else {
      XorTopBit(x / 2, y / 2, k - 1);
    }
  }

  /** The runtime's test for a power of two: n and n - 1 share no bit. */
  lemma {:induction false} SingleBit(n: nat) returns (k: nat)
    requires n > 0 && And(n, n - 1) == 0
    ensures n == Pow2(k)
  {
    if n == 1 {
      k := 0;
    } else {
      SharesItself(n / 2);
      assert n % 2 == 1 ==> (n - 1) / 2 == n / 2;
      k := SingleBit(n / 2);
      k := k + 1;
    }
  }

  lemma {:induction false} SharesItself(n: nat)
    ensures And(n, n) == n
  {
    if n > 0 { SharesItself(n / 2); }
  }
}
