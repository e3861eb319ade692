/** The 32-bit division routines: an unrolled shift-and-subtract quotient, its signed
    form with a power-of-two path, and the quotient-and-remainder wrappers. */
module Division {
  import opened Words

  /** C's quotient, truncated toward zero (section 6.5.5 of ISO/IEC 9899:2011). */
  function Truncated(x: int, y: int): (q: int)
    requires y != 0
  {
    var magnitude := Abs(x) / Abs(y);
    if (x < 0) != (y < 0) then -magnitude else magnitude
  }

  function Abs(x: int): (m: nat) {
    if x < 0 then -x else x
  }

  /** A quotient is pinned down by its remainder. */
  lemma QuotientUnique(a: nat, b: nat, q: nat, r: nat)
    requires r < b && a == r + q * b
    ensures a / b == q && a % b == r
  {
    var d := a / b - q;
    assert a == (a / b) * b + a % b;
    assert d * b == r - a % b;
    assert d >= 1 ==> d * b >= b;
    assert d <= -1 ==> d * b + b <= 0;
  }

  // ----- the division loop -----

  /** Between two bit positions: `rest` is what is left of `a` after subtracting `q` times
      the shifted divisor, and `result` is `q` at the weight of that position. */
  ghost predicate Partial(a: nat, shifted: nat, weight: nat, q: nat, rest: nat, result: nat) {
    && result == q * weight
    && a == rest + q * shifted
    && rest < shifted
  }

  /** The conditional subtraction of one bit position: cmp, subhs, orrhs. */
  method TrySubtract(rest: Word, step: Word, result: Word, bit: Word) returns (rest': Word, result': Word)
    ensures rest' == if rest >= step then rest - step else rest
    ensures result' == if rest >= step then Or(result, bit) else result
  {
    rest', result' := rest, result;
    if rest >= step {
      rest' := rest - step;
      Pow2At32();
      OrBound(result, bit, 32);
      result' := Or(result, bit);
    }
  }

  /** One subtraction at half the weight keeps the partial quotient exact. */
  lemma HalveWeight(a: nat, step: nat, weight: nat, q: nat, rest: nat, result: nat)
    requires Partial(a, 2 * step, 2 * weight, q, rest, result)
    ensures if rest >= step
            then Partial(a, step, weight, 2 * q + 1, rest - step, result + weight)
            else Partial(a, step, weight, 2 * q, rest, result)
  {
  }

  /** What is known after the subtraction at weight 2^e: an exact partial quotient, and,
      once the weight has been shifted out (e < 0), the quotient itself. */
  ghost predicate Progress(a: nat, b: nat, e: int, q: nat, rest: nat, result: nat)
    requires b > 0
  {
    if e >= 0 then Partial(a, b * Pow2(e), Pow2(e), q, rest, result) else result == a / b
  }

  lemma ExactStep(a: nat, q: nat, e: nat, rest: nat, step: nat, result: nat, bit: nat) returns (q': nat)
    requires bit == Pow2(e) && Partial(a, 2 * step, 2 * bit, q, rest, result)
    ensures if rest >= step then Partial(a, step, bit, q', rest - step, Or(result, bit))
            else Partial(a, step, bit, q', rest, result)
  {
    HalveWeight(a, step, bit, q, rest, result);
    OrBelow(q, e);
    assert q * (2 * bit) == 2 * (q * bit);
    q' := if rest >= step then 2 * q + 1 else 2 * q;
  }

  /** A bit position at weight 2^e. */
  lemma StepAbove(a: nat, b: nat, e: nat, q: nat, rest: nat, step: nat, result: nat, bit: nat) returns (q': nat)
    requires b > 0 && bit == Pow2(e) && step == b * bit && Progress(a, b, e + 1, q, rest, result)
    ensures if rest >= step then Progress(a, b, e, q', rest - step, Or(result, bit))
            else Progress(a, b, e, q', rest, result)
  {
    assert Pow2(e + 1) == 2 * bit;
    assert b * (2 * bit) == 2 * step;
    q' := ExactStep(a, q, e, rest, step, result, bit);
  }

  /** Below weight 1 the result is the quotient already. */
  lemma StepBelow(a: nat, b: nat, e: int, q: nat, rest: nat, result: nat)
    requires b > 0 && e < 0 && Progress(a, b, e + 1, q, rest, result)
    ensures result == a / b
  {
    if e == -1 {
      assert Pow2(0) == 1 && b * 1 == b && q * 1 == q;
      QuotientUnique(a, b, q, rest);
    }
  }

  /** One bit position. Below weight 1 the shifted bit is zero: whatever is subtracted
      from the dividend, the result does not change. */
  method SubtractAt(ghost a: nat, ghost b: nat, ghost e: int, ghost q: nat,
                    rest: Word, step: Word, result: Word, bit: Word)
    returns (rest': Word, result': Word, ghost q': nat)
    requires b > 0 && Progress(a, b, e + 1, q, rest, result)
    requires if e >= 0 then bit == Pow2(e) && step == b * bit else bit == 0
    ensures rest' <= rest && Progress(a, b, e, q', rest', result')
  {
    rest', result' := TrySubtract(rest, step, result, bit);
    q' := q;
    if e >= 0 {
      q' := StepAbove(a, b, e, q, rest, step, result, bit);
    } else {
      StepBelow(a, b, e, q, rest, result);
    }
  }

  /** Exact halving of the shifted divisor and of the current bit. */
  lemma Halvings(b: nat, k: nat)
    ensures var c := Pow2(k);
      && (k >= 1 ==> c / 2 == Pow2(k - 1) && b * c / 2 == b * Pow2(k - 1))
      && (k >= 2 ==> c / 4 == Pow2(k - 2) && b * c / 4 == b * Pow2(k - 2))
      && (k >= 3 ==> c / 8 == Pow2(k - 3) && b * c / 8 == b * Pow2(k - 3))
      && (k >= 4 ==> c / 16 == Pow2(k - 4) && b * c / 16 == b * Pow2(k - 4))
      && (k < 1 ==> c / 2 == 0) && (k < 2 ==> c / 4 == 0) && (k < 3 ==> c / 8 == 0) && (k < 4 <==> c / 16 == 0)
  {
  }

  lemma LoopEntry(a: nat, b: nat, k: nat)
    requires b > 0 && a < 2 * (b * Pow2(k))
    ensures Progress(a, b, k + 1, 0, a, 0)
  {
  }

  /** Leaving the loop, at weight 1 or with nothing left: the result is the quotient. */
  lemma LoopExit(a: nat, b: nat, k: nat, q: nat, rest: nat, result: nat)
    requires b > 0 && Progress(a, b, k - 3, q, rest, result)
    requires rest == 0 || k < 4
    ensures result == a / b
  {
    if k == 3 {
      QuotientUnique(a, b, q, rest);
    } else if k > 3 {
      var p := Pow2(k - 3);
      assert q * (b * p) == (q * p) * b;
      QuotientUnique(a, b, result, 0);
    }
  }

  // ----- the routines -----

  /** The divisor and the current bit, scaled together by 2^k. */
  ghost predicate Scaled(d: nat, k: nat, divisor: int, bit: int) {
    bit == Pow2(k) && divisor == d * bit && bit <= divisor
  }

  lemma ScaledUp(d: nat, k: nat, divisor: int, bit: int)
    requires Scaled(d, k, divisor, bit)
    ensures Scaled(d, k + 1, 2 * divisor, 2 * bit)
  {
  }

  lemma ScaledUpBy4(d: nat, k: nat, divisor: int, bit: int)
    requires Scaled(d, k, divisor, bit)
    ensures Scaled(d, k + 4, 16 * divisor, 16 * bit)
  {
    ScaledUp(d, k, divisor, bit);
    ScaledUp(d, k + 1, 2 * divisor, 2 * bit);
    ScaledUp(d, k + 2, 4 * divisor, 4 * bit);
    ScaledUp(d, k + 3, 8 * divisor, 8 * bit);
  }

  /** Shifts left of a register that lose no bit. */
  method ShiftLeft4(x: Word) returns (r: Word)
    requires x < 0x1000_0000
    ensures r == 16 * x
  {
    r := Wrap(16 * x);
  }

  method ShiftLeft1(x: Word) returns (r: Word)
    requires x < 0x8000_0000
    ensures r == 2 * x
  {
    r := Wrap(2 * x);
  }

  /** `lsl #4` on the divisor and on the current bit. */
  method ShiftBy4(ghost d: nat, ghost k: nat, divisor: Word, bit: Word) returns (divisor': Word, bit': Word)
    requires Scaled(d, k, divisor, bit) && divisor < 0x1000_0000
    ensures Scaled(d, k + 4, divisor', bit') && divisor < divisor'
  {
    ScaledUpBy4(d, k, divisor, bit);
    divisor' := ShiftLeft4(divisor);
    bit' := ShiftLeft4(bit);
  }

  /** `lsl #1` on the divisor and on the current bit. */
  method ShiftBy1(ghost d: nat, ghost k: nat, divisor: Word, bit: Word) returns (divisor': Word, bit': Word)
    requires Scaled(d, k, divisor, bit) && divisor < 0x8000_0000
    ensures Scaled(d, k + 1, divisor', bit') && divisor < divisor'
  {
    ScaledUp(d, k, divisor, bit);
    divisor' := ShiftLeft1(divisor);
    bit' := ShiftLeft1(bit);
  }

  /** The two scaling loops: the divisor is shifted left, the current bit with it, by four
      places while it is below 2^28 and then by one while it is below 2^31, as long as it
      is below the dividend. No shift loses a bit. */
  method ScaleDivisor(ghost d: nat, ghost k0: nat, dividend: Word, divisor: Word, curbit: Word)
    returns (divisor': Word, curbit': Word, ghost k: nat)
    requires Scaled(d, k0, divisor, curbit)
    ensures Scaled(d, k, divisor', curbit') && dividend < 2 * divisor'
  {
    divisor', curbit', k := divisor, curbit, k0;
    while divisor' < 0x1000_0000 && divisor' < dividend
      invariant Scaled(d, k, divisor', curbit')
      decreases dividend - divisor'
    {
      divisor', curbit' := ShiftBy4(d, k, divisor', curbit');
      k := k + 4;
    }
    while divisor' < 0x8000_0000 && divisor' < dividend
      invariant Scaled(d, k, divisor', curbit')
      decreases dividend - divisor'
    {
      divisor', curbit' := ShiftBy1(d, k, divisor', curbit');
      k := k + 1;
    }
  }

  /** The unrolled division loop, from a divisor and a bit scaled together. */
  method DivisionLoop(ghost b: nat, ghost k0: nat, dividend: Word, divisor: Word, curbit: Word)
    returns (result: Word)
    requires b > 0 && Scaled(b, k0, divisor, curbit) && dividend < 2 * divisor
    ensures result == dividend / b
  {
    var rest, divisor, curbit := dividend, divisor, curbit;
    ghost var q, k := 0, k0;
    result := 0;
    LoopEntry(dividend, b, k);
    while true
      invariant curbit == Pow2(k) && divisor == b * curbit
      invariant Progress(dividend, b, k + 1, q, rest, result)
      decreases k
    {
      Halvings(b, k);
      ghost var e: int := k;
      rest, result, q := SubtractAt(dividend, b, k, q, rest, divisor, result, curbit);
      rest, result, q := SubtractAt(dividend, b, e - 1, q, rest, divisor / 2, result, curbit / 2);
      rest, result, q := SubtractAt(dividend, b, e - 2, q, rest, divisor / 4, result, curbit / 4);
      rest, result, q := SubtractAt(dividend, b, e - 3, q, rest, divisor / 8, result, curbit / 8);
      if rest == 0 || curbit / 16 == 0 {
        LoopExit(dividend, b, k, q, rest, result);
        break;
      }
      curbit, divisor, k := curbit / 16, divisor / 16, k - 4;
    }
  }

  /** `__udivsi3`, `__aeabi_uidiv`. */
  method Udivsi3(dividend: Word, divisor: Word) returns (r: Outcome)
    ensures r == if divisor == 0 then DivideByZero else Value(dividend / divisor)
  {
    if divisor == 0 {
      return DivideByZero;
    }
    if dividend < divisor {
      return Value(0);
    }
    var shifted, curbit, k := ScaleDivisor(divisor, 0, dividend, divisor, 1);
    var result := DivisionLoop(divisor, k, dividend, shifted, curbit);
    return Value(result);
  }

  /** `ARM_DIV_BODY`: the same loops behind a first shift by three when the top three bits
      of the divisor are clear. */
  method ArmDivBody(dividend: Word, divisor: Word) returns (result: Word)
    requires divisor > 0
    ensures result == dividend / divisor
  {
    var shifted, curbit := divisor, 1;
    ghost var k := 0;
    if divisor < 0x2000_0000 {
      shifted, curbit, k := Wrap(8 * divisor), 8, 3;
      assert Scaled(divisor, 1, 2 * divisor, 2);
      assert Scaled(divisor, 2, 4 * divisor, 4);
    }
    shifted, curbit, k := ScaleDivisor(divisor, k, dividend, shifted, curbit);
    result := DivisionLoop(divisor, k, dividend, shifted, curbit);
  }

  lemma {:induction false} DropBits(k: nat, j: nat)
    ensures Pow2(k) >= Pow2(j) <==> k >= j
    ensures k >= j ==> Pow2(k) == Pow2(k - j) * Pow2(j) && Pow2(k) / Pow2(j) == Pow2(k - j)
  {
    if k < j {
      Pow2Monotone(k, j - 1);
    } else {
      Pow2Monotone(j, k);
      if j > 0 {
        DropBits(k - 1, j - 1);
        assert Pow2(k) == 2 * (Pow2(k - j) * Pow2(j - 1)) == Pow2(k - j) * Pow2(j);
      }
      QuotientUnique(Pow2(k), Pow2(j), Pow2(k - j), 0);
    }
  }

  /** One bisection step: cmp, movhs, addhs. */
  method HalveOrder(d: Word, order: Word, ghost rest: nat, shift: Word)
    returns (d': Word, order': Word, ghost rest': nat)
    requires d == Pow2(rest) && rest < 2 * shift && order + rest < 32
    ensures d' == Pow2(rest') && rest' < shift && order' + rest' == order + rest
  {
    d', order', rest' := d, order, rest;
    DropBits(rest, shift);
    if d >= Pow2(shift) {
      d', order', rest' := d / Pow2(shift), order + shift, rest - shift;
    }
  }

  /** `ARM_DIV2_ORDER`: the exponent of a power of two, by bisection. */
  method ArmDiv2Order(divisor: Word, ghost k: nat) returns (order: Word)
    requires divisor == Pow2(k)
    ensures order == k
  {
    var d := divisor;
    ghost var rest := k;
    Pow2At32();
    DropBits(k, 32);
    d, order, rest := HalveOrder(d, 0, rest, 16);
    d, order, rest := HalveOrder(d, order, rest, 8);
    d, order, rest := HalveOrder(d, order, rest, 4);
    assert rest == 0 || rest == 1 || rest == 2 || rest == 3;
    if d > 4 { order := order + 3; } else { order := order + d / 2; }
  }

  /** The sign bit of the exclusive or of the operands is the sign of the quotient. */
  lemma SignOfResult(x: Word, y: Word)
    ensures Xor(x, y) < WORDS && (Negative(Xor(x, y)) <==> Negative(x) != Negative(y))
  {
    Pow2At32();
    XorTopBit(x, y, 31);
  }

  /** The quotient word from its magnitude and whether the signs differ. */
  lemma SignedQuotient(x: Word, y: Word, magnitude: Word)
    requires y != 0 && magnitude == Abs(Signed(x)) / Abs(Signed(y))
    ensures Wrap(Truncated(Signed(x), Signed(y)))
         == if Negative(x) != Negative(y) then Neg(magnitude) else magnitude
  {
  }

  lemma DivideByUnit(x: Word, y: Word)
    requires y == 1 || y == WORDS - 1
    ensures Wrap(Truncated(Signed(x), Signed(y))) == if Negative(y) then Neg(x) else x
  {
  }

  method Magnitude(x: Word) returns (m: Word)
    ensures m == Abs(Signed(x))
  {
    m := if Negative(x) then Neg(x) else x;
  }

  /** `__divsi3`, `__aeabi_idiv`: the quotient truncated toward zero, modulo 2^32. */
  method Divsi3(r0: Word, r1: Word) returns (r: Outcome)
    ensures r == if r1 == 0 then DivideByZero else Value(Wrap(Truncated(Signed(r0), Signed(r1))))
  {
    SignOfResult(r0, r1);
    var ip := Xor(r0, r1);
    if r1 == 0 {
      return DivideByZero;
    }
    var divisor := Magnitude(r1);
    if divisor - 1 == 0 {
      // Division by 1 or -1: the sign of ip differs from that of r0 when r1 is negative.
      SignOfResult(ip, r0);
      DivideByUnit(r0, r1);
      return Value(if Negative(Xor(ip, r0)) then Neg(r0) else r0);
    }
    var dividend := Magnitude(r0);
    if dividend <= divisor {
      var below := dividend < divisor;
      QuotientUnique(dividend, divisor, if below then 0 else 1, if below then dividend else 0);
      SignedQuotient(r0, r1, if dividend < divisor then 0 else 1);
      AllOnes();
      return Value(if dividend < divisor then 0 else Or(if Negative(ip) then 0xffff_ffff else 0, 1));
    }
    var result := UnsignedQuotient(dividend, divisor);
    SignedQuotient(r0, r1, result);
    return Value(if Negative(ip) then Neg(result) else result);
  }

  method ShiftQuotient(dividend: Word, divisor: Word, ghost k: nat) returns (result: Word)
    requires divisor == Pow2(k)
    ensures result == dividend / divisor
  {
    var order := ArmDiv2Order(divisor, k);
    var power := Pow2(order);
    QuotientMagnitude(dividend, power);
    result := dividend / power;
  }

  /** The last two routes: a shift when the divisor is a power of two, else the loops. */
  method UnsignedQuotient(dividend: Word, divisor: Word) returns (result: Word)
    requires divisor > 0
    ensures result == dividend / divisor
  {
    if And(divisor, divisor - 1) == 0 {
      ghost var k := SingleBit(divisor);
      result := ShiftQuotient(dividend, divisor, k);
    } else {
      result := ArmDivBody(dividend, divisor);
    }
  }

  lemma AllOnes()
    ensures Or(0xffff_ffff, 1) == 0xffff_ffff && Or(0, 1) == 1
  {
  }

  lemma QuotientMagnitude(m: nat, n: nat)
    requires n > 0
    ensures m / n <= m
    ensures m / n == m <==> n == 1 || m == 0
  {
    assert m == (m / n) * n + m % n;
    assert n >= 2 ==> (m / n) * n >= 2 * (m / n);
  }

  /** The wrapped quotient is the true one except for -2^31 / -1. */
  lemma QuotientFits(x: Word, y: Word)
    requires y != 0
    ensures Signed(Wrap(Truncated(Signed(x), Signed(y)))) == Truncated(Signed(x), Signed(y))
       <==> !(x == SIGN && y == WORDS - 1)
  {
    var m, n := Abs(Signed(x)), Abs(Signed(y));
    QuotientMagnitude(m, n);
    QuotientRange(x, y, m / n);
  }

  lemma QuotientRange(x: Word, y: Word, magnitude: nat)
    requires y != 0 && magnitude <= Abs(Signed(x))
    requires magnitude == Abs(Signed(x)) <==> Abs(Signed(y)) == 1 || x == 0
    ensures var q := if Negative(x) != Negative(y) then -(magnitude as int) else magnitude;
      Signed(Wrap(q)) == q <==> !(x == SIGN && y == WORDS - 1)
  {
  }

  // ----- quotient and remainder -----

  lemma WrapUnique(x: int, k: int, r: int)
    requires x == k * WORDS + r && 0 <= r < WORDS
    ensures Wrap(x) == r
  {
  }

  lemma WrapProduct(x: int, y: int)
    ensures Wrap(Wrap(x) * Wrap(y)) == Wrap(x * y)
  {
    var i, j := x / WORDS, y / WORDS;
    var u, v := Wrap(x), Wrap(y);
    assert x == i * WORDS + u && y == j * WORDS + v;
    assert x * y == (i * j * WORDS + i * v + j * u) * WORDS + u * v;
    WrapUnique(x * y, i * j * WORDS + i * v + j * u + u * v / WORDS, Wrap(u * v));
  }

  lemma SignedWrap(s: int)
    requires -SIGN <= s < SIGN
    ensures Signed(Wrap(s)) == s
  {
  }

  lemma WrapDifference(x: int, y: int)
    ensures Wrap(Wrap(x) - Wrap(y)) == Wrap(x - y)
  {
  }

  /** The remainder that C pairs with the truncated quotient. */
  function Remainder(x: int, y: int): (r: int)
    requires y != 0
  {
    x - Truncated(x, y) * y
  }

  /** It is smaller than the divisor and zero or of the dividend's sign. */
  lemma RemainderBounds(x: int, y: int)
    requires y != 0
    ensures Abs(Remainder(x, y)) < Abs(y)
    ensures Remainder(x, y) == 0 || (Remainder(x, y) < 0 <==> x < 0)
  {
  }

  lemma WrapRest(a: Word, product: nat, r: nat)
    requires a == product + r
    ensures Wrap(a - Wrap(product)) == r
  {
  }

  lemma UnsignedRemainder(a: Word, b: Word, q: nat)
    requires b != 0 && q == a / b
    ensures Wrap(a - Wrap(q * b)) == a % b
  {
    WrapRest(a, q * b, a % b);
  }

  /** `__aeabi_uidivmod`. */
  method Uidivmod(a: Word, b: Word) returns (q: Outcome, r: Outcome)
    ensures b == 0 ==> q == r == DivideByZero
    ensures b != 0 ==> q == Value(a / b) && r == Value(a % b)
  {
    q := Udivsi3(a, b);
    if q.DivideByZero? {
      return q, q;
    }
    var product := Wrap(q.word * b);
    UnsignedRemainder(a, b, q.word);
    r := Value(Wrap(a - product));
  }

  /** Multiplying back and subtracting modulo 2^32 gives the remainder's word. */
  lemma RemainderWord(a: Word, b: Word)
    requires b != 0
    ensures var q := Wrap(Truncated(Signed(a), Signed(b)));
      Signed(Wrap(a - Wrap(q * b))) == Remainder(Signed(a), Signed(b))
  {
    var x, y := Signed(a), Signed(b);
    var q := Truncated(x, y);
    WrapProduct(q, y);
    WrapDifference(x, q * y);
    RemainderBounds(x, y);
    SignedWrap(Remainder(x, y));
  }

  /** `__aeabi_idivmod`. */
  method Idivmod(a: Word, b: Word) returns (q: Outcome, r: Outcome)
    ensures b == 0 ==> q == r == DivideByZero
    ensures b != 0 ==> q == Value(Wrap(Truncated(Signed(a), Signed(b))))
    ensures b != 0 ==> r.Value? && Signed(r.word) == Remainder(Signed(a), Signed(b))
  {
    q := Divsi3(a, b);
    if q.DivideByZero? {
      return q, q;
    }
    RemainderWord(a, b);
    var product := Wrap(q.word * b);
    r := Value(Wrap(a - product));
  }
}
