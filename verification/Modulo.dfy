/** The 32-bit unsigned remainder. The last pass of its loop may subtract too much; the
    subtractions are recorded in a rotated mask and the superfluous ones undone. The
    registers that hold masks are bit vectors, those that hold numbers are words. */
module Modulo {
  import opened Words
  import Division

  // ----- the current bit -----

  predicate OneBit(c: bv32) {
    c != 0 && c & (c - 1) == 0
  }

  /** The number a single bit stands for. */
  function Weight(c: bv32): (w: nat)
    ensures w >= 1
    decreases c
  {
    if c <= 1 then 1 else 2 * Weight(c >> 1)
  }

  lemma WeightUp(c: bv32)
    requires OneBit(c) && c < 0x8000_0000
    ensures OneBit(c << 1) && Weight(c << 1) == 2 * Weight(c)
  {
  }

  lemma WeightUpBy4(c: bv32)
    requires OneBit(c) && c < 0x1000_0000
    ensures OneBit(c << 4) && Weight(c << 4) == 16 * Weight(c)
  {
    WeightUp(c);
    WeightUp(c << 1);
    WeightUp(c << 2);
    WeightUp(c << 3);
    assert (c << 1) << 1 == c << 2 && (c << 2) << 1 == c << 3 && (c << 3) << 1 == c << 4;
  }

  lemma WeightDownBy4(c: bv32)
    requires OneBit(c)
    ensures c >> 4 == 0 <==> c < 16
    ensures c >= 16 ==> OneBit(c >> 4) && Weight(c) == 16 * Weight(c >> 4) && (c >> 4) < 0x1000_0000
  {
    if c >= 16 {
      assert (c >> 4) << 4 == c;
      WeightUpBy4(c >> 4);
    }
  }

  lemma {:induction false} WeightMonotone(c: bv32, d: bv32)
    requires OneBit(c) && OneBit(d) && c < d
    ensures Weight(c) < Weight(d)
    decreases c
  {
    if c > 1 { WeightMonotone(c >> 1, d >> 1); }
  }

  lemma WeightBound(c: bv32, d: bv32)
    requires OneBit(c) && OneBit(d)
    ensures c < d <==> Weight(c) < Weight(d)
  {
  }

  lemma WeightValues()
    ensures Weight(1) == 1 && Weight(2) == 2 && Weight(4) == 4 && Weight(8) == 8 && Weight(16) == 16
    ensures Weight(0x1000_0000) == 0x1000_0000
    ensures Weight(0x2000_0000) == 0x2000_0000
    ensures Weight(0x4000_0000) == 0x4000_0000 && Weight(0x8000_0000) == 0x8000_0000
  {
    WeightUpBy4(0x1);
    WeightUpBy4(0x10);
    WeightUpBy4(0x100);
    WeightUpBy4(0x1000);
    WeightUpBy4(0x1_0000);
    WeightUpBy4(0x10_0000);
    WeightUpBy4(0x100_0000);
    WeightUp(0x1000_0000);
    WeightUp(0x2000_0000);
    WeightUp(0x4000_0000);
  }

  lemma WeightBounds(c: bv32)
    requires OneBit(c)
    ensures c < 16 ==> c == 1 || c == 2 || c == 4 || c == 8
    ensures Weight(1) == 1 && Weight(2) == 2 && Weight(4) == 4 && Weight(8) == 8
    ensures c < 16 <==> Weight(c) < 16
    ensures c < 0x1000_0000 <==> Weight(c) < 0x1000_0000
    ensures c <= 0x1000_0000 <==> Weight(c) <= 0x1000_0000
    ensures c < 0x4000_0000 ==> Weight(c) <= 0x2000_0000
    ensures c >= 0x8000_0000 ==> Weight(c) == 0x8000_0000
    ensures c >= 0x4000_0000 && c < 0x8000_0000 ==> Weight(c) == 0x4000_0000
  {
    WeightValues();
    WeightBound(c, 16);
    WeightBound(c, 0x1000_0000);
    WeightBound(0x1000_0000, c);
    WeightBound(0x2000_0000, c);
    assert c < 0x4000_0000 ==> c <= 0x2000_0000;
    assert c >= 0x4000_0000 ==> c == 0x4000_0000 || c == 0x8000_0000;
  }

  // ----- the record of subtractions -----

  /** A conditional orr. */
  function Record(o: bv32, done: bool, bit: bv32): bv32 {
    if done then o | bit else o
  }

  /** `overdone` after the three conditional orrs of a pass. */
  function Recorded(c: bv32, s1: bool, s2: bool, s3: bool): bv32 {
    Record(Record(Record(0, s1, c.RotateRight(1)), s2, c.RotateRight(2)), s3, c.RotateRight(3))
  }

  /** A fix-up fires for a recorded subtraction whose bit fell off the bottom, and also for
      one whose bit is still among the top three. */
  lemma FixupsFire(c: bv32, s1: bool, s2: bool, s3: bool)
    requires OneBit(c)
    ensures var o := Recorded(c, s1, s2, s3) & 0xe000_0000;
      && (o & c.RotateRight(1) != 0 <==> s1 && (c < 2 || c >= 0x4000_0000))
      && (o & c.RotateRight(2) != 0 <==> s2 && (c < 4 || c >= 0x8000_0000))
      && (o & c.RotateRight(3) != 0 <==> s3 && c < 8)
  {
  }

  // ----- one pass of the loop -----

  function After(rest: nat, step: nat): (r: nat)
    ensures r <= rest
  {
    if rest >= step then rest - step else rest
  }

  lemma Twice(b: nat, w: nat, u: nat)
    requires u == b * w
    ensures 2 * u == b * (2 * w)
  {
  }

  /** Subtracting a multiple of b that the rest exceeds at most twice. */
  lemma AfterExact(a: nat, b: nat, m: nat, rest: nat, w: nat, u: nat) returns (m': nat)
    requires u == b * w && a == rest + m * b && rest < 2 * u
    ensures After(rest, u) < u && a == After(rest, u) + m' * b
  {
    m' := if rest >= u then m + w else m;
    assert (m + w) * b == m * b + u;
  }

  // What is left after the first 1, 2, 3 and 4 subtractions of a pass.
  function R1(rest: nat, divisor: nat): nat { After(rest, divisor) }
  function R2(rest: nat, divisor: nat): nat { After(R1(rest, divisor), divisor / 2) }
  function R3(rest: nat, divisor: nat): nat { After(R2(rest, divisor), divisor / 4) }
  function R4(rest: nat, divisor: nat): nat { After(R3(rest, divisor), divisor / 8) }

  // Which of the last three are done, and recorded.
  predicate S1(rest: nat, divisor: nat) { R1(rest, divisor) >= divisor / 2 }
  predicate S2(rest: nat, divisor: nat) { R2(rest, divisor) >= divisor / 4 }
  predicate S3(rest: nat, divisor: nat) { R3(rest, divisor) >= divisor / 8 }

  /** The rest after undoing the subtractions that fire for the current bit `c`. */
  function Undone(rest: nat, divisor: nat, c: bv32): nat {
    R4(rest, divisor)
    + (if S3(rest, divisor) && c < 8 then divisor / 8 else 0)
    + (if S2(rest, divisor) && (c < 4 || c >= 0x8000_0000) then divisor / 4 else 0)
    + (if S1(rest, divisor) && (c < 2 || c >= 0x4000_0000) then divisor / 2 else 0)
  }

  // While the bit stays above the bottom, every subtraction is of a multiple of b.
  lemma Exact2(a: nat, b: nat, m: nat, rest: nat, w: nat, u: nat) returns (m': nat)
    requires u == b * w && a == rest + m * b && rest < 4 * u
    ensures R2(rest, 2 * u) < u && a == R2(rest, 2 * u) + m' * b
  {
    Twice(b, w, u);
    m' := AfterExact(a, b, m, rest, 2 * w, 2 * u);
    m' := AfterExact(a, b, m', R1(rest, 2 * u), w, u);
  }

  lemma Exact3(a: nat, b: nat, m: nat, rest: nat, w: nat, u: nat) returns (m': nat)
    requires u == b * w && a == rest + m * b && rest < 8 * u
    ensures R3(rest, 4 * u) < u && a == R3(rest, 4 * u) + m' * b
  {
    Twice(b, w, u);
    m' := Exact2(a, b, m, rest, 2 * w, 2 * u);
    m' := AfterExact(a, b, m', R2(rest, 4 * u), w, u);
  }

  lemma Exact4(a: nat, b: nat, m: nat, rest: nat, w: nat, u: nat) returns (m': nat)
    requires u == b * w && a == rest + m * b && rest < 16 * u
    ensures R4(rest, 8 * u) < u && a == R4(rest, 8 * u) + m' * b
  {
    Twice(b, w, u);
    m' := Exact3(a, b, m, rest, 2 * w, 2 * u);
    m' := AfterExact(a, b, m', R3(rest, 8 * u), w, u);
  }

  /** In the last pass the fix-ups undo exactly the subtractions below weight 1. */
  lemma UndoneInLastPass(rest: nat, d: nat)
    ensures Undone(rest, d, 1) == R1(rest, d) && Undone(rest, d, 2) == R2(rest, d)
    ensures Undone(rest, d, 4) == R3(rest, d) && Undone(rest, d, 8) == R4(rest, d)
  {
  }

  /** So they leave the remainder, whatever was subtracted. */
  lemma LastPass(a: nat, b: nat, m: nat, rest: nat, c: bv32)
    requires b > 0 && (c == 1 || c == 2 || c == 4 || c == 8)
    requires a == rest + m * b && rest < 2 * (b * Weight(c))
    ensures Undone(rest, b * Weight(c), c) == a % b
  {
    WeightValues();
    var d, m' := b * Weight(c), 0;
    UndoneInLastPass(rest, d);
    if c == 1 {
      assert d == b;
      m' := AfterExact(a, b, m, rest, 1, b);
    } else if c == 2 {
      assert d == 2 * b;
      m' := Exact2(a, b, m, rest, 1, b);
    } else if c == 4 {
      assert d == 4 * b;
      m' := Exact3(a, b, m, rest, 1, b);
    } else {
      assert d == 8 * b;
      m' := Exact4(a, b, m, rest, 1, b);
    }
    Division.QuotientUnique(a, b, m', Undone(rest, d, c));
  }

  // ----- when the early exit is mistaken for the last pass -----

  /** The inputs for which a fix-up fires that should not: a divisor below 4, a dividend so
      large that the current bit starts at 2^30 or above, and a first pass that leaves
      nothing after a subtraction whose bit is among the top three. */
  predicate Misfires(a: Word, b: Word) {
    && 0 < b < 4
    && if b == 1 && a > 0x4000_0000
       then a % 0x1000_0000 == 0 && a / 0x1000_0000 % 8 >= 2
       else var unit := b * 0x800_0000; a > 4 * unit && a % unit == 0 && a / unit % 8 >= 4
  }

  /** The first pass leaves the remainder modulo an eighth of the scaled divisor, and
      records two of the four bits of the quotient. */
  lemma FirstPass(a: nat, unit: nat)
    requires 0 < unit && a < 16 * unit
    ensures R4(a, 8 * unit) == a % unit
    ensures S1(a, 8 * unit) <==> a / unit % 8 >= 4
    ensures S2(a, 8 * unit) <==> a / unit % 4 >= 2
  {
    var t := a / unit;
    SmallQuotient(a, unit);
    Binary(t, unit);
    FourBits(a, unit, a % unit, t >= 8, t % 8 >= 4, t % 4 >= 2, t % 2 == 1);
  }

  lemma SmallQuotient(a: nat, unit: nat)
    requires 0 < unit && a < 16 * unit
    ensures a / unit < 16 && a == a / unit * unit + a % unit
  {
  }

  lemma Binary(t: nat, unit: nat)
    requires t < 16
    ensures t * unit == (if t >= 8 then 8 * unit else 0) + (if t % 8 >= 4 then 4 * unit else 0)
                      + (if t % 4 >= 2 then 2 * unit else 0) + (if t % 2 == 1 then unit else 0)
  {
    Bits(t);
    LowBit(t, unit);
    LowBit(t / 2, unit);
    LowBit(t / 4, unit);
    LowBit(t / 8, unit);
  }

  lemma Bits(t: nat)
    requires t < 16
    ensures t / 2 / 2 == t / 4 && t / 4 / 2 == t / 8 && t / 8 / 2 == 0
    ensures (t / 2 % 2 == 1 <==> t % 4 >= 2) && (t / 4 % 2 == 1 <==> t % 8 >= 4) && (t / 8 % 2 == 1 <==> t >= 8)
  {
  }

  lemma LowBit(t: nat, unit: nat)
    ensures t * unit == 2 * (t / 2 * unit) + (if t % 2 == 1 then unit else 0)
  {
  }

  lemma FourBits(a: nat, unit: nat, r: nat, b3: bool, b2: bool, b1: bool, b0: bool)
    requires r < unit
    requires a == (if b3 then 8 * unit else 0) + (if b2 then 4 * unit else 0)
               + (if b1 then 2 * unit else 0) + (if b0 then unit else 0) + r
    ensures R4(a, 8 * unit) == r && S1(a, 8 * unit) == b2 && S2(a, 8 * unit) == b1
  {
    TopBits(a, unit, (if b1 then 2 * unit else 0) + (if b0 then unit else 0) + r, b3, b2);
  }

  lemma TopBits(a: nat, unit: nat, low: nat, b3: bool, b2: bool)
    requires low < 4 * unit && a == (if b3 then 8 * unit else 0) + (if b2 then 4 * unit else 0) + low
    ensures R2(a, 8 * unit) == low && S1(a, 8 * unit) == b2
  {
  }

  /** What the scaling loops establish for a dividend not below the divisor. */
  ghost predicate ScaledFor(a: nat, b: nat, divisor: nat, c: bv32) {
    && OneBit(c) && divisor == b * Weight(c)
    && a < 2 * divisor
    && (c > 0x1000_0000 ==> divisor < 2 * a)
    && (divisor >= SIGN || divisor >= a)
  }

  /** A pass that leaves nothing, after a subtraction recorded in the top three bits. */
  predicate EarlyFire(rest: nat, divisor: nat, c: bv32) {
    R4(rest, divisor) == 0 && ((S1(rest, divisor) && c >= 0x4000_0000) || (S2(rest, divisor) && c >= 0x8000_0000))
  }

  /** A first pass fires early exactly on `Misfires`. */
  lemma MisfiresInFirstPass(a: Word, b: Word, divisor: Word, c: bv32)
    requires b > 0 && ScaledFor(a, b, divisor, c)
    ensures Misfires(a, b) <==> EarlyFire(a, divisor, c)
  {
    WeightBounds(c);
    if c >= 0x8000_0000 {
      TopScale(a, b);
    } else if c >= 0x4000_0000 {
      HighScale(a, b);
    } else {
      SmallScale(a, b, divisor, Weight(c));
    }
  }

  lemma TopScale(a: Word, b: Word)
    requires b > 0 && b * 0x8000_0000 < WORDS && 0x4000_0000 < a
    ensures b == 1
    ensures Misfires(a, b) <==> R4(a, SIGN) == 0 && (S1(a, SIGN) || S2(a, SIGN))
  {
    FirstPass(a, 0x1000_0000);
  }

  lemma HighScale(a: Word, b: Word)
    requires b > 0 && b * 0x4000_0000 < WORDS && b * 0x2000_0000 < a
    requires b * 0x4000_0000 >= SIGN || b * 0x4000_0000 >= a
    ensures Misfires(a, b) <==> R4(a, b * 0x4000_0000) == 0 && S1(a, b * 0x4000_0000)
  {
    assert b == 1 || b == 2 || b == 3;
    FirstPass(a, b * 0x800_0000);
  }

  lemma SmallScale(a: Word, b: Word, divisor: Word, w: nat)
    requires b > 0 && divisor == b * w && w <= 0x2000_0000 && (divisor >= SIGN || divisor >= a)
    ensures !Misfires(a, b)
  {
  }

  ghost predicate Scaled(b: nat, divisor: nat, c: bv32) {
    OneBit(c) && divisor == b * Weight(c) && Weight(c) <= divisor
  }

  /** `lsl #4` on the divisor and the current bit, which moves by whole nibbles. */
  method ShiftBy4(ghost b: nat, divisor: Word, c: bv32) returns (divisor': Word, c': bv32)
    requires Scaled(b, divisor, c) && divisor < 0x1000_0000 && c & 0x1111_1111 == c
    ensures Scaled(b, divisor', c') && divisor < divisor' && c' & 0x1111_1111 == c' && c' <= 0x1000_0000
  {
    WeightBounds(c);
    WeightUpBy4(c);
    assert b * (16 * Weight(c)) == 16 * (b * Weight(c));
    divisor', c' := Wrap(16 * divisor), c << 4;
    assert divisor' == 16 * divisor;
  }

  /** `lsl #1` on both. */
  method ShiftBy1(ghost b: nat, divisor: Word, c: bv32) returns (divisor': Word, c': bv32)
    requires Scaled(b, divisor, c) && divisor < 0x8000_0000
    ensures Scaled(b, divisor', c') && divisor' == 2 * divisor && divisor < divisor'
  {
    WeightBounds(c);
    WeightUp(c);
    assert b * (2 * Weight(c)) == 2 * (b * Weight(c));
    divisor', c' := Wrap(2 * divisor), c << 1;
    assert divisor' == 2 * divisor;
  }

  /** The two scaling loops. */
  method Scale(a: Word, b: Word) returns (divisor: Word, curbit: bv32)
    requires 0 < b <= a
    ensures ScaledFor(a, b, divisor, curbit)
  {
    divisor, curbit := b, 1;
    while divisor < 0x1000_0000 && divisor < a
      invariant Scaled(b, divisor, curbit) && curbit & 0x1111_1111 == curbit
      decreases a - divisor
    {
      divisor, curbit := ShiftBy4(b, divisor, curbit);
    }
    while divisor < 0x8000_0000 && divisor < a
      invariant Scaled(b, divisor, curbit)
      invariant curbit > 0x1000_0000 ==> divisor < 2 * a
      decreases a - divisor
    {
      divisor, curbit := ShiftBy1(b, divisor, curbit);
    }
  }

  /** cmp, subcs, orrcs. */
  method Subtract(rest: Word, step: Word, overdone: bv32, bit: bv32) returns (rest': Word, overdone': bv32)
    ensures rest' == After(rest, step) && overdone' == Record(overdone, rest >= step, bit)
  {
    rest', overdone' := rest, overdone;
    if rest >= step {
      rest', overdone' := rest - step, overdone | bit;
    }
  }

  /** One pass of the division loop: the four compares. */
  method Pass(dividend: Word, divisor: Word, curbit: bv32) returns (rest: Word, overdone: bv32)
    ensures rest == R4(dividend, divisor)
    ensures overdone == Recorded(curbit, S1(dividend, divisor), S2(dividend, divisor), S3(dividend, divisor))
  {
    overdone := 0;
    rest := if dividend >= divisor then dividend - divisor else dividend;
    rest, overdone := Subtract(rest, divisor / 2, overdone, curbit.RotateRight(1));
    rest, overdone := Subtract(rest, divisor / 4, overdone, curbit.RotateRight(2));
    rest, overdone := Subtract(rest, divisor / 8, overdone, curbit.RotateRight(3));
  }

  /** Undoing every recorded subtraction walks the pass back. */
  lemma WalkBack(rest: nat, d: nat)
    ensures R4(rest, d) + (if S3(rest, d) then d / 8 else 0) == R3(rest, d)
    ensures R3(rest, d) + (if S2(rest, d) then d / 4 else 0) == R2(rest, d)
    ensures R2(rest, d) + (if S1(rest, d) then d / 2 else 0) == R1(rest, d) <= rest
  {
  }

  /** The fix-ups after the loop. */
  method FixUp(ghost head: Word, rest: Word, divisor: Word, recorded: bv32, ip: bv32) returns (r: Word)
    requires OneBit(ip) && rest == R4(head, divisor)
    requires recorded == Recorded(ip, S1(head, divisor), S2(head, divisor), S3(head, divisor))
    ensures r == Undone(head, divisor, ip)
  {
    FixupsFire(ip, S1(head, divisor), S2(head, divisor), S3(head, divisor));
    WalkBack(head, divisor);
    var overdone := recorded & 0xe000_0000;
    if overdone == 0 {
      return rest;
    }
    r := AddBack(rest, overdone & ip.RotateRight(3) != 0, divisor / 8);
    r := AddBack(r, overdone & ip.RotateRight(2) != 0, divisor / 4);
    r := AddBack(r, overdone & ip.RotateRight(1) != 0, divisor / 2);
  }

  /** tst, addne. */
  method AddBack(r: Word, fires: bool, step: Word) returns (r': Word)
    requires r + step < WORDS || !fires
    ensures r' == if fires then r + step else r
  {
    r' := if fires then Wrap(r + step) else r;
  }

  /** The state at the head of the division loop. */
  ghost predicate AtHead(a: nat, b: nat, m: nat, dividend: nat, divisor: nat, c: bv32) {
    OneBit(c) && divisor == b * Weight(c) && a == dividend + m * b && dividend < 2 * divisor
  }

  lemma NextPass(a: nat, b: nat, m: nat, dividend: nat, divisor: nat, c: bv32) returns (m': nat)
    requires AtHead(a, b, m, dividend, divisor, c) && c >= 16
    ensures AtHead(a, b, m', R4(dividend, divisor), divisor / 16, c >> 4)
    ensures (c >> 4) < 0x1000_0000
  {
    WeightDownBy4(c);
    var w := Weight(c >> 4);
    var u := b * w;
    Twice(b, w, u);
    Sixteenfold(b, w, u);
    m' := Exact4(a, b, m, dividend, 2 * w, 2 * u);
  }

  lemma Sixteenfold(b: nat, w: nat, u: nat)
    requires u == b * w
    ensures 16 * u == b * (16 * w)
  {
  }

  lemma ProductAtLeast(b: nat, w: nat)
    requires b > 0
    ensures w <= b * w
  {
  }

  /** Leaving the loop, the fix-ups give the remainder unless one fires by mistake. */
  lemma AtExit(a: nat, b: nat, m: nat, dividend: nat, divisor: nat, c: bv32)
    requires b > 0 && AtHead(a, b, m, dividend, divisor, c)
    requires R4(dividend, divisor) == 0 || c < 16
    ensures Undone(dividend, divisor, c) == a % b <==> !EarlyFire(dividend, divisor, c)
  {
    if c < 16 {
      WeightBounds(c);
      LastPass(a, b, m, dividend, c);
    } else {
      var m' := NextPass(a, b, m, dividend, divisor, c);
      Division.QuotientUnique(a, b, m', 0);
      WeightBounds(c);
      ProductAtLeast(b, Weight(c));
    }
  }

  /** `rest` and `overdone` are what a pass from `dividend` leaves. */
  ghost predicate Passed(dividend: nat, divisor: nat, c: bv32, rest: nat, overdone: bv32) {
    && rest == R4(dividend, divisor)
    && overdone == Recorded(c, S1(dividend, divisor), S2(dividend, divisor), S3(dividend, divisor))
  }

  lemma EarlyOnlyInFirstPass(dividend: nat, divisor: nat, c: bv32)
    requires R4(dividend, divisor) != 0 || c < 0x1000_0000
    ensures !EarlyFire(dividend, divisor, c)
  {
  }

  /** The division loop: passes until nothing is left or the bit falls off the bottom. */
  method DivisionLoop(ghost a: Word, ghost b: Word, dividend0: Word, divisor0: Word, curbit0: bv32)
    returns (ghost m: nat, ghost dividend: Word, rest: Word, divisor: Word, curbit: bv32, overdone: bv32)
    requires AtHead(a, b, 0, dividend0, divisor0, curbit0)
    ensures AtHead(a, b, m, dividend, divisor, curbit) && Passed(dividend, divisor, curbit, rest, overdone)
    ensures rest == 0 || curbit < 16
    ensures EarlyFire(dividend, divisor, curbit) <==> EarlyFire(dividend0, divisor0, curbit0)
  {
    m, dividend, divisor, curbit := 0, dividend0, divisor0, curbit0;
    // ip holds the bit of the last pass; the copy that is shifted to zero is not kept.
    rest, overdone := Pass(dividend0, divisor, curbit);
    while rest != 0 && curbit >> 4 != 0
      invariant AtHead(a, b, m, dividend, divisor, curbit) && Passed(dividend, divisor, curbit, rest, overdone)
      invariant EarlyFire(dividend, divisor, curbit) <==> EarlyFire(dividend0, divisor0, curbit0)
      decreases curbit
    {
      EarlyOnlyInFirstPass(dividend, divisor, curbit);
      WeightDownBy4(curbit);
      m := NextPass(a, b, m, dividend, divisor, curbit);
      var shifted := rest;
      dividend, divisor, curbit := rest, divisor / 16, curbit >> 4;
      rest, overdone := Pass(shifted, divisor, curbit);
      EarlyOnlyInFirstPass(dividend, divisor, curbit);
    }
    WeightDownBy4(curbit);
  }

  lemma SmallDividend(a: Word, b: Word)
    requires a < b
    ensures !Misfires(a, b) && a % b == a
  {
    Division.QuotientUnique(a, b, 0, a);
  }

  method RemainderLoops(a: Word, b: Word) returns (result: Word)
    requires 0 < b <= a
    ensures result == a % b <==> !Misfires(a, b)
  {
    var divisor, curbit := Scale(a, b);
    MisfiresInFirstPass(a, b, divisor, curbit);
    ghost var m, dividend;
    var rest, overdone;
    m, dividend, rest, divisor, curbit, overdone := DivisionLoop(a, b, a, divisor, curbit);
    AtExit(a, b, m, dividend, divisor, curbit);
    result := FixUp(dividend, rest, divisor, overdone, curbit);
  }

  /** `__umodsi3`: the remainder, for every dividend and divisor but the misfires. */
  method Umodsi3(a: Word, b: Word) returns (r: Outcome)
    ensures b == 0 <==> r == DivideByZero
    ensures b > 0 ==> (r == Value(a % b) <==> !Misfires(a, b))
  {
    if b == 0 {
      return DivideByZero;
    }
    if a < b {
      SmallDividend(a, b);
      return Value(a);
    }
    var result := RemainderLoops(a, b);
    return Value(result);
  }

  /** Misfires occur, for each of the three divisors. */
  lemma MisfiresOccur()
    ensures Misfires(0x6000_0000, 1) && Misfires(0x6000_0000, 2) && Misfires(0x7800_0000, 3)
  {
  }

  /** The remainder of 0x60000000 by 1, as the routine gives it. */
  method WrongRemainder() returns (r: Outcome)
    ensures r.Value? && r.word != 0x6000_0000 % 1
  {
    MisfiresOccur();
    r := Umodsi3(0x6000_0000, 1);
  }

  /** Every misfire has a divisor below 4 that divides the dividend. */
  lemma MisfiresOnlyBelow4(a: Word, b: Word)
    ensures Misfires(a, b) ==> 0 < b < 4 && a % b == 0
  {
    if Misfires(a, b) { assert b == 1 || b == 2 || b == 3; }
  }
}
