/** What the integer conversions of the tiny printf mean: when they are those of sections
    7.21.6.1 and 7.21.6.5 of ISO/IEC 9899:2011, and that they read back as their argument. */
module PrintfLaws {
  import opened PrintfSpec
  import Printf

  function Max(a: int, b: int): int {
    if a < b then b else a
  }

  // ----- the conversion that the standard asks for -----

  /** The digits: a zero of precision zero has none. */
  function IsoDigits(value: nat, base: Base, flags: Flags): string {
    if flags.precision && value == 0 then "" else Digits(value, base, flags.uppercase)
  }

  function IsoSign(negative: bool, flags: Flags): string {
    if negative then "-" else if flags.plus then "+" else if flags.space then " " else ""
  }

  /** How many digits, leading zeros included: the precision, or the field width with the
      `0` flag and without the `-` flag. */
  function IsoCount(value: nat, negative: bool, base: Base, prec: nat, width: nat, flags: Flags): int {
    Max(Max(|IsoDigits(value, base, flags)|, prec),
        if flags.zeropad && !flags.left then width - |IsoSign(negative, flags)| else 0)
  }

  function IsoBody(value: nat, negative: bool, base: Base, prec: nat, width: nat, flags: Flags): string {
    var digits := IsoDigits(value, base, flags);
    IsoSign(negative, flags) + Repeat('0', IsoCount(value, negative, base, prec, width, flags) - |digits|) + digits
  }

  function IsoField(value: nat, negative: bool, base: Base, prec: nat, width: nat, flags: Flags): string {
    Padded(IsoBody(value, negative, base, prec, width, flags), width, flags.left)
  }

  /** A body padded with spaces to the field width, on the right with the `-` flag. */
  function Padded(body: string, width: nat, left: bool): (field: string)
    ensures |field| == Max(width, |body|)
  {
    if left then body + Repeat(' ', width - |body|) else Repeat(' ', width - |body|) + body
  }

  // ----- what the code prints -----

  /** The same count in the code, which forgets the precision with the `-` flag. */
  function CodeCount(value: nat, negative: bool, base: Base, prec: nat, width: nat, flags: Flags): int {
    if flags.left then |IsoDigits(value, base, flags)| else IsoCount(value, negative, base, prec, width, flags)
  }

  /** The sign and the digits fit the scratch buffer. */
  predicate Roomy(value: nat, negative: bool, base: Base, prec: nat, width: nat, flags: Flags) {
    |IsoSign(negative, flags)| + CodeCount(value, negative, base, prec, width, flags) <= ROOM
  }

  /** The sign and the digits that the code prints. */
  function CodeBody(value: nat, negative: bool, base: Base, prec: nat, width: nat, flags: Flags): string {
    Reverse(Formatted(ScratchDigits(value, base, flags), negative, base, prec, width, flags))
  }

  lemma {:induction false} LowDigitsReversed(value: nat, base: Base, upper: bool, room: nat)
    ensures |Digits(value, base, upper)| <= room ==>
      Reverse(LowDigits(value, base, upper, room)) == Digits(value, base, upper)
    ensures |LowDigits(value, base, upper, room)| == Min(|Digits(value, base, upper)|, room)
    decreases room
  {
    if room > 0 {
      SmallerThanBase(value, base);
      var (q, d) := (value / base, Digit(value % base, upper));
      if value >= base {
        LowDigitsReversed(q, base, upper, room - 1);
        ReverseCons(d, LowDigits(q, base, upper, room - 1));
      } else {
        ReverseCons(d, "");
      }
    }
  }

  lemma ReverseCons(c: char, s: string)
    ensures Reverse([c] + s) == Reverse(s) + [c]
  {
    assert ([c] + s)[1..] == s;
  }

  lemma SmallerThanBase(value: nat, base: Base)
    ensures value < base <==> value / base == 0
  {
  }

  lemma {:induction false} ReverseAppend(a: string, b: string)
    ensures Reverse(a + b) == Reverse(b) + Reverse(a)
  {
    if a == "" {
      assert a + b == b;
    } else {
      assert (a + b)[1..] == a[1..] + b;
      ReverseAppend(a[1..], b);
    }
  }

  lemma {:induction false} ReverseRepeat(c: char, n: int)
    ensures Reverse(Repeat(c, n)) == Repeat(c, n)
  {
    if n > 0 {
      ReverseRepeat(c, n - 1);
      Printf.RepeatSplit(c, n - 1, 1);
      assert Repeat(c, 1) == [c];
    }
  }

  function ZeroedLength(length: nat, negative: bool, prec: nat, width: nat, flags: Flags): int {
    if flags.left then length
    else Max(Max(length, Min(prec, ROOM)), if flags.zeropad then Min(DigitWidth(negative, width, flags), ROOM) else 0)
  }

  lemma RepeatJoin(c: char, a: int, b: int)
    ensures Repeat(c, a) + Repeat(c, b) == Repeat(c, Max(a, 0) + Max(b, 0))
  {
    if a <= 0 {
      assert Repeat(c, a) + Repeat(c, b) == Repeat(c, b);
    } else {
      Printf.RepeatSplit(c, a, b);
    }
  }

  lemma PadTwice(buf: string, m: nat, n: nat, k: int)
    requires |buf| <= ROOM && k == Max(Max(|buf|, Min(m, ROOM)), Min(n, ROOM)) - |buf|
    ensures PadTo(PadTo(buf, m), n) == buf + Repeat('0', k)
  {
    var a := Min(m, ROOM) - |buf|;
    var p := PadTo(buf, m);
    assert p == buf + Repeat('0', a) && |p| == |buf| + Max(a, 0);
    var b := Min(n, ROOM) - |p|;
    assert PadTo(p, n) == p + Repeat('0', b);
    RepeatJoin('0', a, b);
    Printf.JoinTwo(buf, Repeat('0', a), Repeat('0', b));
    RepeatAlike('0', Max(a, 0) + Max(b, 0), k);
  }

  lemma RepeatAlike(c: char, a: int, b: int)
    requires Max(a, 0) == Max(b, 0)
    ensures Repeat(c, a) == Repeat(c, b)
  {
  }

  lemma PadNothing(buf: string)
    ensures PadTo(buf, 0) == buf
  {
  }

  /** Zeros in the scratch buffer, in one go. */
  lemma ZerosAtOnce(buf: string, negative: bool, prec: nat, width: nat, flags: Flags, k: int)
    requires |buf| <= ROOM && k == ZeroedLength(|buf|, negative, prec, width, flags) - |buf|
    ensures WithZeros(buf, negative, prec, width, flags) == buf + Repeat('0', k)
  {
    if flags.left {
      assert Repeat('0', k) == "";
      assert buf + "" == buf;
    } else {
      var w := if flags.zeropad then DigitWidth(negative, width, flags) else 0;
      PadTwice(buf, prec, w, k);
      PadNothing(PadTo(buf, prec));
      assert WithZeros(buf, negative, prec, width, flags) == PadTo(PadTo(buf, prec), w);
    }
  }

  /** The sign goes last into the scratch buffer, if there is room. */
  lemma SignLast(buf: string, negative: bool, flags: Flags)
    requires |buf| <= ROOM
    ensures Reverse(WithSign(buf, negative, flags))
         == (if |buf| < ROOM then IsoSign(negative, flags) else "") + Reverse(buf)
  {
    if |buf| < ROOM {
      SignAppended(buf, negative, flags);
      ReverseAppend(buf, IsoSign(negative, flags));
      SignReversed(negative, flags);
    } else {
      assert "" + Reverse(buf) == Reverse(buf);
    }
  }

  lemma SignAppended(buf: string, negative: bool, flags: Flags)
    requires |buf| < ROOM
    ensures WithSign(buf, negative, flags) == buf + IsoSign(negative, flags)
  {
  }

  lemma SignReversed(negative: bool, flags: Flags)
    ensures Reverse(IsoSign(negative, flags)) == IsoSign(negative, flags)
  {
  }

  lemma NoHash(buf: string, negative: bool, base: Base, prec: nat, width: nat, flags: Flags)
    requires !flags.hash
    ensures Formatted(buf, negative, base, prec, width, flags)
         == WithSign(WithZeros(buf, negative, prec, width, flags), negative, flags)
  {
  }

  /** The scratch buffer without the `#` flag: digits, `k` zeros and, if there is room, a sign. */
  lemma FormattedShape(buf: string, negative: bool, base: Base, prec: nat, width: nat, flags: Flags, k: nat)
    requires |buf| <= ROOM && !flags.hash && k == ZeroedLength(|buf|, negative, prec, width, flags) - |buf|
    ensures Reverse(Formatted(buf, negative, base, prec, width, flags))
         == (if |buf| + k < ROOM then IsoSign(negative, flags) else "") + (Repeat('0', k) + Reverse(buf))
  {
    NoHash(buf, negative, base, prec, width, flags);
    ZerosAtOnce(buf, negative, prec, width, flags, k);
    ReversedSum(buf, Repeat('0', k), negative, flags);
    ReverseRepeat('0', k);
  }

  lemma ReversedSum(buf: string, zeros: string, negative: bool, flags: Flags)
    requires |buf| + |zeros| <= ROOM
    ensures Reverse(WithSign(buf + zeros, negative, flags))
         == (if |buf| + |zeros| < ROOM then IsoSign(negative, flags) else "") + (Reverse(zeros) + Reverse(buf))
  {
    SignLast(buf + zeros, negative, flags);
    ReverseAppend(buf, zeros);
  }

  lemma DigitsInScratch(value: nat, base: Base, flags: Flags)
    ensures |ScratchDigits(value, base, flags)| == Min(|IsoDigits(value, base, flags)|, ROOM)
    ensures |IsoDigits(value, base, flags)| <= ROOM ==>
      Reverse(ScratchDigits(value, base, flags)) == IsoDigits(value, base, flags)
  {
    LowDigitsReversed(value, base, flags.uppercase, ROOM);
  }

  /** How long the scratch buffer gets before the sign, against the count wanted. */
  lemma LengthOfCount(value: nat, negative: bool, base: Base, prec: nat, width: nat, flags: Flags)
    ensures var n := ZeroedLength(|ScratchDigits(value, base, flags)|, negative, prec, width, flags);
      var sign := |IsoSign(negative, flags)|;
      var count := CodeCount(value, negative, base, prec, width, flags);
      && n <= ROOM && (sign + count <= ROOM ==> n == count)
      && (sign + count > ROOM ==> n == ROOM || (n < count && n + sign <= ROOM))
  {
    DigitsInScratch(value, base, flags);
  }

  /** With room for it, the code prints the sign, zeros up to its count, and the digits. */
  lemma CodeBodyShape(value: nat, negative: bool, base: Base, prec: nat, width: nat, flags: Flags, k: nat)
    requires !flags.hash && Roomy(value, negative, base, prec, width, flags)
    requires k == CodeCount(value, negative, base, prec, width, flags) - |IsoDigits(value, base, flags)|
    ensures CodeBody(value, negative, base, prec, width, flags)
         == IsoSign(negative, flags) + (Repeat('0', k) + IsoDigits(value, base, flags))
  {
    LengthOfCount(value, negative, base, prec, width, flags);
    DigitsInScratch(value, base, flags);
    FormattedShape(ScratchDigits(value, base, flags), negative, base, prec, width, flags, k);
    assert |IsoSign(negative, flags)| == 0 ==> IsoSign(negative, flags) == "";
  }

  lemma CodeBodyLength(value: nat, negative: bool, base: Base, prec: nat, width: nat, flags: Flags)
    requires !flags.hash
    ensures var n := ZeroedLength(|ScratchDigits(value, base, flags)|, negative, prec, width, flags);
      |CodeBody(value, negative, base, prec, width, flags)| == n + if n < ROOM then |IsoSign(negative, flags)| else 0
  {
  }

  lemma IsoBodyLength(value: nat, negative: bool, base: Base, prec: nat, width: nat, flags: Flags)
    ensures |IsoBody(value, negative, base, prec, width, flags)|
         == |IsoSign(negative, flags)| + IsoCount(value, negative, base, prec, width, flags)
  {
  }

  /** Sign and digits fit the scratch buffer, and the `-` flag meets no precision above the
      number of digits. */
  predicate Conforms(value: nat, negative: bool, base: Base, prec: nat, width: nat, flags: Flags) {
    Roomy(value, negative, base, prec, width, flags) && (flags.left ==> prec <= |IsoDigits(value, base, flags)|)
  }

  lemma ConformingBody(value: nat, negative: bool, base: Base, prec: nat, width: nat, flags: Flags)
    requires !flags.hash && Conforms(value, negative, base, prec, width, flags)
    ensures CodeBody(value, negative, base, prec, width, flags) == IsoBody(value, negative, base, prec, width, flags)
  {
    var k := CodeCount(value, negative, base, prec, width, flags) - |IsoDigits(value, base, flags)|;
    CodeBodyShape(value, negative, base, prec, width, flags, k);
    Printf.JoinTwo(IsoSign(negative, flags), Repeat('0', k), IsoDigits(value, base, flags));
  }

  /** Otherwise the code's sign and digits are too few. */
  lemma ShorterBody(value: nat, negative: bool, base: Base, prec: nat, width: nat, flags: Flags)
    requires !flags.hash && !Conforms(value, negative, base, prec, width, flags)
    ensures |CodeBody(value, negative, base, prec, width, flags)| < |IsoBody(value, negative, base, prec, width, flags)|
  {
    CodeBodyLength(value, negative, base, prec, width, flags);
    IsoBodyLength(value, negative, base, prec, width, flags);
    LengthOfCount(value, negative, base, prec, width, flags);
  }

  /** The sign and the digits are those of the standard if and only if both conditions hold. */
  lemma BodyIsIso(value: nat, negative: bool, base: Base, prec: nat, width: nat, flags: Flags)
    requires !flags.hash
    ensures CodeBody(value, negative, base, prec, width, flags) == IsoBody(value, negative, base, prec, width, flags)
       <==> Conforms(value, negative, base, prec, width, flags)
  {
    if Conforms(value, negative, base, prec, width, flags) {
      ConformingBody(value, negative, base, prec, width, flags);
    } else {
      ShorterBody(value, negative, base, prec, width, flags);
    }
  }

  // ----- the field that is printed -----

  /** The one field that is right though its body is not: the scratch buffer is full of
      digits, and the space for the sign, which found no room, is supplied by the padding. */
  predicate SpaceSupplied(value: nat, negative: bool, base: Base, prec: nat, width: nat, flags: Flags) {
    && !flags.left && !flags.zeropad && IsoSign(negative, flags) == " "
    && CodeCount(value, negative, base, prec, width, flags) == ROOM && width > ROOM
  }

  lemma {:induction false} RepeatIs(c: char, n: int)
    ensures forall i :: 0 <= i < |Repeat(c, n)| ==> Repeat(c, n)[i] == c
  {
    if n > 0 { RepeatIs(c, n - 1); }
  }

  /** Padding does not make up for a shorter body, unless the longer one begins, or ends, with
      a space itself. */
  lemma PadsDiffer(c: string, b: string, width: nat, left: bool)
    requires |c| < |b| && (if left then b[|b| - 1] else b[0]) != ' '
    ensures Padded(c, width, left) != Padded(b, width, left)
  {
    RepeatIs(' ', width - |c|);
    if width >= |b| {
      if left {
        assert Padded(c, width, left)[|b| - 1] == ' ';
      } else {
        assert Padded(c, width, left)[width - |b|] == ' ';
      }
    }
  }

  /** A space before a number is padding if there is room for it. */
  lemma SpaceIsPadding(number: string, width: nat)
    requires width > |number|
    ensures Padded(" " + number, width, false) == Padded(number, width, false)
  {
    RepeatJoin(' ', width - |number| - 1, 1);
    assert Repeat(' ', 1) == " ";
    Printf.JoinTwo(Repeat(' ', width - |number| - 1), " ", number);
  }

  lemma NumberEnds(value: nat, base: Base, k: nat, flags: Flags)
    ensures var s := Repeat('0', k) + IsoDigits(value, base, flags); s != "" ==> s[0] != ' ' && s[|s| - 1] != ' '
  {
    FirstDigit(value, base, flags.uppercase);
    LastDigit(value, base, flags.uppercase);
    RepeatIs('0', k);
  }

  lemma LastDigit(value: nat, base: Base, upper: bool)
    ensures var s := Digits(value, base, upper); s[|s| - 1] != ' '
  {
    Recompose(value, base);
    DigitReads(value % base, base, upper);
  }

  /** A body that begins with its sign. */
  lemma BodyParts(value: nat, negative: bool, base: Base, prec: nat, width: nat, flags: Flags) returns (k: nat)
    ensures k == IsoCount(value, negative, base, prec, width, flags) - |IsoDigits(value, base, flags)|
    ensures IsoBody(value, negative, base, prec, width, flags)
         == IsoSign(negative, flags) + (Repeat('0', k) + IsoDigits(value, base, flags))
  {
    k := IsoCount(value, negative, base, prec, width, flags) - |IsoDigits(value, base, flags)|;
    Printf.JoinTwo(IsoSign(negative, flags), Repeat('0', k), IsoDigits(value, base, flags));
  }

  /** The scratch buffer when the digits fill it. */
  lemma FullBuffer(value: nat, negative: bool, base: Base, prec: nat, width: nat, flags: Flags, k: nat)
    requires !flags.hash && CodeCount(value, negative, base, prec, width, flags) == ROOM
    requires k == ROOM - |IsoDigits(value, base, flags)| && |IsoSign(negative, flags)| == 1
    ensures CodeBody(value, negative, base, prec, width, flags) == Repeat('0', k) + IsoDigits(value, base, flags)
  {
    LengthOfCount(value, negative, base, prec, width, flags);
    DigitsInScratch(value, base, flags);
    FormattedShape(ScratchDigits(value, base, flags), negative, base, prec, width, flags, k);
    assert "" + (Repeat('0', k) + IsoDigits(value, base, flags)) == Repeat('0', k) + IsoDigits(value, base, flags);
  }

  /** A body that is too long for the scratch buffer, right-justified: only the space for a
      sign can be made up for. */
  lemma RightJustified(value: nat, negative: bool, base: Base, prec: nat, width: nat, flags: Flags)
    requires !flags.hash && !flags.left && !flags.zeropad && !Conforms(value, negative, base, prec, width, flags)
    ensures Padded(CodeBody(value, negative, base, prec, width, flags), width, false)
         == IsoField(value, negative, base, prec, width, flags)
       <==> SpaceSupplied(value, negative, base, prec, width, flags)
  {
    var c, b := CodeBody(value, negative, base, prec, width, flags), IsoBody(value, negative, base, prec, width, flags);
    ShorterBody(value, negative, base, prec, width, flags);
    var k := BodyParts(value, negative, base, prec, width, flags);
    NumberEnds(value, base, k, flags);
    var sign, number := IsoSign(negative, flags), Repeat('0', k) + IsoDigits(value, base, flags);
    if sign != " " {
      PadsDiffer(c, b, width, false);
    } else if width > |number| {
      SpaceIsPadding(number, width);
      if |number| == ROOM {
        FullBuffer(value, negative, base, prec, width, flags, k);
      } else {
        LengthOfCount(value, negative, base, prec, width, flags);
        CodeBodyLength(value, negative, base, prec, width, flags);
        PadsDiffer(c, number, width, false);
      }
    }
  }

  lemma IsoFieldLength(value: nat, negative: bool, base: Base, prec: nat, width: nat, flags: Flags)
    ensures |IsoField(value, negative, base, prec, width, flags)|
         == Max(width, |IsoSign(negative, flags)| + Max(|IsoDigits(value, base, flags)|, prec))
  {
    IsoBodyLength(value, negative, base, prec, width, flags);
  }

  /** The body of a conversion, padded as _out_rev does: a field with padding zeros is full. */
  lemma FieldIsPaddedBody(value: nat, negative: bool, base: Base, prec: nat, width: nat, flags: Flags)
    requires flags.hash ==> value > 0
    ensures var body := CodeBody(value, negative, base, prec, width, flags);
      IntField(value, negative, base, prec, width, flags)
      == if !flags.left && flags.zeropad then body else Padded(body, width, flags.left)
  {
    assert ForValue(value, flags) == flags;
    FieldOfBody(Formatted(ScratchDigits(value, base, flags), negative, base, prec, width, flags), width, flags);
  }

  /** What is printed is the standard's field if and only if the body conforms or the padding
      supplies its space; its width is then the field width, or that of the sign and the
      larger of digits and precision if these need more. */
  lemma FieldIsIso(value: nat, negative: bool, base: Base, prec: nat, width: nat, flags: Flags)
    requires !flags.hash
    ensures IntField(value, negative, base, prec, width, flags) == IsoField(value, negative, base, prec, width, flags)
       <==> (Conforms(value, negative, base, prec, width, flags)
             || SpaceSupplied(value, negative, base, prec, width, flags))
    ensures |IsoField(value, negative, base, prec, width, flags)|
         == Max(width, |IsoSign(negative, flags)| + Max(|IsoDigits(value, base, flags)|, prec))
  {
    FieldIsPaddedBody(value, negative, base, prec, width, flags);
    IsoFieldLength(value, negative, base, prec, width, flags);
    IsoBodyLength(value, negative, base, prec, width, flags);
    if Conforms(value, negative, base, prec, width, flags) {
      ConformingBody(value, negative, base, prec, width, flags);
    } else if !flags.left && !flags.zeropad {
      RightJustified(value, negative, base, prec, width, flags);
    } else {
      ShorterBody(value, negative, base, prec, width, flags);
      if flags.left { LeftJustified(value, negative, base, prec, width, flags); }
    }
  }

  lemma LeftJustified(value: nat, negative: bool, base: Base, prec: nat, width: nat, flags: Flags)
    requires !flags.hash && flags.left && !Conforms(value, negative, base, prec, width, flags)
    ensures Padded(CodeBody(value, negative, base, prec, width, flags), width, true)
         != IsoField(value, negative, base, prec, width, flags)
  {
    ShorterBody(value, negative, base, prec, width, flags);
    var k := BodyParts(value, negative, base, prec, width, flags);
    NumberEnds(value, base, k, flags);
    var c, b := CodeBody(value, negative, base, prec, width, flags), IsoBody(value, negative, base, prec, width, flags);
    PadsDiffer(c, b, width, true);
  }

  /** _out_rev pads on one side; a field with padding zeros is padded already. */
  lemma FieldOfBody(buf: string, width: nat, flags: Flags)
    ensures Field(buf, width, flags) ==
      if flags.left then Reverse(buf) + Repeat(' ', width - |buf|)
      else if flags.zeropad then Reverse(buf)
      else Repeat(' ', width - |buf|) + Reverse(buf)
  {
  }

  // ----- reading back -----

  function DigitValue(c: char): int {
    if '0' <= c <= '9' then c as int - '0' as int
    else if 'a' <= c <= 'f' then c as int - 'a' as int + 10
    else if 'A' <= c <= 'F' then c as int - 'A' as int + 10
    else -1
  }

  /** The number that begins with `n` and goes on with the digits of `s`. */
  function ReadDigits(s: string, base: Base, n: nat): nat {
    if s != "" && 0 <= DigitValue(s[0]) < base then ReadDigits(s[1..], base, n * base + DigitValue(s[0])) else n
  }

  function SkipSpaces(s: string): (r: string)
    ensures |r| <= |s| && Head(r) != ' '
  {
    if Head(s) == ' ' then SkipSpaces(s[1..]) else s
  }

  /** Skipping spaces, then a sign, then digits. */
  function ReadInt(s: string, base: Base): int {
    var t := SkipSpaces(s);
    if Head(t) == '-' then -(ReadDigits(t[1..], base, 0) as int)
    else if Head(t) == '+' then ReadDigits(t[1..], base, 0)
    else ReadDigits(t, base, 0)
  }

  lemma DigitReads(d: nat, base: Base, upper: bool)
    requires d < base
    ensures DigitValue(Digit(d, upper)) == d
  {
  }

  lemma LastDigitReads(q: nat, d: nat, base: Base, upper: bool, rest: string)
    requires d < base
    ensures ReadDigits([Digit(d, upper)] + rest, base, q) == ReadDigits(rest, base, q * base + d)
  {
  }

  lemma {:induction false} DigitsRead(value: nat, base: Base, upper: bool, rest: string)
    ensures ReadDigits(Digits(value, base, upper) + rest, base, 0) == ReadDigits(rest, base, value)
    decreases value
  {
    var (q, d) := (value / base, value % base);
    Recompose(value, base);
    LastDigitReads(q, d, base, upper, rest);
    if value >= base {
      DigitsRead(q, base, upper, [Digit(d, upper)] + rest);
      Printf.JoinTwo(Digits(q, base, upper), [Digit(d, upper)], rest);
    } else {
      assert Digits(value, base, upper) == "" + [Digit(d, upper)] == [Digit(d, upper)];
    }
  }

  lemma Recompose(value: nat, base: Base)
    ensures (value / base) * base + value % base == value && value % base < base
    ensures value < base ==> value / base == 0
    ensures value >= base ==> value / base < value
  {
  }

  lemma {:induction false} ZerosRead(k: nat, base: Base, rest: string)
    ensures ReadDigits(Repeat('0', k) + rest, base, 0) == ReadDigits(rest, base, 0)
  {
    if k == 0 {
      assert "" + rest == rest;
    } else {
      assert (Repeat('0', k) + rest)[1..] == Repeat('0', k - 1) + rest;
      ZerosRead(k - 1, base, rest);
    }
  }

  /** Zeros, digits and what follows them read as the value. */
  lemma NumberReads(value: nat, base: Base, k: nat, flags: Flags, rest: string)
    requires rest == "" || rest[0] == ' '
    ensures ReadDigits(Repeat('0', k) + IsoDigits(value, base, flags) + rest, base, 0) == value
  {
    var digits := IsoDigits(value, base, flags);
    ZerosRead(k, base, digits + rest);
    assert Repeat('0', k) + (digits + rest) == Repeat('0', k) + digits + rest;
    if digits == "" {
      assert "" + rest == rest;
    } else {
      DigitsRead(value, base, flags.uppercase, rest);
    }
  }

  lemma {:induction false} SpacesSkipped(n: int, rest: string)
    ensures SkipSpaces(Repeat(' ', n) + rest) == SkipSpaces(rest)
  {
    if n <= 0 {
      assert "" + rest == rest;
    } else {
      assert (Repeat(' ', n) + rest)[1..] == Repeat(' ', n - 1) + rest;
      SpacesSkipped(n - 1, rest);
    }
  }

  /** What a field reads as, from its sign and what follows the sign. */
  lemma SignedReads(negative: bool, flags: Flags, number: string, base: Base, value: nat)
    requires Head(number) != '-' && Head(number) != '+'
    requires Head(SkipSpaces(number)) != '-' && Head(SkipSpaces(number)) != '+'
    requires ReadDigits(number, base, 0) == value && ReadDigits(SkipSpaces(number), base, 0) == value
    ensures ReadInt(IsoSign(negative, flags) + number, base) == if negative then -(value as int) else value
  {
    var sign := IsoSign(negative, flags);
    if sign == "" {
      assert sign + number == number;
    } else {
      assert (sign + number)[1..] == number;
    }
  }

  lemma {:induction false} FirstDigit(value: nat, base: Base, upper: bool)
    ensures DigitValue(Digits(value, base, upper)[0]) >= 0
    decreases value
  {
    Recompose(value, base);
    if value >= base {
      FirstDigit(value / base, base, upper);
    } else {
      DigitReads(value % base, base, upper);
    }
  }

  lemma NumberFacts(value: nat, base: Base, k: nat, flags: Flags, n: int)
    ensures var number := Repeat('0', k) + IsoDigits(value, base, flags) + Repeat(' ', n);
      && Head(number) != '-' && Head(number) != '+'
      && Head(SkipSpaces(number)) != '-' && Head(SkipSpaces(number)) != '+'
      && ReadDigits(number, base, 0) == value && ReadDigits(SkipSpaces(number), base, 0) == value
  {
    NumberReads(value, base, k, flags, Repeat(' ', n));
    var digits := IsoDigits(value, base, flags);
    var number := Repeat('0', k) + digits + Repeat(' ', n);
    if k == 0 && digits == "" {
      SpacesSkipped(n, "");
      assert number == Repeat(' ', n) + "";
    } else {
      if k == 0 { FirstDigit(value, base, flags.uppercase); }
      assert DigitValue(number[0]) >= 0;
      assert SkipSpaces(number) == number;
    }
  }

  /** A body reads as its number, padded or not. */
  lemma BodyReads(value: nat, negative: bool, base: Base, k: nat, flags: Flags, body: string, width: nat, left: bool)
    requires body == IsoSign(negative, flags) + (Repeat('0', k) + IsoDigits(value, base, flags))
    ensures var number := if negative then -(value as int) else value;
      ReadInt(Padded(body, width, left), base) == ReadInt(body, base) == number
  {
    var sign, number, n := IsoSign(negative, flags), Repeat('0', k) + IsoDigits(value, base, flags), width - |body|;
    NumberFacts(value, base, k, flags, n);
    SignedReads(negative, flags, number + Repeat(' ', n), base, value);
    Printf.JoinTwo(sign, number, Repeat(' ', n));
    NumberFacts(value, base, k, flags, 0);
    assert number + Repeat(' ', 0) == number;
    SignedReads(negative, flags, number, base, value);
    SpacesSkipped(n, body);
  }

  /** Reading an integer field gives back the number, for every width, precision and flags
      but `#`, as long as sign and digits fit the scratch buffer. */
  lemma FieldReadsBack(value: nat, negative: bool, base: Base, prec: nat, width: nat, flags: Flags)
    requires !flags.hash && Roomy(value, negative, base, prec, width, flags)
    ensures ReadInt(IntField(value, negative, base, prec, width, flags), base)
         == if negative then -(value as int) else value
  {
    var k := CodeCount(value, negative, base, prec, width, flags) - |IsoDigits(value, base, flags)|;
    var body := CodeBody(value, negative, base, prec, width, flags);
    CodeBodyShape(value, negative, base, prec, width, flags, k);
    FieldIsPaddedBody(value, negative, base, prec, width, flags);
    BodyReads(value, negative, base, k, flags, body, width, flags.left);
  }

  // ----- the room that arguments need -----

  function Pow(b: nat, k: nat): nat {
    if k == 0 then 1 else b * Pow(b, k - 1)
  }

  lemma QuotientLess(value: nat, base: Base, b: nat, p: nat)
    requires b <= base && value < b * p
    ensures value / base < p
  {
  }

  lemma {:induction false} DigitsBound(value: nat, base: Base, upper: bool, b: nat, k: nat)
    requires 0 < b <= base && 0 < k && value < Pow(b, k)
    ensures |Digits(value, base, upper)| <= k
    decreases k
  {
    if value >= base {
      QuotientLess(value, base, b, Pow(b, k - 1));
      Recompose(value, base);
      assert k > 1;
      DigitsBound(value / base, base, upper, b, k - 1);
    }
  }

  lemma Powers()
    ensures Pow(2, 32) == 0x1_0000_0000 && Pow(8, 22) >= 0x1_0000_0000_0000_0000
  {
    assert Pow(2, 8) == 0x100;
    assert Pow(2, 16) == 0x1_0000;
    assert Pow(2, 24) == 0x100_0000;
    assert Pow(8, 8) == 0x100_0000;
    assert Pow(8, 16) == 0x1_0000_0000_0000;
  }

  /** The value that an integer conversion prints. */
  function ValueOf(c: char, v: int, flags: Flags): int {
    if IsSigned(c) then SignedValue(IntFlags(c, flags), v) else UnsignedValue(IntFlags(c, flags), v)
  }

  lemma ValueBounds(c: char, v: int, flags: Flags)
    ensures -0x8000_0000_0000_0000 <= ValueOf(c, v, flags) < 0x1_0000_0000_0000_0000
    ensures !IsSigned(c) ==> ValueOf(c, v, flags) >= 0
  {
  }

  lemma RoomForArgument(c: char, prec: nat, width: nat, f: Flags, value: int)
    requires IsInteger(c) && prec < ROOM && (f.zeropad && !f.left ==> width <= ROOM)
    requires -0x8000_0000_0000_0000 <= value < 0x1_0000_0000_0000_0000
    requires !IsSigned(c) ==> !f.plus && !f.space && value >= 0
    requires c == 'b' ==> value < 0x1_0000_0000
    ensures Roomy(Magnitude(value), value < 0, BaseOf(c), prec, width, f)
  {
    Powers();
    if c == 'b' {
      DigitsBound(Magnitude(value), BaseOf(c), f.uppercase, 2, 32);
    } else {
      DigitsBound(Magnitude(value), BaseOf(c), f.uppercase, 8, 22);
    }
  }

  lemma IntTextIsField(c: char, v: int, prec: nat, width: nat, flags: Flags)
    ensures var value := ValueOf(c, v, flags);
      IntText(c, v, prec, width, flags)
      == IntField(Magnitude(value), value < 0, BaseOf(c), prec, width, IntFlags(c, flags))
  {
  }

  lemma ValueReadsBack(c: char, value: int, prec: nat, width: nat, f: Flags)
    requires IsInteger(c) && !f.hash && prec < ROOM && (f.zeropad && !f.left ==> width <= ROOM)
    requires -0x8000_0000_0000_0000 <= value < 0x1_0000_0000_0000_0000
    requires !IsSigned(c) ==> !f.plus && !f.space && value >= 0
    requires c == 'b' ==> value < 0x1_0000_0000
    ensures ReadInt(IntField(Magnitude(value), value < 0, BaseOf(c), prec, width, f), BaseOf(c)) == value
  {
    RoomForArgument(c, prec, width, f, value);
    FieldReadsBack(Magnitude(value), value < 0, BaseOf(c), prec, width, f);
  }

  /** Every integer conversion without `#` reads back as its argument, when the precision is
      below 32 and a field padded with zeros is no wider than 32; in base 2, when the value
      has no more than 32 digits. */
  lemma IntegerRoundTrip(c: char, v: int, prec: nat, width: nat, flags: Flags)
    requires IsInteger(c) && !IntFlags(c, flags).hash && prec < ROOM
    requires IntFlags(c, flags).zeropad && !flags.left ==> width <= ROOM
    requires c == 'b' ==> ValueOf(c, v, flags) < 0x1_0000_0000
    ensures ReadInt(IntText(c, v, prec, width, flags), BaseOf(c)) == ValueOf(c, v, flags)
  {
    ValueBounds(c, v, flags);
    ValueReadsBack(c, ValueOf(c, v, flags), prec, width, IntFlags(c, flags));
    IntTextIsField(c, v, prec, width, flags);
  }

  // ----- strings and characters -----

  /** `%s` shows at most the precision and pads to the width; `%c` pads one character. */
  lemma FieldWidths(s: string, ch: char, prec: nat, width: nat, flags: Flags)
    ensures |StringField(s, prec, width, flags)| == Max(width, if flags.precision then Min(|s|, prec) else |s|)
    ensures |CharField(ch, width, flags)| == Max(width, 1)
  {
  }

  // ----- where the code departs from the standard -----

  /** `hh` with a signed conversion converts to plain char, which is unsigned here: the value
      is that of a signed char only if its low byte is below 128. */
  lemma PlainCharIsUnsigned(v: int, flags: Flags)
    requires flags.isChar && !flags.isLong && !flags.longLong
    ensures SignedValue(flags, v) == Wrapped(v, 0x100) <==> v % 0x100 < 0x80
  {
  }

  // ----- what goes wrong does happen -----

  const MINUS := NO_FLAGS.(left := true, precision := true)
  const SPACE := NO_FLAGS.(space := true, precision := true)
  const HASH := NO_FLAGS.(hash := true)

  /** `%-5.3d` of 7 prints no leading zeros. */
  lemma MinusDropsPrecision()
    ensures IntField(7, false, 10, 3, 5, MINUS) == "7    "
    ensures IsoField(7, false, 10, 3, 5, MINUS) == "007  "
  {
    assert Digits(7, 10, false) == "7" && LowDigits(7, 10, false, ROOM) == "7";
    assert Repeat(' ', 4) == "    " && Repeat(' ', 2) == "  " && Repeat('0', 2) == "00";
    FieldIsPaddedBody(7, false, 10, 3, 5, MINUS);
    assert CodeBody(7, false, 10, 3, 5, MINUS) == "7";
  }

  /** `% 33.32d` of 5: the sign has no room, and padding takes its place; `% 32.32d` has none. */
  lemma SpaceLost()
    ensures SpaceSupplied(5, false, 10, 32, 33, SPACE)
    ensures IntField(5, false, 10, 32, 32, SPACE) != IsoField(5, false, 10, 32, 32, SPACE)
  {
    assert Digits(5, 10, false) == "5";
    FieldIsIso(5, false, 10, 32, 32, SPACE);
  }

  /** `%#4x` of 0x1234 loses two digits. */
  lemma HashDropsDigits()
    ensures IntField(0x1234, false, 16, 0, 4, HASH) == "0x34"
    ensures IsoHashField(0x1234, 16, 0, 4, HASH) == "0x1234"
  {
    FieldIsPaddedBody(0x1234, false, 16, 0, 4, HASH);
    DroppedBody();
    KeptBody();
  }

  lemma DroppedBody()
    ensures CodeBody(0x1234, false, 16, 0, 4, HASH) == "0x34" && Padded("0x34", 4, false) == "0x34"
  {
    DigitsOf1234();
    PadNothing("4321");
    assert WithHash("4321", 16, 0, 4, HASH) == "43x0";
    assert Reverse("0") == "0" && Reverse("x0") == "0x" && Reverse("3x0") == "0x3" && Reverse("43x0") == "0x34";
    assert Repeat(' ', 0) == "";
  }

  lemma KeptBody()
    ensures IsoHashBody(0x1234, 16, 0, 4, HASH) == "0x1234" && Padded("0x1234", 4, false) == "0x1234"
  {
    DigitsOf1234();
    assert Repeat(' ', -2) == "" && Repeat('0', 0) == "";
  }

  lemma DigitsOf1234()
    ensures Digits(0x1234, 16, false) == "1234" && LowDigits(0x1234, 16, false, ROOM) == "4321"
  {
    assert Digits(0x1, 16, false) == "1" && LowDigits(0x1, 16, false, 29) == "1";
    assert Digits(0x12, 16, false) == "12" && LowDigits(0x12, 16, false, 30) == "21";
    assert Digits(0x123, 16, false) == "123" && LowDigits(0x123, 16, false, 31) == "321";
  }

  // ----- the `#` flag -----

  function HashPrefix(base: Base, flags: Flags): string {
    if base == 16 then if flags.uppercase then "0X" else "0x" else "0"
  }

  /** The zeros between the prefix and the digits: those of the precision, of which the octal
      prefix is one, or those of the `0` flag. */
  function IsoZeros(length: nat, base: Base, prec: nat, width: nat, flags: Flags): int {
    if flags.precision then prec - length - (if base == 8 then 1 else 0)
    else if flags.zeropad && !flags.left then width - |HashPrefix(base, flags)| - length
    else 0
  }

  /** What `#` asks for in base 8 and 16: a prefix, those zeros, and the digits. Zero has no
      prefix, but at least one digit in base 8. */
  function IsoHashBody(value: nat, base: Base, prec: nat, width: nat, flags: Flags): string {
    if value > 0 then
      var digits := Digits(value, base, flags.uppercase);
      HashPrefix(base, flags) + (Repeat('0', IsoZeros(|digits|, base, prec, width, flags)) + digits)
    else if base == 8 && flags.precision && prec == 0 then "0"
    else IsoBody(0, false, base, prec, width, flags)
  }

  function IsoHashField(value: nat, base: Base, prec: nat, width: nat, flags: Flags): string {
    Padded(IsoHashBody(value, base, prec, width, flags), width, flags.left)
  }

  /** The flags and the precision as an integer conversion passes them on, with `#`. */
  predicate HashFlags(base: Base, prec: nat, flags: Flags) {
    && (base == 8 || base == 16) && flags.hash && !flags.plus && !flags.space
    && (if flags.precision then !flags.zeropad else prec == 0)
  }

  /** The prefix, the zeros and the digits have room in the scratch buffer. */
  predicate HashRoomy(length: nat, base: Base, prec: nat, width: nat, flags: Flags) {
    && |HashPrefix(base, flags)| + length <= ROOM
    && (flags.precision && !flags.left ==> |HashPrefix(base, flags)| + prec <= ROOM)
    && (flags.zeropad && !flags.left ==> width <= ROOM)
  }

  /** The prefix is wrong: without a precision, when the digits fill the field by themselves,
      or leave room for one padding zero where the prefix takes two; with a precision, when
      its zeros are forgotten, or when the octal prefix is not counted among them. */
  predicate Misprefixed(length: nat, base: Base, prec: nat, width: nat, flags: Flags) {
    if flags.precision then
      if flags.left then prec > length + (if base == 8 then 1 else 0) else base == 8 && prec > length
    else length == width || (base == 16 && flags.zeropad && !flags.left && length + 1 == width)
  }

  /** How many zeros the code puts before the digits, and how many characters it drops then. */
  function CodeZeros(length: nat, prec: nat, width: nat, flags: Flags): nat {
    if flags.left then 0
    else if flags.precision then if prec > length then prec - length else 0
    else if flags.zeropad && width > length then width - length
    else 0
  }

  function Dropped(length: nat, base: Base, width: nat, flags: Flags): (n: nat)
    ensures n <= length
  {
    if flags.precision || length == 0 || length != width then 0 else if base == 16 && length > 1 then 2 else 1
  }

  function Mark(base: Base, flags: Flags): string {
    if base == 16 then if flags.uppercase then "X0" else "x0" else "0"
  }

  lemma MarkReversed(base: Base, flags: Flags)
    requires base == 8 || base == 16
    ensures Reverse(Mark(base, flags)) == HashPrefix(base, flags)
  {
    ReverseCons('0', "");
    ReverseCons('x', "0");
    ReverseCons('X', "0");
    assert "0" == ['0'] + "" && "x0" == ['x'] + "0" && "X0" == ['X'] + "0";
  }

  lemma Marked(z: string, base: Base, prec: nat, width: nat, flags: Flags)
    requires (base == 8 || base == 16) && flags.hash && (flags.precision || prec == 0)
    requires |z| - Dropped(|z|, base, width, flags) + |HashPrefix(base, flags)| <= ROOM
    ensures WithHash(z, base, prec, width, flags) == z[..|z| - Dropped(|z|, base, width, flags)] + Mark(base, flags)
  {
  }

  lemma HashShape(z: string, base: Base, prec: nat, width: nat, flags: Flags)
    requires (base == 8 || base == 16) && flags.hash && (flags.precision || prec == 0)
    requires |z| - Dropped(|z|, base, width, flags) + |HashPrefix(base, flags)| <= ROOM
    ensures Reverse(WithHash(z, base, prec, width, flags))
         == HashPrefix(base, flags) + Reverse(z[..|z| - Dropped(|z|, base, width, flags)])
  {
    Marked(z, base, prec, width, flags);
    MarkReversed(base, flags);
    ReverseAppend(z[..|z| - Dropped(|z|, base, width, flags)], Mark(base, flags));
  }

  /** The digits and `k` zeros without `n` characters: without zeros, if there are enough. */
  lemma KeptZeros(buf: string, k: nat, n: nat)
    requires n <= k
    ensures Reverse((buf + Repeat('0', k))[..|buf| + k - n]) == Repeat('0', k - n) + Reverse(buf)
  {
    RepeatJoin('0', k - n, n);
    assert (buf + (Repeat('0', k - n) + Repeat('0', n)))[..|buf| + k - n] == buf + Repeat('0', k - n);
    ReverseAppend(buf, Repeat('0', k - n));
    ReverseRepeat('0', k - n);
  }

  lemma ZerosBeforeHash(buf: string, base: Base, prec: nat, width: nat, flags: Flags)
    requires |buf| <= ROOM && HashFlags(base, prec, flags)
    requires HashRoomy(|buf|, base, prec, width, flags)
    ensures Formatted(buf, false, base, prec, width, flags)
         == WithHash(buf + Repeat('0', CodeZeros(|buf|, prec, width, flags)), base, prec, width, flags)
  {
    ZerosAtOnce(buf, false, prec, width, flags, CodeZeros(|buf|, prec, width, flags));
  }

  lemma ZerosAndDrops(length: nat, k: nat, n: nat, base: Base, prec: nat, width: nat, flags: Flags)
    requires HashFlags(base, prec, flags) && 0 < length && HashRoomy(length, base, prec, width, flags)
    requires k == CodeZeros(length, prec, width, flags) && n == Dropped(length + k, base, width, flags)
    ensures length + k - n + |HashPrefix(base, flags)| <= ROOM
    ensures if Misprefixed(length, base, prec, width, flags)
            then k - n != Max(IsoZeros(length, base, prec, width, flags), 0) && (k > n ==> !flags.left)
            else n <= k && k - n == Max(IsoZeros(length, base, prec, width, flags), 0)
  {
    assert |HashPrefix(base, flags)| == if base == 16 then 2 else 1;
  }

  /** How long the code's body is, and what it is when only zeros are dropped. */
  lemma HashBody(buf: string, k: nat, n: nat, base: Base, prec: nat, width: nat, flags: Flags)
    requires |buf| <= ROOM && HashFlags(base, prec, flags) && HashRoomy(|buf|, base, prec, width, flags)
    requires k == CodeZeros(|buf|, prec, width, flags) && n == Dropped(|buf| + k, base, width, flags)
    requires |buf| + k - n + |HashPrefix(base, flags)| <= ROOM
    ensures var body := Reverse(Formatted(buf, false, base, prec, width, flags));
      && HashPrefix(base, flags) <= body && |body| == |HashPrefix(base, flags)| + |buf| + k - n
      && (n <= k ==> body == HashPrefix(base, flags) + (Repeat('0', k - n) + Reverse(buf)))
  {
    ZerosBeforeHash(buf, base, prec, width, flags);
    var z := buf + Repeat('0', k);
    assert |z| == |buf| + k && Dropped(|z|, base, width, flags) == n;
    HashShape(z, base, prec, width, flags);
    if n <= k { KeptZeros(buf, k, n); }
  }

  /** The code's body against the standard's, when there is room. */
  lemma HashBodies(value: nat, base: Base, prec: nat, width: nat, flags: Flags)
    requires value > 0 && HashFlags(base, prec, flags)
    requires HashRoomy(|Digits(value, base, flags.uppercase)|, base, prec, width, flags)
    ensures var c := CodeBody(value, false, base, prec, width, flags);
      var b := IsoHashBody(value, base, prec, width, flags);
      && HashPrefix(base, flags) <= c
      && if Misprefixed(|Digits(value, base, flags.uppercase)|, base, prec, width, flags)
         then |c| != |b| && (|c| > |b| ==> !flags.left) else c == b
  {
    var buf, digits := ScratchDigits(value, base, flags), Digits(value, base, flags.uppercase);
    LowDigitsReversed(value, base, flags.uppercase, ROOM);
    var k := CodeZeros(|digits|, prec, width, flags);
    var n := Dropped(|digits| + k, base, width, flags);
    ZerosAndDrops(|digits|, k, n, base, prec, width, flags);
    HashBody(buf, k, n, base, prec, width, flags);
    if !Misprefixed(|digits|, base, prec, width, flags) {
      RepeatAlike('0', k - n, IsoZeros(|digits|, base, prec, width, flags));
    }
  }

  /** The one field that is right though there is no room for the prefix: the zeros of an
      octal precision, of which it is one, fill the scratch buffer. */
  predicate ZeroSupplied(length: nat, base: Base, prec: nat, flags: Flags) {
    base == 8 && flags.precision && !flags.left && prec == ROOM && length < ROOM
  }

  lemma FormattedInRoom(buf: string, base: Base, prec: nat, width: nat, flags: Flags)
    requires |buf| <= ROOM
    ensures |Formatted(buf, false, base, prec, width, flags)| <= ROOM
  {
  }

  /** Without room the code's body is too short. */
  lemma HashNoRoom(value: nat, base: Base, prec: nat, width: nat, flags: Flags)
    requires value > 0 && HashFlags(base, prec, flags)
    requires !HashRoomy(|Digits(value, base, flags.uppercase)|, base, prec, width, flags)
    requires !ZeroSupplied(|Digits(value, base, flags.uppercase)|, base, prec, flags)
    ensures |CodeBody(value, false, base, prec, width, flags)| <= ROOM < |IsoHashBody(value, base, prec, width, flags)|
  {
    DigitsInScratch(value, base, flags);
    FormattedInRoom(ScratchDigits(value, base, flags), base, prec, width, flags);
    assert |HashPrefix(base, flags)| == if base == 16 then 2 else 1;
  }

  lemma HashZeroSupplied(value: nat, base: Base, prec: nat, width: nat, flags: Flags)
    requires value > 0 && HashFlags(base, prec, flags)
    requires ZeroSupplied(|Digits(value, base, flags.uppercase)|, base, prec, flags)
    ensures CodeBody(value, false, base, prec, width, flags) == IsoHashBody(value, base, prec, width, flags)
  {
    var buf, digits := ScratchDigits(value, base, flags), Digits(value, base, flags.uppercase);
    LowDigitsReversed(value, base, flags.uppercase, ROOM);
    var k := ROOM - |buf|;
    ZerosAtOnce(buf, false, prec, width, flags, k);
    var z := buf + Repeat('0', k);
    assert WithHash(z, base, prec, width, flags) == z;
    ReverseAppend(buf, Repeat('0', k));
    ReverseRepeat('0', k);
    RepeatJoin('0', 1, k - 1);
    assert Repeat('0', 1) == "0";
    Printf.JoinTwo("0", Repeat('0', k - 1), digits);
  }

  lemma IsoHashEnds(value: nat, base: Base, prec: nat, width: nat, flags: Flags)
    requires value > 0 && HashFlags(base, prec, flags)
    ensures var b := IsoHashBody(value, base, prec, width, flags);
      && HashPrefix(base, flags) <= b && b[|b| - 1] != ' '
      && (flags.zeropad && !flags.left ==> Padded(b, width, false) == b)
  {
    LastDigit(value, base, flags.uppercase);
  }

  /** `#` is right for a value: there is room for the prefix and it is not wrong, or a zero of
      the precision stands for it; for zero, which has none in the code, the precision does
      not ask for the zero that base 8 asks for, and is not forgotten with the `-` flag. */
  predicate HashConforms(value: nat, base: Base, prec: nat, width: nat, flags: Flags) {
    var length := |Digits(value, base, flags.uppercase)|;
    if value == 0 then
      && !(base == 8 && flags.precision && prec == 0)
      && Conforms(0, false, base, prec, width, flags)
    else
      || ZeroSupplied(length, base, prec, flags)
      || (HashRoomy(length, base, prec, width, flags) && !Misprefixed(length, base, prec, width, flags))
  }

  // Nothing that is asked for or printed of zero depends on `#`.
  lemma ZeroBody(base: Base, prec: nat, width: nat, flags: Flags, f: Flags)
    requires f == flags.(hash := false)
    ensures IsoBody(0, false, base, prec, width, f) == IsoBody(0, false, base, prec, width, flags)
  {
    assert IsoDigits(0, base, f) == IsoDigits(0, base, flags);
    assert IsoSign(false, f) == IsoSign(false, flags);
    assert IsoCount(0, false, base, prec, width, f) == IsoCount(0, false, base, prec, width, flags);
  }

  lemma ZeroConforms(base: Base, prec: nat, width: nat, flags: Flags, f: Flags)
    requires f == flags.(hash := false)
    ensures Conforms(0, false, base, prec, width, f) <==> Conforms(0, false, base, prec, width, flags)
  {
    assert IsoDigits(0, base, f) == IsoDigits(0, base, flags);
    assert IsoSign(false, f) == IsoSign(false, flags);
    assert IsoCount(0, false, base, prec, width, f) == IsoCount(0, false, base, prec, width, flags);
  }

  lemma NoHashForZero(flags: Flags, f: Flags)
    requires f == flags.(hash := false)
    ensures ForValue(0, flags) == f == ForValue(0, f)
  {
  }

  lemma ZeroField(base: Base, prec: nat, width: nat, flags: Flags, f: Flags)
    requires f == flags.(hash := false)
    ensures IntField(0, false, base, prec, width, f) == IntField(0, false, base, prec, width, flags)
  {
    NoHashForZero(flags, f);
    assert IntField(0, false, base, prec, width, f) == Conversion(0, false, base, prec, width, f);
    assert IntField(0, false, base, prec, width, flags) == Conversion(0, false, base, prec, width, f);
  }

  lemma NoDigit(prec: nat, width: nat, flags: Flags)
    requires !flags.hash && !flags.plus && !flags.space && flags.precision && !flags.zeropad && prec == 0
    ensures IntField(0, false, 8, prec, width, flags) == Padded("", width, flags.left) != Padded("0", width, flags.left)
  {
    FieldIsPaddedBody(0, false, 8, prec, width, flags);
    CodeBodyLength(0, false, 8, prec, width, flags);
    PadsDiffer("", "0", width, flags.left);
  }

  lemma HashOfZero(base: Base, prec: nat, width: nat, flags: Flags)
    requires HashFlags(base, prec, flags)
    ensures IntField(0, false, base, prec, width, flags) == IsoHashField(0, base, prec, width, flags)
       <==> HashConforms(0, base, prec, width, flags)
  {
    var f := flags.(hash := false);
    ZeroBody(base, prec, width, flags, f);
    ZeroConforms(base, prec, width, flags, f);
    ZeroField(base, prec, width, flags, f);
    if base == 8 && flags.precision && prec == 0 {
      NoDigit(prec, width, f);
    } else {
      FieldIsIso(0, false, base, prec, width, f);
    }
  }

  /** With `#` the code prints the standard's field if and only if this is so. */
  lemma HashIsIso(value: nat, base: Base, prec: nat, width: nat, flags: Flags)
    requires HashFlags(base, prec, flags)
    ensures IntField(value, false, base, prec, width, flags) == IsoHashField(value, base, prec, width, flags)
       <==> HashConforms(value, base, prec, width, flags)
  {
    if value == 0 {
      HashOfZero(base, prec, width, flags);
    } else {
      HashOfNonzero(value, base, prec, width, flags);
    }
  }

  /** Bodies that differ, differ in length. */
  lemma HashLengths(value: nat, base: Base, prec: nat, width: nat, flags: Flags)
    requires value > 0 && HashFlags(base, prec, flags)
    ensures var c := CodeBody(value, false, base, prec, width, flags);
      var b := IsoHashBody(value, base, prec, width, flags);
      if HashConforms(value, base, prec, width, flags) then c == b
      else |c| != |b| && (|c| > |b| ==> !flags.left && HashPrefix(base, flags) <= c)
  {
    var length := |Digits(value, base, flags.uppercase)|;
    if ZeroSupplied(length, base, prec, flags) {
      HashZeroSupplied(value, base, prec, width, flags);
    } else if HashRoomy(length, base, prec, width, flags) {
      HashBodies(value, base, prec, width, flags);
    } else {
      HashNoRoom(value, base, prec, width, flags);
    }
  }

  lemma HashOfNonzero(value: nat, base: Base, prec: nat, width: nat, flags: Flags)
    requires value > 0 && HashFlags(base, prec, flags)
    ensures IntField(value, false, base, prec, width, flags) == IsoHashField(value, base, prec, width, flags)
       <==> HashConforms(value, base, prec, width, flags)
  {
    var c, b := CodeBody(value, false, base, prec, width, flags), IsoHashBody(value, base, prec, width, flags);
    IsoHashEnds(value, base, prec, width, flags);
    FieldIsPaddedBody(value, false, base, prec, width, flags);
    HashLengths(value, base, prec, width, flags);
    if !HashConforms(value, base, prec, width, flags) { HashFieldsDiffer(c, b, width, flags); }
  }

  lemma HashFieldsDiffer(c: string, b: string, width: nat, flags: Flags)
    requires b != "" && b[0] != ' ' && b[|b| - 1] != ' '
    requires |c| != |b| && (|c| > |b| ==> !flags.left && c[0] != ' ')
    ensures Padded(c, width, flags.left) != Padded(b, width, flags.left)
  {
    if |c| < |b| {
      PadsDiffer(c, b, width, flags.left);
    } else {
      PadsDiffer(b, c, width, flags.left);
    }
  }

  // ----- a negative precision argument -----

  /** The precision is an argument, and negative. */
  predicate NegativePrecision(d: Directive) {
    Head(d.rest) == '.' && Second(d.rest) == '*' && Int(NumArg(d.args)) < 0
  }

  /** The standard takes a negative precision argument as if the precision were omitted. */
  function IsoPrecision(d: Directive): Directive {
    if NegativePrecision(d) then d.(rest := d.rest[2..], args := Tail(d.args)) else TakePrecision(d)
  }

  function IsoParse(f: string, args: seq<Arg>): Directive {
    TakeLength(IsoPrecision(TakeWidth(Begin(f, args))))
  }

  /** A directive is parsed as the standard says if and only if its precision is no negative
      argument. */
  lemma ParseIsIso(f: string, args: seq<Arg>)
    ensures Parse(f, args) == IsoParse(f, args) <==> !NegativePrecision(TakeWidth(Begin(f, args)))
  {
    var d := TakeWidth(Begin(f, args));
    if NegativePrecision(d) { assert TakePrecision(d).flags.precision && !IsoPrecision(d).flags.precision; }
  }

  /** The flags `g` are `f` with a precision. */
  predicate Precise(f: Flags, g: Flags) {
    && !f.precision && g.precision
    && g.zeropad == f.zeropad && g.left == f.left && g.plus == f.plus && g.space == f.space
    && g.hash == f.hash && g.uppercase == f.uppercase
    && g.isChar == f.isChar && g.isShort == f.isShort && g.isLong == f.isLong && g.longLong == f.longLong
  }

  lemma NegativeTaken(d: Directive)
    requires NegativePrecision(d) && !d.flags.precision && d.precision == 0
    ensures var (code, iso) := (TakePrecision(d), IsoPrecision(d));
      && Precise(iso.flags, code.flags) && code.precision == iso.precision == 0
      && code.width == iso.width && code.rest == iso.rest && code.args == iso.args
  {
    assert d.rest[1..][1..] == d.rest[2..];
  }

  lemma LengthAfterwards(c: char, next: char, f: Flags, g: Flags)
    requires Precise(f, g)
    ensures Precise(LengthFlags(c, next, f), LengthFlags(c, next, g))
  {
  }

  /** Otherwise it is parsed with a precision of zero instead of none. */
  lemma NegativeIsZero(f: string, args: seq<Arg>)
    requires NegativePrecision(TakeWidth(Begin(f, args)))
    ensures var (code, iso) := (Parse(f, args), IsoParse(f, args));
      && Precise(iso.flags, code.flags) && code.precision == iso.precision == 0
      && code.width == iso.width && code.rest == iso.rest && code.args == iso.args
  {
    var d := TakeWidth(Begin(f, args));
    NegativeTaken(d);
    var rest := IsoPrecision(d).rest;
    LengthAfterwards(Head(rest), Second(rest), IsoPrecision(d).flags, TakePrecision(d).flags);
  }

  lemma SpacesOnly(s: string, width: nat, left: bool)
    ensures Padded(s, width, left) == Repeat(' ', width) <==> |s| <= width && forall i :: 0 <= i < |s| ==> s[i] == ' '
  {
    RepeatIs(' ', width);
    RepeatIs(' ', width - |s|);
    var field, at := Padded(s, width, left), if left then 0 else width - |s|;
    if |s| <= width {
      assert forall i :: 0 <= i < |s| ==> field[at + i] == s[i];
      assert field == Repeat(' ', width) ==> forall i :: 0 <= i < |s| ==> s[i] == Repeat(' ', width)[at + i];
    }
  }

  /** A string is then right only if it is nothing but padding. */
  lemma NegativePrecisionString(s: string, width: nat, flags: Flags, code: Flags)
    requires Precise(flags, code)
    ensures StringField(s, 0, width, code) == StringField(s, 0, width, flags)
       <==> |s| <= width && forall i :: 0 <= i < |s| ==> s[i] == ' '
  {
    SpacesOnly("", width, flags.left);
    SpacesOnly(s, width, flags.left);
    assert Shown(s, 0, code) == "" && Shown(s, 0, flags) == s;
  }

  /** Two numbers behind the same sign are padded to different fields if the shorter one lacks
      a digit. */
  lemma NumbersDiffer(sign: string, a: string, b: string, width: nat, left: bool)
    requires |sign| <= 1 && |a| < |b| && b[0] != ' ' && b[|b| - 1] != ' '
    ensures Padded(sign + a, width, left) != Padded(sign + b, width, left)
  {
    if left || sign != " " {
      assert sign == "" ==> sign + b == b;
      PadsDiffer(sign + a, sign + b, width, left);
    } else if width > |b| {
      SpaceIsPadding(a, width);
      SpaceIsPadding(b, width);
      PadsDiffer(a, b, width, false);
    }
  }

  /** With a precision of zero the field holds the digits alone, and none of zero. */
  lemma WithoutZeros(value: nat, negative: bool, base: Base, width: nat, g: Flags)
    requires !g.hash && g.precision && !g.zeropad
    requires |IsoSign(negative, g)| + |Digits(value, base, g.uppercase)| <= ROOM
    ensures IntField(value, negative, base, 0, width, g)
         == Padded(IsoSign(negative, g) + (if value == 0 then "" else Digits(value, base, g.uppercase)), width, g.left)
  {
    var digits := IsoDigits(value, base, g);
    FieldIsIso(value, negative, base, 0, width, g);
    var k := BodyParts(value, negative, base, 0, width, g);
    assert k == 0 && Repeat('0', 0) + digits == digits;
  }

  /** The standard's field without a precision. */
  lemma WithoutPrecision(value: nat, negative: bool, base: Base, width: nat, f: Flags) returns (k: nat)
    requires !f.precision
    ensures var (sign, digits) := (IsoSign(negative, f), Digits(value, base, f.uppercase));
      && k == (if f.zeropad && !f.left && width > |sign| + |digits| then width - |sign| - |digits| else 0)
      && IsoField(value, negative, base, 0, width, f) == Padded(sign + (Repeat('0', k) + digits), width, f.left)
      && Solid(Repeat('0', k) + digits)
  {
    k := BodyParts(value, negative, base, 0, width, f);
    NumberEnds(value, base, k, f);
  }

  predicate Solid(number: string) {
    number != "" && number[0] != ' ' && number[|number| - 1] != ' '
  }

  /** An integer is then right if and only if it is not zero, and no zeros pad the field. */
  lemma NegativePrecisionField(value: nat, negative: bool, base: Base, width: nat, f: Flags, g: Flags)
    requires !g.hash && g.precision && !g.zeropad && !f.precision
    requires g.left == f.left && g.plus == f.plus && g.space == f.space && g.uppercase == f.uppercase
    requires |IsoSign(negative, f)| + |Digits(value, base, f.uppercase)| <= ROOM
    ensures IntField(value, negative, base, 0, width, g) == IsoField(value, negative, base, 0, width, f)
       <==> value != 0
            && !(f.zeropad && !f.left && width > |IsoSign(negative, f)| + |Digits(value, base, f.uppercase)|)
  {
    WithoutZeros(value, negative, base, width, g);
    assert IsoSign(negative, f) == IsoSign(negative, g);
    var k := WithoutPrecision(value, negative, base, width, f);
    NumbersCompared(IsoSign(negative, f), Digits(value, base, f.uppercase), value == 0, k, width, f.left);
  }

  lemma NumbersCompared(sign: string, digits: string, zero: bool, k: nat, width: nat, left: bool)
    requires |sign| <= 1 && digits != "" && Solid(Repeat('0', k) + digits)
    ensures Padded(sign + (if zero then "" else digits), width, left)
         == Padded(sign + (Repeat('0', k) + digits), width, left)
       <==> !zero && k == 0
  {
    if zero || k > 0 {
      NumbersDiffer(sign, if zero then "" else digits, Repeat('0', k) + digits, width, left);
    } else {
      assert Repeat('0', k) + digits == digits;
    }
  }

  lemma HashAfterwards(c: char, f: Flags, g: Flags)
    requires Precise(f, g)
    ensures Precise(HashFlag(c, f), HashFlag(c, g))
  {
  }

  lemma CaseAfterwards(c: char, f: Flags, g: Flags)
    requires Precise(f, g)
    ensures Precise(CaseFlag(c, f), CaseFlag(c, g))
  {
  }

  lemma SignsAfterwards(c: char, f: Flags, g: Flags)
    requires Precise(f, g)
    ensures Precise(SignFlags(c, f), SignFlags(c, g))
  {
  }

  lemma ZeroAfterwards(f: Flags, g: Flags)
    requires Precise(f, g)
    ensures ZeroFlag(f) == f && ZeroFlag(g) == g.(zeropad := false)
  {
  }

  lemma PreciseFlags(c: char, flags: Flags, code: Flags)
    requires Precise(flags, code)
    ensures var (f, g) := (IntFlags(c, flags), IntFlags(c, code));
      && g.hash == f.hash && g.precision && !g.zeropad && !f.precision
      && g.left == f.left && g.plus == f.plus && g.space == f.space && g.uppercase == f.uppercase
      && g.isChar == f.isChar && g.isShort == f.isShort && g.isLong == f.isLong && g.longLong == f.longLong
  {
    HashAfterwards(c, flags, code);
    CaseAfterwards(c, HashFlag(c, flags), HashFlag(c, code));
    var (f, g) := (CaseFlag(c, HashFlag(c, flags)), CaseFlag(c, HashFlag(c, code)));
    SignsAfterwards(c, f, g);
    ZeroAfterwards(SignFlags(c, f), SignFlags(c, g));
  }

  lemma SameValue(c: char, v: int, flags: Flags, code: Flags)
    requires Precise(flags, code)
    ensures ValueOf(c, v, code) == ValueOf(c, v, flags)
  {
    PreciseFlags(c, flags, code);
  }

  /** The same for the integer conversions of the standard, from their arguments. */
  lemma NegativePrecisionInt(c: char, v: int, width: nat, flags: Flags, code: Flags)
    requires Precise(flags, code) && IsInteger(c) && c != 'b' && !IntFlags(c, flags).hash
    ensures var (f, value) := (IntFlags(c, flags), ValueOf(c, v, flags));
      var digits := |Digits(Magnitude(value), BaseOf(c), f.uppercase)|;
      IntText(c, v, 0, width, code) == IsoField(Magnitude(value), value < 0, BaseOf(c), 0, width, f)
      <==> value != 0 && !(f.zeropad && !f.left && width > |IsoSign(value < 0, f)| + digits)
  {
    var value := ValueOf(c, v, flags);
    PreciseFlags(c, flags, code);
    SameValue(c, v, flags, code);
    IntTextIsField(c, v, 0, width, code);
    RoomForDigits(c, v, flags);
    NegativePrecisionField(Magnitude(value), value < 0, BaseOf(c), width, IntFlags(c, flags), IntFlags(c, code));
  }

  lemma RoomForDigits(c: char, v: int, flags: Flags)
    requires IsInteger(c) && c != 'b'
    ensures |Digits(Magnitude(ValueOf(c, v, flags)), BaseOf(c), IntFlags(c, flags).uppercase)| <= 22
  {
    ValueBounds(c, v, flags);
    Powers();
    DigitsBound(Magnitude(ValueOf(c, v, flags)), BaseOf(c), IntFlags(c, flags).uppercase, 8, 22);
  }
}
