/** What formats mean, from how they are spelled: the parts of a directive, the arguments it
    takes, and the value that its text reads back as. */
module PrintfDirectives {
  import opened PrintfSpec
  import opened PrintfLaws
  import Printf

  // ----- the values of integer conversions -----

  /** `r` is `v` converted to the type whose values are from `lo` below `hi`. */
  predicate Converted(r: int, v: int, lo: int, hi: int)
    requires lo < hi
  {
    lo <= r < hi && (r - v) % (hi - lo) == 0 && (lo <= v < hi ==> r == v)
  }

  lemma Residue8(v: int)
    ensures Converted(v % 0x100, v, 0, 0x100)
  {
  }

  lemma Residue16(v: int)
    ensures Converted(v % 0x1_0000, v, 0, 0x1_0000)
  {
  }

  lemma Residue32(v: int)
    ensures Converted(v % 0x1_0000_0000, v, 0, 0x1_0000_0000)
  {
  }

  lemma Residue64(v: int)
    ensures Converted(v % 0x1_0000_0000_0000_0000, v, 0, 0x1_0000_0000_0000_0000)
  {
  }

  /** Reading the upper half as negative. */
  lemma WrappedConverted(v: int, modulus: int, half: int)
    requires half > 0 && modulus == 2 * half && Converted(v % modulus, v, 0, modulus)
    ensures Converted(Wrapped(v, modulus), v, -half, half)
  {
    var u := v % modulus;
    if u >= half {
      OneLess(u - v, modulus);
      if -half <= v < 0 { NegativeResidue(v, modulus); }
    }
    if -half <= v < half && u < half && v < 0 { NegativeResidue(v, modulus); }
  }

  lemma OneLess(x: int, m: int)
    requires m > 0 && x % m == 0
    ensures (x - m) % m == 0
  {
    var k := x / m;
    assert x == k * m;
    Multiple(k - 1, m);
    assert (k - 1) * m == x - m;
  }

  lemma Multiple(k: int, m: int)
    requires m > 0
    ensures (k * m) % m == 0
  {
    var (q, r) := ((k * m) / m, (k * m) % m);
    assert (k - q) * m == r;
    assert k - q >= 1 ==> (k - q) * m >= m;
    assert k - q <= -1 ==> (k - q) * m <= -m;
  }

  lemma NegativeResidue(v: int, m: int)
    requires -m <= v < 0 < m
    ensures v % m == v + m
  {
    assert v == (-1) * m + (v + m);
  }

  lemma SignedConversions(flags: Flags, v: int)
    ensures var r := SignedValue(flags, v);
      && (flags.longLong ==> Converted(r, v, -0x8000_0000_0000_0000, 0x8000_0000_0000_0000))
      && (!flags.longLong && flags.isLong ==> Converted(r, v, -0x8000_0000, 0x8000_0000))
      && (!flags.longLong && !flags.isLong && flags.isChar ==> Converted(r, v, 0, 0x100))
      && (!flags.longLong && !flags.isLong && !flags.isChar && flags.isShort ==> Converted(r, v, -0x8000, 0x8000))
      && (!flags.longLong && !flags.isLong && !flags.isChar && !flags.isShort ==>
            Converted(r, v, -0x8000_0000, 0x8000_0000))
  {
    Residue8(v);
    Residue16(v);
    Residue32(v);
    Residue64(v);
    WrappedConverted(v, 0x1_0000, 0x8000);
    WrappedConverted(v, 0x1_0000_0000, 0x8000_0000);
    WrappedConverted(v, 0x1_0000_0000_0000_0000, 0x8000_0000_0000_0000);
  }

  lemma UnsignedConversions(flags: Flags, v: int)
    ensures var r := UnsignedValue(flags, v);
      && (flags.longLong ==> Converted(r, v, 0, 0x1_0000_0000_0000_0000))
      && (!flags.longLong && flags.isLong ==> Converted(r, v, 0, 0x1_0000_0000))
      && (!flags.longLong && !flags.isLong && flags.isChar ==> Converted(r, v, 0, 0x100))
      && (!flags.longLong && !flags.isLong && !flags.isChar && flags.isShort ==> Converted(r, v, 0, 0x1_0000))
      && (!flags.longLong && !flags.isLong && !flags.isChar && !flags.isShort ==> Converted(r, v, 0, 0x1_0000_0000))
  {
    Residue8(v);
    Residue16(v);
    Residue32(v);
    Residue64(v);
  }

  /** The precision and a width padded with zeros leave room in the scratch buffer. */
  predicate Fits(prec: nat, width: nat, flags: Flags) {
    prec < 32 && (flags.zeropad && !flags.precision && !flags.left ==> width <= 32)
  }

  /** `%d` and `%i` print their argument in decimal, as a long long, a long, a plain char, a
      short or an int. */
  lemma SignedReadsBack(c: char, v: int, prec: nat, width: nat, flags: Flags)
    requires (c == 'd' || c == 'i') && Fits(prec, width, flags)
    ensures var r := ReadInt(IntText(c, v, prec, width, flags), 10);
      && (flags.longLong ==> Converted(r, v, -0x8000_0000_0000_0000, 0x8000_0000_0000_0000))
      && (!flags.longLong && flags.isLong ==> Converted(r, v, -0x8000_0000, 0x8000_0000))
      && (!flags.longLong && !flags.isLong && flags.isChar ==> Converted(r, v, 0, 0x100))
      && (!flags.longLong && !flags.isLong && !flags.isChar && flags.isShort ==> Converted(r, v, -0x8000, 0x8000))
      && (!flags.longLong && !flags.isLong && !flags.isChar && !flags.isShort ==>
            Converted(r, v, -0x8000_0000, 0x8000_0000))
  {
    IntegerRoundTrip(c, v, prec, width, flags);
    SignedConversions(IntFlags(c, flags), v);
  }

  /** The base that an unsigned conversion prints in. */
  predicate InBase(c: char, base: Base) {
    (c == 'u' && base == 10) || ((c == 'x' || c == 'X') && base == 16) || (c == 'o' && base == 8)
    || (c == 'b' && base == 2)
  }

  /** `%u`, `%x`, `%X`, `%o` and `%b` print theirs in base 10, 16, 16, 8 and 2, as the unsigned
      type of the length; in base 2, if it has no more than 32 digits. */
  lemma UnsignedReadsBack(c: char, v: int, prec: nat, width: nat, flags: Flags, base: Base)
    requires InBase(c, base) && (c == 'u' || !flags.hash) && Fits(prec, width, flags)
    requires c == 'b' && flags.longLong ==> v % 0x1_0000_0000_0000_0000 < 0x1_0000_0000
    ensures var r := ReadInt(IntText(c, v, prec, width, flags), base);
      && (flags.longLong ==> Converted(r, v, 0, 0x1_0000_0000_0000_0000))
      && (!flags.longLong && flags.isLong ==> Converted(r, v, 0, 0x1_0000_0000))
      && (!flags.longLong && !flags.isLong && flags.isChar ==> Converted(r, v, 0, 0x100))
      && (!flags.longLong && !flags.isLong && !flags.isChar && flags.isShort ==> Converted(r, v, 0, 0x1_0000))
      && (!flags.longLong && !flags.isLong && !flags.isChar && !flags.isShort ==> Converted(r, v, 0, 0x1_0000_0000))
  {
    UnsignedConversions(IntFlags(c, flags), v);
    IntegerRoundTrip(c, v, prec, width, flags);
  }

  /** The flags with which an integer conversion is printed: signs only for `d` and `i`, no
      `0` flag with a precision, capitals for `X`, and no `#` in decimal. */
  lemma FlagsPassed(c: char, flags: Flags)
    requires IsInteger(c)
    ensures var f := IntFlags(c, flags);
      && f.plus == (flags.plus && (c == 'd' || c == 'i')) && f.space == (flags.space && (c == 'd' || c == 'i'))
      && f.zeropad == (flags.zeropad && !flags.precision) && f.uppercase == (flags.uppercase || c == 'X')
      && f.hash == (flags.hash && c != 'd' && c != 'i' && c != 'u')
      && f.left == flags.left && f.precision == flags.precision && SameLength(f, flags)
  {
  }

  // ----- letters -----

  /** No letters of the other case. */
  predicate Cased(s: string, upper: bool) {
    forall i :: 0 <= i < |s| ==> if upper then !('a' <= s[i] <= 'z') else !('A' <= s[i] <= 'Z')
  }

  lemma DigitCased(d: nat, upper: bool)
    requires d < 16
    ensures Cased([Digit(d, upper)], upper)
  {
  }

  lemma JoinCased(a: string, b: string, upper: bool)
    requires Cased(a, upper) && Cased(b, upper)
    ensures Cased(a + b, upper)
  {
  }

  lemma {:induction false} LowDigitsCased(value: nat, base: Base, upper: bool, room: nat)
    ensures Cased(LowDigits(value, base, upper, room), upper)
    decreases room
  {
    if room > 0 {
      var (q, d) := (value / base, value % base);
      Recompose(value, base);
      DigitCased(d, upper);
      if q != 0 {
        LowDigitsCased(q, base, upper, room - 1);
        JoinCased([Digit(d, upper)], LowDigits(q, base, upper, room - 1), upper);
      } else {
        assert [Digit(d, upper)] + "" == [Digit(d, upper)];
      }
    }
  }

  lemma {:induction false} ReverseCased(s: string, upper: bool)
    requires Cased(s, upper)
    ensures Cased(Reverse(s), upper)
  {
    if s != "" { ReverseCased(s[1..], upper); }
  }

  lemma PadCased(buf: string, n: nat, upper: bool)
    requires Cased(buf, upper)
    ensures Cased(PadTo(buf, n), upper)
  {
    RepeatIs('0', Min(n, ROOM) - |buf|);
  }

  lemma ZerosCased(buf: string, negative: bool, prec: nat, width: nat, flags: Flags)
    requires Cased(buf, flags.uppercase)
    ensures Cased(WithZeros(buf, negative, prec, width, flags), flags.uppercase)
  {
    PadCased(buf, prec, flags.uppercase);
    PadCased(PadTo(buf, prec), DigitWidth(negative, width, flags), flags.uppercase);
  }

  lemma HashCased(buf: string, base: Base, prec: nat, width: nat, flags: Flags)
    requires Cased(buf, flags.uppercase) && (base == 2 ==> !flags.uppercase)
    ensures Cased(WithHash(buf, base, prec, width, flags), flags.uppercase)
  {
  }

  lemma FormattedCased(buf: string, negative: bool, base: Base, prec: nat, width: nat, flags: Flags)
    requires Cased(buf, flags.uppercase) && (base == 2 ==> !flags.uppercase)
    ensures Cased(Formatted(buf, negative, base, prec, width, flags), flags.uppercase)
  {
    var w := if flags.left then width else DigitWidth(negative, width, flags);
    ZerosCased(buf, negative, prec, width, flags);
    HashCased(WithZeros(buf, negative, prec, width, flags), base, prec, w, flags);
  }

  lemma PaddedCased(buf: string, width: nat, flags: Flags)
    requires Cased(buf, flags.uppercase)
    ensures Cased(Field(buf, width, flags), flags.uppercase)
  {
    ReverseCased(buf, flags.uppercase);
    RepeatIs(' ', width - |buf|);
  }

  lemma FieldCased(value: nat, negative: bool, base: Base, prec: nat, width: nat, flags: Flags)
    requires base == 2 ==> !flags.uppercase
    ensures Cased(IntField(value, negative, base, prec, width, flags), flags.uppercase)
  {
    var f := ForValue(value, flags);
    var buf := ScratchDigits(value, base, f);
    LowDigitsCased(value, base, f.uppercase, ROOM);
    FormattedCased(buf, negative, base, prec, width, f);
    PaddedCased(Formatted(buf, negative, base, prec, width, f), width, f);
  }

  /** `%X` prints capitals, in its digits and its prefix, and the other conversions do not. */
  lemma LetterCase(c: char, v: int, prec: nat, width: nat, flags: Flags)
    requires IsInteger(c) && !flags.uppercase
    ensures Cased(IntText(c, v, prec, width, flags), c == 'X')
  {
    var f := IntFlags(c, flags);
    FlagsPassed(c, flags);
    IntTextIsField(c, v, prec, width, flags);
    var value := ValueOf(c, v, flags);
    FieldCased(Magnitude(value), value < 0, BaseOf(c), prec, width, f);
  }

  lemma BinaryMarked(buf: string, width: nat, flags: Flags)
    requires flags.hash && !flags.precision && !flags.plus && !flags.space && (flags.left || !flags.zeropad)
    requires buf != "" && |buf| + 2 <= ROOM
    ensures var z := Formatted(buf, false, 2, 0, width, flags);
      if |buf| != width then z == buf + "b0" else |z| == |buf| + 1
  {
    PadNothing(buf);
    assert WithZeros(buf, false, 0, width, flags) == buf;
  }

  /** With `#` the binary prefix is there if and only if the digits do not fill the field by
      themselves. */
  lemma BinaryPrefix(value: nat, width: nat, flags: Flags)
    requires value > 0 && flags.hash && !flags.precision && !flags.plus && !flags.space
      && (flags.left || !flags.zeropad)
    requires |Digits(value, 2, flags.uppercase)| + 2 <= ROOM
    ensures CodeBody(value, false, 2, 0, width, flags) == "0b" + Digits(value, 2, flags.uppercase)
       <==> |Digits(value, 2, flags.uppercase)| != width
  {
    var buf := ScratchDigits(value, 2, flags);
    LowDigitsReversed(value, 2, flags.uppercase, ROOM);
    BinaryMarked(buf, width, flags);
    BinaryReversed(buf);
  }

  lemma BinaryReversed(buf: string)
    ensures Reverse(buf + "b0") == "0b" + Reverse(buf)
  {
    ReverseAppend(buf, "b0");
    ReverseCons('0', "");
    ReverseCons('b', "0");
    assert "0" == ['0'] + "" && "b0" == ['b'] + "0";
  }

  // ----- how directives are spelled -----

  datatype Amount = Omitted | Given(n: nat) | Star

  /** Flags, width, precision behind a dot, length and conversion. */
  datatype Spelling = Spelling(
    flags: string, width: Amount, dot: bool, precision: Amount, length: string, conversion: char)

  function AmountText(a: Amount): string {
    match a
    case Omitted => ""
    case Given(n) => Digits(n, 10, false)
    case Star => "*"
  }

  function Conversion(w: Spelling, rest: string): string {
    [w.conversion] + rest
  }

  function FromLength(w: Spelling, rest: string): string {
    w.length + Conversion(w, rest)
  }

  function FromPrecision(w: Spelling, rest: string): string {
    (if w.dot then "." + (AmountText(w.precision) + FromLength(w, rest)) else FromLength(w, rest))
  }

  function FromWidth(w: Spelling, rest: string): string {
    AmountText(w.width) + FromPrecision(w, rest)
  }

  /** A directive and what follows it, after the percent sign. */
  function Spelled(w: Spelling, rest: string): string {
    w.flags + FromWidth(w, rest)
  }

  predicate FlagChar(c: char) {
    c == '0' || c == '-' || c == '+' || c == ' ' || c == '#'
  }

  predicate LengthChar(c: char) {
    c == 'h' || c == 'l' || c == 't' || c == 'j' || c == 'z'
  }

  predicate NumberChar(c: char) {
    '0' <= c <= '9'
  }

  predicate WellSpelled(w: Spelling) {
    && (forall i :: 0 <= i < |w.flags| ==> FlagChar(w.flags[i]))
    && (w.width.Given? ==> 0 < w.width.n < 0x1_0000_0000) && (w.precision.Given? ==> w.precision.n < 0x1_0000_0000)
    && w.length in {"", "hh", "h", "l", "ll", "t", "j", "z"}
    && !FlagChar(w.conversion) && !LengthChar(w.conversion) && !NumberChar(w.conversion)
    && w.conversion != '*' && w.conversion != '.'
  }

  // ----- flags -----

  predicate SameOtherwise(g: Flags, f: Flags) {
    g.uppercase == f.uppercase && g.precision == f.precision && SameLength(g, f)
  }

  /** Every flag character sets its flag, and no other. */
  predicate WithFlags(g: Flags, f: Flags, chars: string) {
    && g.zeropad == (f.zeropad || '0' in chars) && g.left == (f.left || '-' in chars)
    && g.plus == (f.plus || '+' in chars) && g.space == (f.space || ' ' in chars)
    && g.hash == (f.hash || '#' in chars) && SameOtherwise(g, f)
  }

  lemma SetsOne(f: Flags, c: char)
    ensures var g := SetFlag(f, c);
      && g.zeropad == (f.zeropad || c == '0') && g.left == (f.left || c == '-') && g.plus == (f.plus || c == '+')
      && g.space == (f.space || c == ' ') && g.hash == (f.hash || c == '#') && SameOtherwise(g, f)
  {
  }

  lemma Single(c: char, x: char)
    ensures x in [c] <==> c == x
  {
  }

  lemma OneFlag(f: Flags, c: char, g: Flags)
    requires g == SetFlag(f, c)
    ensures WithFlags(g, f, [c])
  {
    SetsOne(f, c);
    Single(c, '0');
    Single(c, '-');
    Single(c, '+');
    Single(c, ' ');
    Single(c, '#');
  }

  lemma FlagsTogether(f: Flags, g: Flags, h: Flags, a: string, b: string)
    requires WithFlags(g, f, a) && WithFlags(h, g, b)
    ensures WithFlags(h, f, a + b)
  {
  }

  lemma {:induction false} FlagsTaken(chars: string, rest: string, f: Flags)
    requires forall i :: 0 <= i < |chars| ==> FlagChar(chars[i])
    requires rest == "" || !FlagChar(rest[0])
    ensures var (g, r) := TakeFlags(chars + rest, f); r == rest && WithFlags(g, f, chars)
    decreases chars
  {
    if chars == "" {
      assert chars + rest == rest;
    } else {
      assert (chars + rest)[1..] == chars[1..] + rest && [chars[0]] + chars[1..] == chars;
      assert IsFlag(chars[0]);
      OneFlag(f, chars[0], SetFlag(f, chars[0]));
      FlagsTaken(chars[1..], rest, SetFlag(f, chars[0]));
      FlagsTogether(f, SetFlag(f, chars[0]), TakeFlags(chars + rest, f).0, [chars[0]], chars[1..]);
    }
  }

  // ----- numbers -----

  lemma AddMultiple(x: int, k: int)
    ensures (x + k * 0x1_0000_0000) % 0x1_0000_0000 == x % 0x1_0000_0000
  {
  }

  lemma NextDigit(q: nat, d: nat)
    requires d < 10
    ensures (q % 0x1_0000_0000 * 10 + d) % 0x1_0000_0000 == (q * 10 + d) % 0x1_0000_0000
  {
    AddMultiple(q % 0x1_0000_0000 * 10 + d, q / 0x1_0000_0000 * 10);
  }

  lemma DigitTaken(d: nat, rest: string, n: nat)
    requires d < 10
    ensures TakeNumber([Digit(d, false)] + rest, n) == TakeNumber(rest, (n * 10 + d) % 0x1_0000_0000)
  {
    assert ([Digit(d, false)] + rest)[1..] == rest;
  }

  lemma {:induction false} DigitsTaken(value: nat, rest: string)
    ensures TakeNumber(Digits(value, 10, false) + rest, 0) == TakeNumber(rest, value % 0x1_0000_0000)
    decreases value
  {
    var (q, d) := (value / 10, value % 10);
    if value >= 10 {
      var tail := [Digit(d, false)] + rest;
      DigitsTaken(q, tail);
      DigitTaken(d, rest, q % 0x1_0000_0000);
      NextDigit(q, d);
      Printf.JoinTwo(Digits(q, 10, false), [Digit(d, false)], rest);
    } else {
      assert Digits(value, 10, false) == "" + [Digit(d, false)] == [Digit(d, false)];
      DigitTaken(d, rest, 0);
    }
  }

  /** A number in decimal is read as its value, modulo 2^32. */
  lemma NumberTaken(value: nat, rest: string)
    requires rest == "" || !NumberChar(rest[0])
    ensures TakeNumber(Digits(value, 10, false) + rest, 0) == (value % 0x1_0000_0000, rest)
  {
    DigitsTaken(value, rest);
  }

  lemma {:induction false} FirstOfNumber(value: nat)
    ensures NumberChar(Digits(value, 10, false)[0]) && (value > 0 ==> Digits(value, 10, false)[0] != '0')
    decreases value
  {
    if value >= 10 { FirstOfNumber(value / 10); }
  }

  // ----- width, precision, length -----

  /** An int argument is its value. */
  predicate IntArg(args: seq<Arg>, v: int) {
    args != [] && args[0] == Num(v) && -0x8000_0000 <= v < 0x8000_0000
  }

  lemma IntArgument(args: seq<Arg>, v: int)
    requires IntArg(args, v)
    ensures Int(NumArg(args)) == v
  {
  }

  lemma AmountHead(a: Amount, rest: string)
    ensures match a
            case Omitted => AmountText(a) + rest == rest
            case Given(n) =>
              NumberChar(Head(AmountText(a) + rest)) && (n > 0 ==> Head(AmountText(a) + rest) != '0')
            case Star => Head(AmountText(a) + rest) == '*' && (AmountText(a) + rest)[1..] == rest
  {
    if a.Given? { FirstOfNumber(a.n); }
  }

  lemma WidthNumber(n: nat, rest: string, d: Directive)
    requires d.rest == Digits(n, 10, false) + rest && n < 0x1_0000_0000 && !NumberChar(Head(rest))
    ensures TakeWidth(d) == d.(width := n, rest := rest)
  {
    AmountHead(Given(n), rest);
    NumberTaken(n, rest);
  }

  lemma WidthArgument(rest: string, d: Directive, v: int)
    requires d.rest == "*" + rest && IntArg(d.args, v)
    ensures TakeWidth(d) == d.(width := Abs(v), rest := rest, args := d.args[1..],
                               flags := if v < 0 then d.flags.(left := true) else d.flags)
  {
    IntArgument(d.args, v);
    assert d.rest[1..] == rest;
  }

  /** The width: none, a number, or an argument whose sign is a `-` flag. */
  lemma WidthTaken(a: Amount, rest: string, d: Directive, v: int)
    requires d.rest == AmountText(a) + rest && (a.Given? ==> a.n < 0x1_0000_0000) && (a.Star? ==> IntArg(d.args, v))
    requires !NumberChar(Head(rest)) && Head(rest) != '*'
    ensures var e := TakeWidth(d);
      match a
      case Omitted => e == d
      case Given(n) => e == d.(width := n, rest := rest)
      case Star =>
        && e.width == Abs(v) && e.rest == rest && e.args == d.args[1..] && e.precision == d.precision
        && e.flags == if v < 0 then d.flags.(left := true) else d.flags
  {
    match a
    case Omitted => assert d.rest == rest;
    case Given(n) => WidthNumber(n, rest, d);
    case Star => WidthArgument(rest, d, v);
  }

  function Abs(v: int): nat {
    if v < 0 then -v else v
  }

  /** The precision behind a dot: none, a number, or an argument, negative ones as 0. */
  lemma PrecisionTaken(a: Amount, rest: string, d: Directive, v: int)
    requires d.rest == "." + (AmountText(a) + rest) && d.precision == 0
    requires (a.Given? ==> a.n < 0x1_0000_0000) && (a.Star? ==> IntArg(d.args, v))
    requires !NumberChar(Head(rest)) && Head(rest) != '*'
    ensures var e := TakePrecision(d);
      && e.flags == d.flags.(precision := true) && e.width == d.width && e.rest == rest
      && e.precision == (match a case Omitted => 0 case Given(n) => n case Star => if v < 0 then 0 else v)
      && e.args == if a.Star? then d.args[1..] else d.args
  {
    assert d.rest[1..] == AmountText(a) + rest;
    AmountHead(a, rest);
    match a
    case Omitted =>
    case Given(n) => NumberTaken(n, rest);
    case Star => IntArgument(d.args, v);
  }

  /** The length: each modifier sets its flags. */
  predicate WithLength(g: Flags, f: Flags, length: string) {
    && (g.isChar <==> f.isChar || length == "hh")
    && (g.isShort <==> f.isShort || length == "h" || length == "hh")
    && (g.isLong <==> f.isLong || length == "l" || length == "ll" || length == "t" || length == "z")
    && (g.longLong <==> f.longLong || length == "ll" || length == "j")
    && g.zeropad == f.zeropad && g.left == f.left && g.plus == f.plus && g.space == f.space
    && g.hash == f.hash && g.uppercase == f.uppercase && g.precision == f.precision
  }

  lemma LengthTaken(length: string, rest: string, d: Directive)
    requires length in {"", "hh", "h", "l", "ll", "t", "j", "z"} && d.rest == length + rest
    requires rest != "" && !LengthChar(rest[0])
    ensures var e := TakeLength(d);
      && e.rest == rest && WithLength(e.flags, d.flags, length)
      && e.width == d.width && e.precision == d.precision && e.args == d.args
  {
    LengthRest(length, rest);
    LengthSets(length, rest, d.flags);
  }

  lemma LengthRest(length: string, rest: string)
    requires length in {"", "hh", "h", "l", "ll", "t", "j", "z"} && rest != "" && !LengthChar(rest[0])
    ensures var text := length + rest;
      LengthSize(Head(text), Second(text)) == |length| && text[|length|..] == rest
  {
    assert |length| == 0 ==> length + rest == rest;
  }

  lemma LengthSets(length: string, rest: string, f: Flags)
    requires length in {"", "hh", "h", "l", "ll", "t", "j", "z"} && rest != "" && !LengthChar(rest[0])
    ensures var text := length + rest; WithLength(LengthFlags(Head(text), Second(text), f), f, length)
  {
    assert |length| == 0 ==> length + rest == rest;
    assert length == "" || length == "hh" || length == "h" || length == "l" || length == "ll"
        || length == "t" || length == "j" || length == "z";
  }

  // ----- parsing what is spelled -----

  lemma LengthHead(w: Spelling, rest: string)
    requires WellSpelled(w)
    ensures var h := Head(FromLength(w, rest)); !FlagChar(h) && !NumberChar(h) && h != '*' && h != '.'
  {
    assert |w.length| == 0 ==> FromLength(w, rest) == Conversion(w, rest);
    assert |w.length| > 0 ==> LengthChar(w.length[0]);
  }

  lemma PrecisionHead(w: Spelling, rest: string)
    requires WellSpelled(w)
    ensures var h := Head(FromPrecision(w, rest)); !FlagChar(h) && !NumberChar(h) && h != '*' && (h == '.' <==> w.dot)
  {
    LengthHead(w, rest);
  }

  lemma WidthHead(w: Spelling, rest: string)
    requires WellSpelled(w)
    ensures FromWidth(w, rest) == "" || !FlagChar(FromWidth(w, rest)[0])
  {
    AmountHead(w.width, FromPrecision(w, rest));
    PrecisionHead(w, rest);
  }

  // The arguments after those for stars.
  function AfterWidth(w: Spelling, args: seq<Arg>): seq<Arg> {
    if w.width.Star? && args != [] then args[1..] else args
  }

  function AfterStars(w: Spelling, args: seq<Arg>): seq<Arg> {
    var more := AfterWidth(w, args);
    if w.dot && w.precision.Star? && more != [] then more[1..] else more
  }

  /** The arguments for the stars are the ints `width` and `precision`. */
  predicate StarArgs(w: Spelling, args: seq<Arg>, width: int, precision: int) {
    && (w.width.Star? ==> IntArg(args, width))
    && (w.dot && w.precision.Star? ==> IntArg(AfterWidth(w, args), precision))
  }

  /** What a spelling means: its flags, with a negative width as a `-` flag, its numbers, and
      its length. */
  predicate MeansFlags(f: Flags, w: Spelling, width: int) {
    && f.zeropad == ('0' in w.flags) && f.left == ('-' in w.flags || (w.width.Star? && width < 0))
    && f.plus == ('+' in w.flags) && f.space == (' ' in w.flags) && f.hash == ('#' in w.flags)
    && !f.uppercase && f.precision == w.dot
    && f.isChar == (w.length == "hh") && f.isShort == (w.length == "h" || w.length == "hh")
    && f.isLong == (w.length == "l" || w.length == "ll" || w.length == "t" || w.length == "z")
    && f.longLong == (w.length == "ll" || w.length == "j")
  }

  predicate Means(d: Directive, w: Spelling, rest: string, args: seq<Arg>, width: int, precision: int) {
    && d.rest == Conversion(w, rest) && d.args == AfterStars(w, args) && MeansFlags(d.flags, w, width)
    && d.width == (match w.width case Omitted => 0 case Given(n) => n case Star => Abs(width))
    && d.precision == if !w.dot then 0
                      else match w.precision
                           case Omitted => 0
                           case Given(n) => n
                           case Star => if precision < 0 then 0 else precision
  }

  lemma BeginSpelled(w: Spelling, rest: string, args: seq<Arg>)
    requires WellSpelled(w)
    ensures var b := Begin(Spelled(w, rest), args);
      && b.rest == FromWidth(w, rest) && b.args == args && b.width == 0 && b.precision == 0
      && WithFlags(b.flags, NO_FLAGS, w.flags)
  {
    WidthHead(w, rest);
    FlagsTaken(w.flags, FromWidth(w, rest), NO_FLAGS);
  }

  lemma WidthSpelled(w: Spelling, rest: string, args: seq<Arg>, width: int, precision: int)
    requires WellSpelled(w) && StarArgs(w, args, width, precision)
    ensures var b := Begin(Spelled(w, rest), args); var e := TakeWidth(b);
      && e.rest == FromPrecision(w, rest) && e.args == AfterWidth(w, args) && e.precision == 0
      && e.width == (match w.width case Omitted => 0 case Given(n) => n case Star => Abs(width))
      && e.flags == if w.width.Star? && width < 0 then b.flags.(left := true) else b.flags
  {
    BeginSpelled(w, rest, args);
    PrecisionHead(w, rest);
    AmountHead(w.width, FromPrecision(w, rest));
    WidthTaken(w.width, FromPrecision(w, rest), Begin(Spelled(w, rest), args), width);
  }

  lemma PrecisionSpelled(w: Spelling, rest: string, d: Directive, args: seq<Arg>, precision: int)
    requires WellSpelled(w) && d.rest == FromPrecision(w, rest) && d.precision == 0
    requires w.dot && w.precision.Star? ==> IntArg(d.args, precision)
    ensures var e := TakePrecision(d);
      && e.rest == FromLength(w, rest) && e.width == d.width
      && e.args == (if w.dot && w.precision.Star? then d.args[1..] else d.args)
      && e.flags == (if w.dot then d.flags.(precision := true) else d.flags)
      && e.precision == if !w.dot then 0
                        else match w.precision
                             case Omitted => 0
                             case Given(n) => n
                             case Star => if precision < 0 then 0 else precision
  {
    LengthHead(w, rest);
    PrecisionHead(w, rest);
    if w.dot { PrecisionTaken(w.precision, FromLength(w, rest), d, precision); }
  }

  lemma FlagsMeant(w: Spelling, width: int, b: Flags, e: Flags, p: Flags, d: Flags)
    requires WithFlags(b, NO_FLAGS, w.flags)
    requires e == if w.width.Star? && width < 0 then b.(left := true) else b
    requires p == if w.dot then e.(precision := true) else e
    requires WithLength(d, p, w.length) && !b.precision
    ensures MeansFlags(d, w, width)
  {
  }

  /** Parsing a directive gives back what was spelled, and leaves its conversion. */
  lemma ParseSpelled(w: Spelling, rest: string, args: seq<Arg>, width: int, precision: int)
    requires WellSpelled(w) && StarArgs(w, args, width, precision)
    ensures Means(Parse(Spelled(w, rest), args), w, rest, args, width, precision)
  {
    var b := Begin(Spelled(w, rest), args);
    var e := TakeWidth(b);
    var p := TakePrecision(e);
    BeginSpelled(w, rest, args);
    WidthSpelled(w, rest, args, width, precision);
    PrecisionSpelled(w, rest, e, args, precision);
    LengthTaken(w.length, Conversion(w, rest), p);
    FlagsMeant(w, width, b.flags, e.flags, p.flags, TakeLength(p).flags);
  }

  // ----- whole formats -----

  /** Characters without a percent sign print as they are. */
  lemma {:induction false} LiteralText(text: string, rest: string, args: seq<Arg>)
    requires '%' !in text
    ensures Render(text + rest, args) == text + Render(rest, args)
  {
    if text == "" {
      assert text + rest == rest && text + Render(rest, args) == Render(rest, args);
    } else {
      assert (text + rest)[1..] == text[1..] + rest && [text[0]] + text[1..] == text;
      LiteralText(text[1..], rest, args);
      Printf.JoinTwo([text[0]], text[1..], Render(rest, args));
    }
  }

  predicate IntegerConversion(c: char) {
    c == 'd' || c == 'i' || c == 'u' || c == 'x' || c == 'X' || c == 'o' || c == 'b'
  }

  /** The argument that a conversion takes, and the arguments after it. */
  predicate TakesNumber(c: char) {
    IntegerConversion(c) || c == 'c' || c == 'p'
  }

  predicate Supplied(c: char, args: seq<Arg>) {
    && (TakesNumber(c) ==> args != [] && args[0].Num?)
    && (c == 's' ==> args != [] && args[0].Str?)
  }

  function Remaining(c: char, args: seq<Arg>): seq<Arg>
    requires Supplied(c, args)
  {
    if TakesNumber(c) || c == 's' then args[1..] else args
  }

  /** The text of a conversion of the next argument; any character that is no conversion, the
      percent sign among them, is its own. */
  function ConversionText(c: char, args: seq<Arg>, prec: nat, width: nat, flags: Flags): string
    requires Supplied(c, args)
  {
    if IntegerConversion(c) then IntText(c, args[0].value, prec, width, flags)
    else if c == 'c' then CharField((args[0].value % 0x100) as char, width, flags)
    else if c == 's' then StringField(args[0].text, prec, width, flags)
    else if c == 'p' then
      IntField(args[0].value % 0x1_0000_0000, false, 16, prec, 8, flags.(zeropad := true, uppercase := true))
    else [c]
  }

  lemma ConversionPrinted(c: char, d: Directive, rest: string)
    requires d.rest == [c] + rest && Supplied(c, d.args)
    ensures Text(d) == ConversionText(c, d.args, d.precision, d.width, d.flags)
    ensures After(d) == Remaining(c, d.args) && d.rest[1..] == rest
  {
    assert Head(d.rest) == c;
  }

  /** A directive prints the text of its conversion, with the flags and numbers it spells, and
      leaves the rest of the format to the arguments it has not taken. */
  lemma DirectiveText(w: Spelling, rest: string, args: seq<Arg>, width: int, precision: int)
    requires WellSpelled(w) && StarArgs(w, args, width, precision) && Supplied(w.conversion, AfterStars(w, args))
    ensures var d := Parse(Spelled(w, rest), args);
      && Means(d, w, rest, args, width, precision)
      && Render("%" + Spelled(w, rest), args)
         == ConversionText(w.conversion, d.args, d.precision, d.width, d.flags)
            + Render(rest, Remaining(w.conversion, d.args))
  {
    var d := Parse(Spelled(w, rest), args);
    ParseSpelled(w, rest, args, width, precision);
    ConversionPrinted(w.conversion, d, rest);
    assert ("%" + Spelled(w, rest))[1..] == Spelled(w, rest);
  }

  /** The values of the type that a length stands for, in a signed conversion. */
  function Lowest(length: string): int {
    if length == "hh" then 0
    else if length == "h" then -0x8000
    else if length == "ll" || length == "j" then -0x8000_0000_0000_0000
    else -0x8000_0000
  }

  function Bound(length: string): int {
    if length == "hh" then 0x100
    else if length == "h" then 0x8000
    else if length == "ll" || length == "j" then 0x8000_0000_0000_0000
    else 0x8000_0000
  }

  /** From the format to the number: what `%d` or `%i` prints, with any flags, and any width,
      precision and length, reads back as the argument, converted to the type of the length. */
  lemma PrintsDecimal(w: Spelling, rest: string, args: seq<Arg>, width: int, precision: int, v: int)
    returns (text: string)
    requires WellSpelled(w) && StarArgs(w, args, width, precision) && (w.conversion == 'd' || w.conversion == 'i')
    requires AfterStars(w, args) != [] && AfterStars(w, args)[0] == Num(v)
    requires var d := Parse(Spelled(w, rest), args); Fits(d.precision, d.width, d.flags)
    ensures Render("%" + Spelled(w, rest), args) == text + Render(rest, AfterStars(w, args)[1..])
    ensures Converted(ReadInt(text, 10), v, Lowest(w.length), Bound(w.length))
  {
    var d := Parse(Spelled(w, rest), args);
    DirectiveText(w, rest, args, width, precision);
    text := IntText(w.conversion, v, d.precision, d.width, d.flags);
    SignedReadsBack(w.conversion, v, d.precision, d.width, d.flags);
  }

  // ----- characters, strings, pointers -----

  /** A character stands on the side that the `-` flag says, and spaces on the other. */
  lemma CharSides(c: char, width: nat, flags: Flags)
    ensures var field := CharField(c, width, flags);
      var at := if flags.left then 0 else |field| - 1;
      field[at] == c && forall i :: 0 <= i < |field| && i != at ==> field[i] == ' '
  {
    RepeatIs(' ', width - 1);
  }

  /** So does a string, of which as many characters are shown as the precision allows. */
  lemma StringSides(s: string, prec: nat, width: nat, flags: Flags)
    ensures var field := StringField(s, prec, width, flags);
      var n := if flags.precision && prec < |s| then prec else |s|;
      var at := if flags.left then 0 else |field| - n;
      && 0 <= at && at + n <= |field| && field[at..at + n] == s[..n]
      && forall i :: 0 <= i < |field| && !(at <= i < at + n) ==> field[i] == ' '
  {
    var n := if flags.precision && prec < |s| then prec else |s|;
    RepeatIs(' ', width - n);
  }

  lemma EightDigits(value: nat)
    requires value < 0x1_0000_0000
    ensures |Digits(value, 16, true)| <= 8
  {
    assert Pow(16, 8) == 0x1_0000_0000 by { assert Pow(16, 4) == 0x1_0000; }
    DigitsBound(value, 16, true, 16, 8);
  }

  lemma EightDigitField(value: nat, f: Flags)
    requires value < 0x1_0000_0000 && f.zeropad && f.uppercase
    requires !f.left && !f.plus && !f.space && !f.hash && !f.precision
    ensures var text := IntField(value, false, 16, 0, 8, f); |text| == 8 && ReadInt(text, 16) == value
  {
    EightDigits(value);
    FieldIsIso(value, false, 16, 0, 8, f);
    FieldReadsBack(value, false, 16, 0, 8, f);
  }

  /** A pointer is eight hexadecimal digits. */
  lemma PointerText(v: int, flags: Flags)
    requires !flags.left && !flags.plus && !flags.space && !flags.hash && !flags.precision
    ensures var text := ConversionText('p', [Num(v)], 0, 0, flags);
      |text| == 8 && ReadInt(text, 16) == v % 0x1_0000_0000
  {
    EightDigitField(v % 0x1_0000_0000, flags.(zeropad := true, uppercase := true));
  }
}
