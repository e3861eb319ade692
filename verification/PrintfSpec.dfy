/** What a format prints: the conversions of the tiny printf as functions, and those that
    ISO/IEC 9899:2011 asks for. */
module PrintfSpec {

  // ----- digits -----

  type Base = b: int | b == 2 || b == 8 || b == 10 || b == 16 witness 2

  function Digit(d: nat, upper: bool): char
    requires d < 16
  {
    if d < 10 then '0' + d as char else (if upper then 'A' else 'a') + (d - 10) as char
  }

  /** The digits of a value, most significant first. */
  function Digits(value: nat, base: Base, upper: bool): (s: string)
    ensures s != ""
  {
    (if value < base then "" else Digits(value / base, base, upper)) + [Digit(value % base, upper)]
  }

  /** The scratch buffer of _ntoa_long: least significant digit first, as many as there is room for. */
  function LowDigits(value: nat, base: Base, upper: bool, room: nat): (s: string)
    ensures |s| <= room
  {
    if room == 0 then ""
    else [Digit(value % base, upper)]
         + (if value / base == 0 then "" else LowDigits(value / base, base, upper, room - 1))
  }

  function Reverse(s: string): (r: string)
    ensures |r| == |s|
  {
    if s == "" then "" else Reverse(s[1..]) + [s[0]]
  }

  function Repeat(c: char, n: int): (s: string)
    ensures |s| == if n < 0 then 0 else n
  {
    if n <= 0 then "" else [c] + Repeat(c, n - 1)
  }

  // ----- flags -----

  datatype Flags = Flags(
    zeropad: bool, left: bool, plus: bool, space: bool, hash: bool, uppercase: bool,
    isChar: bool, isShort: bool, isLong: bool, longLong: bool, precision: bool)

  const NO_FLAGS := Flags(false, false, false, false, false, false, false, false, false, false, false)

  /** PRINTF_NTOA_BUFFER_SIZE. */
  const ROOM: nat := 32

  function Min(a: nat, b: nat): nat {
    if a < b then a else b
  }

  // ----- an integer conversion, in the scratch buffer and then reversed -----

  /** Appending zeros up to a length, as far as there is room. */
  function PadTo(buf: string, n: nat): string {
    buf + Repeat('0', Min(n, ROOM) - |buf|)
  }

  /** The width left for digits when a sign goes before padding zeros. */
  function DigitWidth(negative: bool, width: nat, flags: Flags): nat {
    if width > 0 && flags.zeropad && (negative || flags.plus || flags.space) then width - 1 else width
  }

  function WithZeros(buf: string, negative: bool, prec: nat, width: nat, flags: Flags): string {
    if flags.left then buf
    else
      var padded := PadTo(buf, prec);
      if flags.zeropad then PadTo(padded, DigitWidth(negative, width, flags)) else padded
  }

  function Push(buf: string, c: char): string {
    if |buf| < ROOM then buf + [c] else buf
  }

  /** Padding zeros that filled the field make way for the prefix; real digits are taken for
      padding when there is none. `width` is what _ntoa_format left of it. */
  function Unpadded(buf: string, base: Base, prec: nat, width: nat, flags: Flags): (s: string)
    ensures |s| <= |buf|
  {
    if !flags.precision && buf != "" && (|buf| == prec || |buf| == width) then
      buf[..if |buf| > 1 && base == 16 then |buf| - 2 else |buf| - 1]
    else buf
  }

  /** The `#` flag. */
  function WithHash(buf: string, base: Base, prec: nat, width: nat, flags: Flags): string {
    if !flags.hash then buf
    else
      var trimmed := Unpadded(buf, base, prec, width, flags);
      var marked :=
        if base == 16 then Push(trimmed, if flags.uppercase then 'X' else 'x')
        else if base == 2 then Push(trimmed, 'b')
        else trimmed;
      Push(marked, '0')
  }

  function WithSign(buf: string, negative: bool, flags: Flags): string {
    if negative then Push(buf, '-')
    else if flags.plus then Push(buf, '+')
    else if flags.space then Push(buf, ' ')
    else buf
  }

  /** The scratch buffer when _ntoa_format hands it to _out_rev. */
  function Formatted(buf: string, negative: bool, base: Base, prec: nat, width: nat, flags: Flags): string {
    var w := if flags.left then width else DigitWidth(negative, width, flags);
    WithSign(WithHash(WithZeros(buf, negative, prec, width, flags), base, prec, w, flags), negative, flags)
  }

  /** The text of _out_rev. */
  function Field(buf: string, width: nat, flags: Flags): string {
    (if flags.left || flags.zeropad then "" else Repeat(' ', width - |buf|))
    + Reverse(buf)
    + (if flags.left then Repeat(' ', width - |buf|) else "")
  }

  /** The digits in the scratch buffer: none for a zero of explicit precision. */
  function ScratchDigits(value: nat, base: Base, flags: Flags): string {
    if flags.precision && value == 0 then "" else LowDigits(value, base, flags.uppercase, ROOM)
  }

  /** There is no prefix for zero. */
  function ForValue(value: nat, flags: Flags): Flags {
    if value == 0 then flags.(hash := false) else flags
  }

  /** The text of an integer conversion with the flags that its value leaves. A zero-padded
      field whose sign took a place passes the reduced width on to _out_rev, which does not
      use it. */
  function Conversion(value: nat, negative: bool, base: Base, prec: nat, width: nat, flags: Flags): string {
    Field(Formatted(ScratchDigits(value, base, flags), negative, base, prec, width, flags), width, flags)
  }

  /** The text of _ntoa_long and _ntoa_long_long. */
  function IntField(value: nat, negative: bool, base: Base, prec: nat, width: nat, flags: Flags): string {
    Conversion(value, negative, base, prec, width, ForValue(value, flags))
  }

  // ----- the other conversions -----

  function CharField(c: char, width: nat, flags: Flags): string {
    if flags.left then [c] + Repeat(' ', width - 1) else Repeat(' ', width - 1) + [c]
  }

  /** The part of a string that is printed. */
  function Shown(s: string, prec: nat, flags: Flags): string {
    if flags.precision && prec < |s| then s[..prec] else s
  }

  function StringField(s: string, prec: nat, width: nat, flags: Flags): string {
    var shown := Shown(s, prec, flags);
    if flags.left then shown + Repeat(' ', width - |shown|) else Repeat(' ', width - |shown|) + shown
  }

  // ----- arguments -----

  /** The characters of a C string before its terminator. */
  type CString = s: string | (0 as char) !in s

  /** A variadic argument: an integer of any type, or a string. */
  datatype Arg = Num(value: int) | Str(text: CString)

  function NumArg(args: seq<Arg>): int {
    if args != [] && args[0].Num? then args[0].value else 0
  }

  function StrArg(args: seq<Arg>): CString {
    if args != [] && args[0].Str? then args[0].text else ""
  }

  function Tail(args: seq<Arg>): seq<Arg> {
    if args == [] then [] else args[1..]
  }

  /** The value modulo 2^bits, read as two's complement. */
  function Wrapped(v: int, modulus: int): int
    requires modulus > 1
  {
    var u := v % modulus;
    if u < modulus / 2 then u else u - modulus
  }

  function Int(v: int): int {
    Wrapped(v, 0x1_0000_0000)
  }

  /** The value of a `d` or `i` conversion; plain char is unsigned on this machine. */
  function SignedValue(flags: Flags, v: int): int {
    if flags.longLong then Wrapped(v, 0x1_0000_0000_0000_0000)
    else if flags.isLong then Int(v)
    else if flags.isChar then v % 0x100
    else if flags.isShort then Wrapped(v, 0x1_0000)
    else Int(v)
  }

  function UnsignedValue(flags: Flags, v: int): nat {
    v % (if flags.longLong then 0x1_0000_0000_0000_0000
         else if flags.isLong then 0x1_0000_0000
         else if flags.isChar then 0x100
         else if flags.isShort then 0x1_0000
         else 0x1_0000_0000)
  }

  // ----- directives: what follows a percent sign -----

  /** The character at the beginning of a C string. */
  function Head(f: string): char {
    if f == "" then 0 as char else f[0]
  }

  predicate IsDigit(c: char) {
    '0' <= c <= '9'
  }

  predicate IsFlag(c: char) {
    c == '0' || c == '-' || c == '+' || c == ' ' || c == '#'
  }

  function SetFlag(flags: Flags, c: char): (f: Flags)
    ensures f.precision == flags.precision
  {
    Flags(flags.zeropad || c == '0', flags.left || c == '-', flags.plus || c == '+', flags.space || c == ' ',
          flags.hash || c == '#', flags.uppercase,
          flags.isChar, flags.isShort, flags.isLong, flags.longLong, flags.precision)
  }

  function TakeFlags(f: string, flags: Flags): (r: (Flags, string))
    ensures |r.1| <= |f| && r.0.precision == flags.precision
  {
    if IsFlag(Head(f)) then TakeFlags(f[1..], SetFlag(flags, Head(f))) else (flags, f)
  }

  /** _atoi, in an unsigned int. */
  function TakeNumber(f: string, n: nat): (r: (nat, string))
    ensures |r.1| <= |f|
  {
    if IsDigit(Head(f)) then TakeNumber(f[1..], (n * 10 + (f[0] as int - '0' as int)) % 0x1_0000_0000) else (n, f)
  }

  datatype Directive = Directive(flags: Flags, width: nat, precision: nat, rest: string, args: seq<Arg>)

  function TakeWidth(d: Directive): (r: Directive)
    ensures |r.rest| <= |d.rest|
    ensures r.flags.precision == d.flags.precision && r.precision == d.precision
  {
    if IsDigit(Head(d.rest)) then
      var (width, rest) := TakeNumber(d.rest, 0);
      d.(width := width, rest := rest)
    else if Head(d.rest) == '*' then
      var w := Int(NumArg(d.args));
      d.(flags := if w < 0 then d.flags.(left := true) else d.flags,
         width := if w < 0 then -w else w,
         rest := d.rest[1..], args := Tail(d.args))
    else d
  }

  function TakePrecision(d: Directive): (r: Directive)
    ensures |r.rest| <= |d.rest|
    ensures !r.flags.precision ==> r.precision == d.precision
  {
    if Head(d.rest) != '.' then d
    else
      var e := d.(flags := d.flags.(precision := true), rest := d.rest[1..]);
      if IsDigit(Head(e.rest)) then
        var (precision, rest) := TakeNumber(e.rest, 0);
        e.(precision := precision, rest := rest)
      else if Head(e.rest) == '*' then
        var p := Int(NumArg(e.args));
        e.(precision := if p > 0 then p else 0, rest := e.rest[1..], args := Tail(e.args))
      else e
  }

  /** The character after the first. */
  function Second(f: string): char {
    if f == "" then 0 as char else Head(f[1..])
  }

  /** How many characters the length modifier takes, when it begins with `c` and then `next`. */
  function LengthSize(c: char, next: char): nat {
    if c == 'l' || c == 'h' then if next == c then 2 else 1
    else if c == 't' || c == 'j' || c == 'z' then 1
    else 0
  }

  // The flags that a length modifier sets.
  predicate SetsChar(c: char, next: char) {
    c == 'h' && next == 'h'
  }

  predicate SetsShort(c: char) {
    c == 'h'
  }

  predicate SetsLong(c: char) {
    c == 'l' || c == 't' || c == 'z'
  }

  predicate SetsLongLong(c: char, next: char) {
    c == 'j' || (c == 'l' && next == 'l')
  }

  function LengthFlags(c: char, next: char, flags: Flags): (g: Flags)
    ensures g.precision == flags.precision
  {
    Flags(flags.zeropad, flags.left, flags.plus, flags.space, flags.hash, flags.uppercase,
          flags.isChar || SetsChar(c, next), flags.isShort || SetsShort(c), flags.isLong || SetsLong(c),
          flags.longLong || SetsLongLong(c, next), flags.precision)
  }

  function TakeLength(d: Directive): (r: Directive)
    ensures |r.rest| <= |d.rest|
    ensures r.flags.precision == d.flags.precision && r.precision == d.precision
  {
    var (c, next) := (Head(d.rest), Second(d.rest));
    d.(flags := LengthFlags(c, next, d.flags), rest := d.rest[LengthSize(c, next)..])
  }

  function Begin(f: string, args: seq<Arg>): (d: Directive)
    ensures |d.rest| <= |f| && !d.flags.precision && d.precision == 0
  {
    var (flags, rest) := TakeFlags(f, NO_FLAGS);
    Directive(flags, 0, 0, rest, args)
  }

  /** Flags, width, precision and length; the rest begins with the conversion. */
  function Parse(f: string, args: seq<Arg>): (d: Directive)
    ensures |d.rest| <= |f|
    ensures !d.flags.precision ==> d.precision == 0
  {
    TakeLength(TakePrecision(TakeWidth(Begin(f, args))))
  }

  predicate IsInteger(c: char) {
    c == 'd' || c == 'i' || c == 'u' || c == 'x' || c == 'X' || c == 'o' || c == 'b'
  }

  predicate IsSigned(c: char) {
    c == 'd' || c == 'i'
  }

  function BaseOf(c: char): Base {
    if c == 'x' || c == 'X' then 16 else if c == 'o' then 8 else if c == 'b' then 2 else 10
  }

  predicate SameLength(f: Flags, flags: Flags) {
    f.isChar == flags.isChar && f.isShort == flags.isShort && f.isLong == flags.isLong && f.longLong == flags.longLong
  }

  predicate SameSigns(f: Flags, flags: Flags) {
    f.plus == flags.plus && f.space == flags.space
  }

  // The flags that matter for an integer conversion, adjusted in four steps.
  function HashFlag(c: char, flags: Flags): (f: Flags)
    ensures f.left == flags.left && f.precision == flags.precision && f.zeropad == flags.zeropad
    ensures SameLength(f, flags) && (f.hash <==> flags.hash && BaseOf(c) != 10)
    ensures SameSigns(f, flags) && f.uppercase == flags.uppercase
  {
    if BaseOf(c) == 10 then flags.(hash := false) else flags
  }

  function CaseFlag(c: char, flags: Flags): (f: Flags)
    ensures f.left == flags.left && f.precision == flags.precision && f.zeropad == flags.zeropad
    ensures SameLength(f, flags) && f.hash == flags.hash
    ensures SameSigns(f, flags) && (f.uppercase <==> flags.uppercase || c == 'X')
  {
    if c == 'X' then flags.(uppercase := true) else flags
  }

  function SignFlags(c: char, flags: Flags): (f: Flags)
    ensures f.left == flags.left && (if IsSigned(c) then SameSigns(f, flags) else !f.plus && !f.space)
    ensures f.precision == flags.precision && f.zeropad == flags.zeropad
    ensures SameLength(f, flags) && f.hash == flags.hash && f.uppercase == flags.uppercase
  {
    if IsSigned(c) then flags else flags.(plus := false, space := false)
  }

  function ZeroFlag(flags: Flags): (f: Flags)
    ensures f.left == flags.left && f.plus == flags.plus && f.space == flags.space
    ensures f.precision == flags.precision && (f.zeropad <==> flags.zeropad && !flags.precision)
    ensures SameLength(f, flags) && f.hash == flags.hash && f.uppercase == flags.uppercase
  {
    if flags.precision then flags.(zeropad := false) else flags
  }

  /** Only signed conversions keep sign flags; with a precision the `0` flag is ignored. */
  function IntFlags(c: char, flags: Flags): (f: Flags)
    ensures f.left == flags.left && (if IsSigned(c) then SameSigns(f, flags) else !f.plus && !f.space)
    ensures f.precision == flags.precision && (f.zeropad <==> flags.zeropad && !flags.precision)
    ensures SameLength(f, flags) && (f.hash <==> flags.hash && BaseOf(c) != 10)
    ensures f.uppercase <==> flags.uppercase || c == 'X'
  {
    ZeroFlag(SignFlags(c, CaseFlag(c, HashFlag(c, flags))))
  }

  function Magnitude(v: int): nat {
    if v > 0 then v else 0 - v
  }

  /** The text of an integer conversion of the argument `v`. */
  function IntText(c: char, v: int, prec: nat, width: nat, flags: Flags): string {
    var f := IntFlags(c, flags);
    if IsSigned(c) then
      var value := SignedValue(f, v);
      IntField(Magnitude(value), value < 0, BaseOf(c), prec, width, f)
    else IntField(UnsignedValue(f, v), false, BaseOf(c), prec, width, f)
  }

  function PointerFlags(flags: Flags): Flags {
    flags.(zeropad := true, uppercase := true)
  }

  /** The text of a directive, and the arguments after it. */
  function Text(d: Directive): string {
    var c := Head(d.rest);
    if IsInteger(c) then IntText(c, NumArg(d.args), d.precision, d.width, d.flags)
    else if c == 'c' then CharField((NumArg(d.args) % 0x100) as char, d.width, d.flags)
    else if c == 's' then StringField(StrArg(d.args), d.precision, d.width, d.flags)
    else if c == 'p' then IntField(NumArg(d.args) % 0x1_0000_0000, false, 16, d.precision, 8, PointerFlags(d.flags))
    else [c]
  }

  function After(d: Directive): seq<Arg> {
    var c := Head(d.rest);
    if IsInteger(c) || c == 'c' || c == 's' || c == 'p' then Tail(d.args) else d.args
  }

  /** The unbounded text of a format. */
  function Render(format: string, args: seq<Arg>): string
    decreases |format|
  {
    if format == "" then ""
    else if format[0] != '%' then [format[0]] + Render(format[1..], args)
    else
      var d := Parse(format[1..], args);
      if d.rest == "" then "" else Text(d) + Render(d.rest[1..], After(d))
  }

  // ----- what a caller must provide -----

  predicate HasNum(args: seq<Arg>) {
    args != [] && args[0].Num?
  }

  predicate StarProvided(f: string, args: seq<Arg>) {
    Head(f) == '*' ==> HasNum(args)
  }

  predicate IsFloating(c: char) {
    c == 'f' || c == 'F' || c == 'e' || c == 'E' || c == 'g' || c == 'G'
  }

  /** The directive ends in a conversion, is not a floating point one, and its arguments are
      there; a string argument is shorter than the address space. */
  predicate Provided(f: string, args: seq<Arg>) {
    var b := Begin(f, args);
    var w := TakeWidth(b);
    var d := Parse(f, args);
    var c := Head(d.rest);
    && StarProvided(b.rest, b.args)
    && (Head(w.rest) == '.' ==> StarProvided(w.rest[1..], w.args))
    && d.rest != "" && !IsFloating(c)
    && (IsInteger(c) || c == 'c' || c == 'p' ==> HasNum(d.args))
    && (c == 's' ==> d.args != [] && d.args[0].Str? && |d.args[0].text| < 0xffff_ffff)
  }

  predicate WellFormed(format: string, args: seq<Arg>)
    decreases |format|
  {
    format == ""
    || (if format[0] != '%' then WellFormed(format[1..], args)
        else Provided(format[1..], args)
             && var d := Parse(format[1..], args); WellFormed(d.rest[1..], After(d)))
  }
}
