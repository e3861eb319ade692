/** The tiny printf as written: loops that fill a scratch buffer and the caller's. */
module Printf {
  import opened PrintfSpec

  /** Where the text goes: the caller's buffer, of which the first `maxlen` characters may be
      written, and the index of the next character. Without a buffer nothing is written. */
  class Sink {
    const buffer: array?<char>
    const maxlen: nat
    ghost const before: seq<char>
    var idx: nat
    ghost var text: string

    /** The buffer holds what fits of the text so far; nothing else has changed. */
    ghost predicate Valid()
      reads this, buffer
    {
      && idx == |text|
      && (buffer != null ==>
            && maxlen <= buffer.Length == |before|
            && forall i :: 0 <= i < buffer.Length ==>
                 buffer[i] == if i < |text| && i < maxlen then text[i] else before[i])
    }

    constructor (buffer: array?<char>, maxlen: nat)
      requires buffer != null ==> maxlen <= buffer.Length
      ensures Valid() && text == "" && this.buffer == buffer && this.maxlen == maxlen
      ensures buffer != null ==> before == buffer[..]
    {
      this.buffer, this.maxlen, idx, text := buffer, maxlen, 0, "";
      before := if buffer == null then [] else buffer[..];
    }

    /** One character to the output function of a buffer, or of none. */
    method Put(c: char)
      requires Valid()
      modifies this, buffer
      ensures Valid() && text == old(text) + [c]
    {
      if buffer != null && idx < maxlen {
        buffer[idx] := c;
      }
      idx := idx + 1;
      text := text + [c];
    }

    /** The terminator, after the text or in the last place. With `maxlen` 0 the place before
        it wraps, and is then out of range. */
    method Terminate()
      requires Valid() && maxlen < 0x1_0000_0000
      modifies buffer
      ensures buffer != null ==> forall i :: 0 <= i < buffer.Length ==>
        buffer[i] == if maxlen > 0 && i < Min(|text|, maxlen - 1) then text[i]
                     else if maxlen > 0 && i == Min(|text|, maxlen - 1) then 0 as char
                     else before[i]
    {
      var last := if idx < maxlen then idx else (maxlen - 1) % 0x1_0000_0000;
      assert maxlen > 0 ==> last == Min(|text|, maxlen - 1);
      if buffer != null && last < maxlen {
        buffer[last] := 0 as char;
      }
    }

    method PutSpaces(n: int)
      requires Valid()
      modifies this, buffer
      ensures Valid() && text == old(text) + Repeat(' ', n)
    {
      var i := 0;
      RepeatSplit(' ', 0, n);
      while i < n
        invariant Valid() && (0 <= i <= n || i == 0)
        invariant text == old(text) + Repeat(' ', i)
      {
        Put(' ');
        RepeatSplit(' ', i, 1);
        i := i + 1;
      }
    }

    /** The characters of the scratch buffer, last one first. */
    method PutReversed(buf: array<char>, len: nat)
      requires Valid() && len <= buf.Length && buf != buffer
      modifies this, buffer
      ensures Valid() && text == old(text) + Reverse(buf[..len])
    {
      var n := len;
      while n > 0
        invariant Valid() && 0 <= n <= len && buf[..len] == old(buf[..len])
        invariant text + Reverse(buf[..n]) == old(text) + Reverse(buf[..len])
      {
        n := n - 1;
        ReverseLast(buf[..n], buf[n]);
        assert buf[..n + 1] == buf[..n] + [buf[n]];
        assert text + ([buf[n]] + Reverse(buf[..n])) == text + [buf[n]] + Reverse(buf[..n]);
        Put(buf[n]);
      }
      assert text + "" == text;
    }

    /** _out_rev. */
    method OutRev(buf: array<char>, len: nat, width: nat, flags: Flags)
      requires Valid() && len <= buf.Length && buf != buffer
      modifies this, buffer
      ensures Valid() && text == old(text) + Field(buf[..len], width, flags)
    {
      ghost var s, left, right := buf[..len],
        if flags.left || flags.zeropad then "" else Repeat(' ', width - len),
        if flags.left then Repeat(' ', width - len) else "";
      if !flags.left && !flags.zeropad {
        PutSpaces(width - len);
      }
      assert text == old(text) + left;
      PutReversed(buf, len);
      if flags.left {
        PutSpaces(width - len);
      }
      assert text == old(text) + left + Reverse(s) + right;
      JoinParts(old(text), left, Reverse(s), right);
    }
  }

  lemma JoinParts(a: string, b: string, c: string, d: string)
    ensures a + b + c + d == a + (b + c + d)
  {
  }

  lemma {:induction false} RepeatSplit(c: char, a: nat, b: int)
    ensures Repeat(c, a) + Repeat(c, b) == Repeat(c, a + if b < 0 then 0 else b)
  {
    if a > 0 {
      RepeatSplit(c, a - 1, b);
    } else if b < 0 {
      assert Repeat(c, b) == "";
    }
  }

  lemma {:induction false} ReverseLast(s: string, c: char)
    ensures Reverse(s + [c]) == [c] + Reverse(s)
  {
    if s == "" {
      assert Reverse([c]) == [c];
    } else {
      assert (s + [c])[1..] == s[1..] + [c];
      ReverseLast(s[1..], c);
    }
  }

  // ----- the scratch buffer -----

  /** Zeros are appended up to a length, as far as there is room. */
  method FillZeros(buf: array<char>, len: nat, n: nat) returns (len': nat)
    requires buf.Length == ROOM && len <= ROOM
    modifies buf
    ensures len' <= ROOM && buf[..len'] == PadTo(old(buf[..len]), n)
  {
    len' := len;
    assert Repeat('0', 0) == "";
    while len' < n && len' < ROOM
      invariant len <= len' <= ROOM && (len' <= n || len' == len)
      invariant buf[..len'] == old(buf[..len]) + Repeat('0', len' - len)
    {
      RepeatSplit('0', len' - len, 1);
      buf[len'] := '0';
      assert buf[..len' + 1] == old(buf[..len]) + Repeat('0', len' - len) + ['0'];
      len' := len' + 1;
    }
  }

  /** A character is appended if there is room. */
  method PushChar(buf: array<char>, len: nat, c: char) returns (len': nat)
    requires buf.Length == ROOM && len <= ROOM
    modifies buf
    ensures len' <= ROOM && buf[..len'] == Push(old(buf[..len]), c)
  {
    len' := len;
    if len < ROOM {
      buf[len] := c;
      len' := len + 1;
    }
  }

  /** The characters given up for the prefix. */
  method Unpad(buf: array<char>, len: nat, base: Base, prec: nat, width: nat, flags: Flags) returns (len': nat)
    requires buf.Length == ROOM && len <= ROOM
    ensures len' <= len && buf[..len'] == Unpadded(buf[..len], base, prec, width, flags)
  {
    len' := len;
    if !flags.precision && len' > 0 && (len' == prec || len' == width) {
      len' := len' - 1;
      if len' > 0 && base == 16 {
        len' := len' - 1;
      }
    }
  }

  /** The part of _ntoa_format for the `#` flag. */
  method Hash(buf: array<char>, len: nat, base: Base, prec: nat, width: nat, flags: Flags) returns (len': nat)
    requires buf.Length == ROOM && len <= ROOM
    modifies buf
    ensures len' <= ROOM && buf[..len'] == WithHash(old(buf[..len]), base, prec, width, flags)
  {
    len' := len;
    if flags.hash {
      len' := Unpad(buf, len, base, prec, width, flags);
      if base == 16 && !flags.uppercase {
        len' := PushChar(buf, len', 'x');
      } else if base == 16 && flags.uppercase {
        len' := PushChar(buf, len', 'X');
      } else if base == 2 {
        len' := PushChar(buf, len', 'b');
      }
      len' := PushChar(buf, len', '0');
    }
  }

  /** _ntoa_format. */
  method NtoaFormat(sink: Sink, buf: array<char>, len: nat, negative: bool, base: Base,
                    prec: nat, width: nat, flags: Flags)
    requires sink.Valid() && buf != sink.buffer && buf.Length == ROOM && len <= ROOM
    modifies sink, sink.buffer, buf
    ensures sink.Valid()
    ensures sink.text == old(sink.text)
                         + Field(Formatted(old(buf[..len]), negative, base, prec, width, flags), width, flags)
  {
    var n, w := len, width;
    if !flags.left {
      if w > 0 && flags.zeropad && (negative || flags.plus || flags.space) {
        w := w - 1;
      }
      n := FillZeros(buf, n, prec);
      if flags.zeropad {
        n := FillZeros(buf, n, w);
      }
    }
    n := Hash(buf, n, base, prec, w, flags);
    if negative {
      n := PushChar(buf, n, '-');
    } else if flags.plus {
      n := PushChar(buf, n, '+');
    } else if flags.space {
      n := PushChar(buf, n, ' ');
    }
    sink.OutRev(buf, n, w, flags);
  }

  /** The digit loop: the index never leaves the 32 characters. */
  method FillDigits(buf: array<char>, value: nat, base: Base, upper: bool) returns (len: nat)
    requires buf.Length == ROOM
    modifies buf
    ensures len <= ROOM && buf[..len] == LowDigits(value, base, upper, ROOM)
  {
    len := 0;
    var rest: nat := value;
    var more := true;
    ghost var room: nat := ROOM;
    while more
      invariant len + room == ROOM && (more ==> room > 0)
      invariant buf[..len] + Remaining(more, rest, base, upper, room) == LowDigits(value, base, upper, ROOM)
      decreases room, more
    {
      rest := StoreDigit(buf, len, rest, base, upper, room);
      len, room := len + 1, room - 1;
      more := rest != 0 && len < ROOM;
    }
    assert buf[..len] + "" == buf[..len];
  }

  /** The digits still to be stored. */
  ghost function Remaining(more: bool, rest: nat, base: Base, upper: bool, room: nat): string {
    if more then LowDigits(rest, base, upper, room) else ""
  }

  /** Stores the lowest digit and divides by the base. */
  method StoreDigit(buf: array<char>, len: nat, value: nat, base: Base, upper: bool, ghost room: nat)
    returns (rest: nat)
    requires len < buf.Length && room > 0
    modifies buf
    ensures buf[..len + 1] + Remaining(rest != 0 && room > 1, rest, base, upper, room - 1)
         == old(buf[..len]) + LowDigits(value, base, upper, room)
  {
    var digit := Digit(value % base, upper);
    rest := value / base;
    ghost var done, tail := buf[..len], Remaining(rest != 0 && room > 1, rest, base, upper, room - 1);
    assert LowDigits(value, base, upper, room) == [digit] + tail;
    buf[len] := digit;
    assert buf[..len + 1] == done + [digit];
    assert done + [digit] + tail == done + ([digit] + tail);
  }

  /** _ntoa_long and _ntoa_long_long. */
  method NtoaLong(sink: Sink, value: nat, negative: bool, base: Base, prec: nat, width: nat, flags: Flags)
    requires sink.Valid()
    modifies sink, sink.buffer
    ensures sink.Valid()
    ensures sink.text == old(sink.text) + IntField(value, negative, base, prec, width, flags)
  {
    var buf := new char[ROOM];
    var len := 0;
    var f := ForValue(value, flags);
    if !f.precision || value != 0 {
      len := FillDigits(buf, value, base, f.uppercase);
    }
    NtoaFormat(sink, buf, len, negative, base, prec, width, f);
  }

  // ----- the other conversions -----

  /** _strnlen_s: the length of a C string, limited by maxsize. */
  method StrnlenS(str: CString, maxsize: nat) returns (n: nat)
    ensures n == Min(|str|, maxsize)
  {
    n := 0;
    var left := maxsize;
    while n < |str| && left > 0
      invariant n <= |str| && n + left == maxsize
    {
      left := left - 1;
      n := n + 1;
    }
  }

  /** The case 'c' of _vsnprintf. */
  method PutCharField(sink: Sink, c: char, width: nat, flags: Flags)
    requires sink.Valid()
    modifies sink, sink.buffer
    ensures sink.Valid() && sink.text == old(sink.text) + CharField(c, width, flags)
  {
    if !flags.left {
      sink.PutSpaces(width - 1);
    }
    sink.Put(c);
    if flags.left {
      sink.PutSpaces(width - 1);
    }
    assert flags.left ==> old(sink.text) + [c] + Repeat(' ', width - 1) == old(sink.text) + CharField(c, width, flags);
    assert !flags.left ==> old(sink.text) + Repeat(' ', width - 1) + [c] == old(sink.text) + CharField(c, width, flags);
  }

  /** The characters of a string, as many as the precision allows. */
  method PutString(sink: Sink, p: CString, precision: nat, flags: Flags)
    requires sink.Valid()
    modifies sink, sink.buffer
    ensures sink.Valid() && sink.text == old(sink.text) + Shown(p, precision, flags)
  {
    var i := 0;
    assert old(sink.text) + p[..0] == old(sink.text);
    while i < |p| && (!flags.precision || i < precision)
      invariant sink.Valid() && i <= |p| && (flags.precision ==> i <= precision)
      invariant sink.text == old(sink.text) + p[..i]
    {
      assert p[..i + 1] == p[..i] + [p[i]];
      sink.Put(p[i]);
      i := i + 1;
    }
    assert p[..|p|] == p;
  }

  /** How many characters of a string are shown. */
  method ShownLength(p: CString, precision: nat, flags: Flags) returns (l: nat)
    requires |p| < 0xffff_ffff && (!flags.precision ==> precision == 0)
    ensures l == |Shown(p, precision, flags)|
  {
    l := StrnlenS(p, if precision != 0 then precision else 0xffff_ffff);
    if flags.precision {
      l := if l < precision then l else precision;
    }
  }

  /** The case 's' of _vsnprintf. */
  method PutStringField(sink: Sink, p: CString, precision: nat, width: nat, flags: Flags)
    requires sink.Valid() && |p| < 0xffff_ffff && (!flags.precision ==> precision == 0)
    modifies sink, sink.buffer
    ensures sink.Valid() && sink.text == old(sink.text) + StringField(p, precision, width, flags)
  {
    var l := ShownLength(p, precision, flags);
    if !flags.left {
      sink.PutSpaces(width - l);
    }
    PutString(sink, p, precision, flags);
    if flags.left {
      sink.PutSpaces(width - l);
    }
    ghost var shown, pad := Shown(p, precision, flags), Repeat(' ', width - l);
    JoinTwo(old(sink.text), shown, pad);
    JoinTwo(old(sink.text), pad, shown);
  }

  /** The integer cases of _vsnprintf. */
  method PutInteger(sink: Sink, c: char, v: int, precision: nat, width: nat, flags: Flags)
    requires sink.Valid() && IsInteger(c)
    modifies sink, sink.buffer
    ensures sink.Valid() && sink.text == old(sink.text) + IntText(c, v, precision, width, flags)
  {
    var base, f := BaseOf(c), IntFlags(c, flags);
    if c == 'i' || c == 'd' {
      var value := SignedValue(f, v);
      NtoaLong(sink, Magnitude(value), value < 0, base, precision, width, f);
    } else {
      NtoaLong(sink, UnsignedValue(f, v), false, base, precision, width, f);
    }
  }

  // ----- directives: `pos` is the format pointer -----

  function At(format: string, pos: nat): char {
    if pos < |format| then format[pos] else 0 as char
  }

  method ReadFlags(format: string, pos: nat) returns (flags: Flags, pos': nat)
    requires pos <= |format|
    ensures pos <= pos' <= |format| && TakeFlags(format[pos..], NO_FLAGS) == (flags, format[pos'..])
  {
    flags, pos' := NO_FLAGS, pos;
    while IsFlag(At(format, pos'))
      invariant pos <= pos' <= |format|
      invariant TakeFlags(format[pos..], NO_FLAGS) == TakeFlags(format[pos'..], flags)
      decreases |format| - pos'
    {
      assert format[pos'..][1..] == format[pos' + 1..];
      flags, pos' := SetFlag(flags, format[pos']), pos' + 1;
    }
  }

  /** _atoi. */
  method Atoi(format: string, pos: nat) returns (i: nat, pos': nat)
    requires pos <= |format|
    ensures pos <= pos' <= |format| && TakeNumber(format[pos..], 0) == (i, format[pos'..])
  {
    i, pos' := 0, pos;
    while IsDigit(At(format, pos'))
      invariant pos <= pos' <= |format|
      invariant TakeNumber(format[pos..], 0) == TakeNumber(format[pos'..], i)
      decreases |format| - pos'
    {
      assert format[pos'..][1..] == format[pos' + 1..];
      i := (i * 10 + (format[pos'] as int - '0' as int)) % 0x1_0000_0000;
      pos' := pos' + 1;
    }
  }

  /** A directive at `pos`, as far as it is parsed: the rest of the format is not copied. */
  datatype Parsed = Parsed(flags: Flags, width: nat, precision: nat, pos: nat, args: seq<Arg>)

  ghost function DirectiveOf(p: Parsed, format: string): Directive
    requires p.pos <= |format|
  {
    Directive(p.flags, p.width, p.precision, format[p.pos..], p.args)
  }

  method ReadWidth(format: string, p: Parsed) returns (q: Parsed)
    requires p.pos <= |format|
    ensures p.pos <= q.pos <= |format| && DirectiveOf(q, format) == TakeWidth(DirectiveOf(p, format))
  {
    q := p;
    if IsDigit(At(format, p.pos)) {
      var width, pos := Atoi(format, p.pos);
      q := p.(width := width, pos := pos);
    } else if At(format, p.pos) == '*' {
      var w := Int(NumArg(p.args));
      q := if w < 0 then p.(flags := p.flags.(left := true), width := -w) else p.(width := w);
      q := q.(pos := p.pos + 1, args := Tail(p.args));
      assert format[p.pos..][1..] == format[p.pos + 1..];
    }
  }

  method ReadPrecision(format: string, p: Parsed) returns (q: Parsed)
    requires p.pos <= |format|
    ensures p.pos <= q.pos <= |format| && DirectiveOf(q, format) == TakePrecision(DirectiveOf(p, format))
  {
    q := p;
    if At(format, p.pos) == '.' {
      assert format[p.pos..][1..] == format[p.pos + 1..];
      q := p.(flags := p.flags.(precision := true), pos := p.pos + 1);
      if IsDigit(At(format, q.pos)) {
        var precision, pos := Atoi(format, q.pos);
        q := q.(precision := precision, pos := pos);
      } else if At(format, q.pos) == '*' {
        assert format[q.pos..][1..] == format[q.pos + 1..];
        var prec := Int(NumArg(q.args));
        q := q.(precision := if prec > 0 then prec else 0, pos := q.pos + 1, args := Tail(q.args));
      }
    }
  }

  method ReadLength(format: string, p: Parsed) returns (q: Parsed)
    requires p.pos <= |format|
    ensures p.pos <= q.pos <= |format| && DirectiveOf(q, format) == TakeLength(DirectiveOf(p, format))
  {
    var c, next := At(format, p.pos), At(format, p.pos + 1);
    q := p.(flags := LengthFlags(c, next, p.flags), pos := p.pos + LengthSize(c, next));
    assert p.pos < |format| ==> format[p.pos..][1..] == format[p.pos + 1..];
    assert format[p.pos..][LengthSize(c, next)..] == format[q.pos..];
  }

  method ReadDirective(format: string, pos: nat, args: seq<Arg>) returns (p: Parsed)
    requires pos <= |format|
    ensures pos <= p.pos <= |format| && DirectiveOf(p, format) == Parse(format[pos..], args)
  {
    var flags, next := ReadFlags(format, pos);
    p := Parsed(flags, 0, 0, next, args);
    p := ReadWidth(format, p);
    p := ReadPrecision(format, p);
    p := ReadLength(format, p);
  }

  /** The switch over the conversion. */
  method PutDirective(sink: Sink, c: char, p: Parsed, ghost d: Directive) returns (args: seq<Arg>)
    requires sink.Valid() && c == Head(d.rest) && d == Directive(p.flags, p.width, p.precision, d.rest, p.args)
    requires c == 's' ==> |StrArg(d.args)| < 0xffff_ffff && (!d.flags.precision ==> d.precision == 0)
    modifies sink, sink.buffer
    ensures sink.Valid() && sink.text == old(sink.text) + Text(d) && args == After(d)
  {
    args := p.args;
    if IsInteger(c) {
      PutInteger(sink, c, NumArg(args), p.precision, p.width, p.flags);
      args := Tail(args);
    } else if c == 'c' {
      PutCharField(sink, (NumArg(args) % 0x100) as char, p.width, p.flags);
      args := Tail(args);
    } else if c == 's' {
      PutStringField(sink, StrArg(args), p.precision, p.width, p.flags);
      args := Tail(args);
    } else if c == 'p' {
      NtoaLong(sink, NumArg(args) % 0x1_0000_0000, false, 16, p.precision, 8, PointerFlags(p.flags));
      args := Tail(args);
    } else {
      sink.Put(c);
    }
  }

  /** What a directive needs to be printed. */
  predicate Printable(d: Directive) {
    && d.rest != "" && (!d.flags.precision ==> d.precision == 0)
    && (Head(d.rest) == 's' ==> |StrArg(d.args)| < 0xffff_ffff)
  }

  lemma ProvidedPrintable(f: string, args: seq<Arg>)
    requires Provided(f, args)
    ensures Printable(Parse(f, args))
  {
  }

  /** From a conversion, whose flags and numbers are read, to after it. */
  method PrintConversion(sink: Sink, format: string, p: Parsed, ghost d: Directive) returns (pos': nat, args: seq<Arg>)
    requires sink.Valid() && p.pos <= |format| && d == DirectiveOf(p, format) && Printable(d)
    modifies sink, sink.buffer
    ensures p.pos < pos' <= |format| && format[pos'..] == d.rest[1..] && args == After(d)
    ensures sink.Valid() && sink.text == old(sink.text) + Text(d)
  {
    assert format[p.pos..][1..] == format[p.pos + 1..];
    args := PutDirective(sink, format[p.pos], p, d);
    pos' := p.pos + 1;
  }

  /** The loop of _vsnprintf over the format. */
  method Print(sink: Sink, format: string, va: seq<Arg>)
    requires sink.Valid() && WellFormed(format, va)
    modifies sink, sink.buffer
    ensures sink.Valid() && sink.text == old(sink.text) + Render(format, va)
  {
    var pos, args := 0, va;
    assert format[0..] == format;
    while pos < |format|
      invariant pos <= |format| && sink.Valid() && WellFormed(format[pos..], args)
      invariant sink.text + Render(format[pos..], args) == old(sink.text) + Render(format, va)
      decreases |format| - pos
    {
      assert format[pos..][1..] == format[pos + 1..];
      ghost var before := sink.text;
      if format[pos] != '%' {
        sink.Put(format[pos]);
        JoinTwo(before, [format[pos]], Render(format[pos + 1..], args));
        pos := pos + 1;
      } else {
        ghost var d := Parse(format[pos + 1..], args);
        ProvidedPrintable(format[pos + 1..], args);
        var p := ReadDirective(format, pos + 1, args);
        pos, args := PrintConversion(sink, format, p, d);
        JoinTwo(before, Text(d), Render(format[pos..], args));
      }
    }
    assert sink.text + "" == sink.text;
  }

  lemma JoinTwo(a: string, b: string, c: string)
    ensures a + b + c == a + (b + c)
  {
  }

  /** snprintf_, vsnprintf_: the count returned is that of the whole text; the buffer holds
      what fits of it before a terminator, and nothing else is written. */
  method Snprintf(buffer: array?<char>, count: nat, format: CString, va: seq<Arg>) returns (n: nat)
    requires buffer != null ==> count <= buffer.Length
    requires count < 0x1_0000_0000 && WellFormed(format, va)
    modifies buffer
    ensures n == |Render(format, va)|
    ensures buffer != null ==> forall i :: 0 <= i < buffer.Length ==>
      buffer[i] == if count > 0 && i < Min(n, count - 1) then Render(format, va)[i]
                   else if count > 0 && i == Min(n, count - 1) then 0 as char
                   else old(buffer[i])
  {
    var sink := new Sink(buffer, count);
    Print(sink, format, va);
    assert sink.text == Render(format, va) by { assert "" + Render(format, va) == Render(format, va); }
    sink.Terminate();
    n := sink.idx;
  }
}
