/** Root certificates: the list of their names, packed for a caller with a buffer, and the
    loop that loads each of them. */
module Certificates {
  import opened Bytes

  type UniChar = c: int | 0 <= c < 0x1_0000
  type Char = c: int | 0 <= c < 0x100

  /** A frame slot that may hold a certificate. */
  datatype Slot = Nil | Binary(bytes: seq<Byte>) | Other

  datatype Entry = Entry(tag: seq<UniChar>, trusted: bool, pem: Slot, der: Slot)

  /** The package soup, the union soup of the user if there is one, and the encoding by which
      the system makes a string of the characters of a name. */
  datatype Store = Store(package: seq<Entry>, user: Option<seq<Entry>>, decode: Char -> UniChar)

  // ----- queries -----

  /** A query by tag: its first entry. */
  function Find(soup: seq<Entry>, tag: seq<UniChar>): (entry: Option<Entry>)
    ensures entry.Some? ==> entry.value in soup && entry.value.tag == tag
    ensures entry == None ==> forall e :: e in soup ==> e.tag != tag
  {
    if soup == [] then None
    else if soup[0].tag == tag then Some(soup[0])
    else Find(soup[1..], tag)
  }

  function FindUser(store: Store, tag: seq<UniChar>): Option<Entry> {
    if store.user.Some? then Find(store.user.value, tag) else None
  }

  /** The user's entry of a tag hides that of the package. */
  function Resolve(store: Store, tag: seq<UniChar>): Option<Entry> {
    if FindUser(store, tag).Some? then FindUser(store, tag) else Find(store.package, tag)
  }

  /** The certificate of a trusted entry, if it is a binary. */
  function CertificateOf(entry: Entry): Option<seq<Byte>> {
    var slot := if entry.pem == Nil then entry.der else entry.pem;
    if entry.trusted && slot.Binary? then Some(slot.bytes) else None
  }

  function Certificate(store: Store, tag: seq<UniChar>): Option<seq<Byte>> {
    var entry := Resolve(store, tag);
    if entry.Some? then CertificateOf(entry.value) else None
  }

  // ----- what a query gives -----

  /** The entry at `i` is the first of its tag. */
  predicate FirstAt(soup: seq<Entry>, tag: seq<UniChar>, i: nat) {
    i < |soup| && soup[i].tag == tag && forall j :: 0 <= j < i ==> soup[j].tag != tag
  }

  /** A query finds the first entry of the tag, wherever it is. */
  lemma {:induction false} FindsFirst(soup: seq<Entry>, tag: seq<UniChar>, i: nat)
    requires FirstAt(soup, tag, i)
    ensures Find(soup, tag) == Some(soup[i])
  {
    if i > 0 {
      assert forall j :: 0 <= j < |soup| - 1 ==> soup[1..][j] == soup[j + 1];
      FindsFirst(soup[1..], tag, i - 1);
    }
  }

  predicate NoneOf(soup: seq<Entry>, tag: seq<UniChar>) {
    forall e :: e in soup ==> e.tag != tag
  }

  /** The user's first entry of a tag is used, whatever the package has; without one the first
      of the package is. */
  lemma UserOverrides(store: Store, tag: seq<UniChar>, i: nat)
    ensures store.user.Some? && FirstAt(store.user.value, tag, i) ==>
      Resolve(store, tag) == Some(store.user.value[i])
    ensures (store.user == None || NoneOf(store.user.value, tag)) && FirstAt(store.package, tag, i) ==>
      Resolve(store, tag) == Some(store.package[i])
    ensures (store.user == None || NoneOf(store.user.value, tag)) && NoneOf(store.package, tag) ==>
      Resolve(store, tag) == None
  {
    if store.user.Some? && FirstAt(store.user.value, tag, i) { FindsFirst(store.user.value, tag, i); }
    if FirstAt(store.package, tag, i) { FindsFirst(store.package, tag, i); }
  }

  /** The certificate in the slots of an entry: the PEM one, whatever the other slot holds, and
      the DER one where there is none; none without trust. */
  function InSlots(entry: Entry): Option<seq<Byte>> {
    match (entry.trusted, entry.pem, entry.der)
    case (false, _, _) => None
    case (true, Binary(pem), _) => Some(pem)
    case (true, Nil, Binary(der)) => Some(der)
    case (true, Nil, _) => None
    case (true, Other, _) => None
  }

  lemma CertificateInSlots(entry: Entry)
    ensures CertificateOf(entry) == InSlots(entry)
  {
  }

  /** The string that a query for a name looks for. */
  function Decoded(store: Store, name: seq<Char>): (tag: seq<UniChar>) {
    if name == [] then [] else [store.decode(name[0])] + Decoded(store, name[1..])
  }

  /** The certificate that a name gives. */
  function Named(store: Store, name: seq<Char>): Option<seq<Byte>> {
    Certificate(store, Decoded(store, name))
  }

  /** `GetRootCertificate`: the size of the certificate, or -1; it is written if there is room,
      and the size in use then reported. */
  method GetRootCertificate(store: Store, name: seq<Char>, outBuf: array<Byte>, ioSize: nat)
    returns (result: int, ioSize': nat)
    requires ioSize <= outBuf.Length
    modifies outBuf
    ensures Named(store, name) == None ==> result == -1
    ensures Named(store, name).Some? ==> result == |Named(store, name).value|
    ensures if 0 <= result <= ioSize
            then ioSize' == result && outBuf[..result] == Named(store, name).value
              && outBuf[result..] == old(outBuf[result..])
            else ioSize' == ioSize && outBuf[..] == old(outBuf[..])
    ensures var entry := Resolve(store, Decoded(store, name));
      if entry.Some? && InSlots(entry.value).Some? then
        var cert := InSlots(entry.value).value;
        result == |cert| && (|cert| <= ioSize ==> outBuf[..|cert|] == cert)
      else result == -1
  {
    ioSize' := ioSize;
    var tag := Decoded(store, name);
    var entry := FindUser(store, tag);
    if entry == None {
      entry := Find(store.package, tag);
    }
    if entry == None || !entry.value.trusted {
      return -1, ioSize';
    }
    var cert := entry.value.pem;
    if cert == Nil {
      cert := entry.value.der;
    }
    if !cert.Binary? {
      return -1, ioSize';
    }
    result := |cert.bytes|;
    if ioSize >= result {
      forall i | 0 <= i < result {
        outBuf[i] := cert.bytes[i];
      }
      ioSize' := result;
    }
  }

  // ----- packed names -----

  /** The C string of a tag: low bytes, up to the first that is zero. */
  function CName(tag: seq<UniChar>): (name: seq<Char>)
    ensures 0 !in name
  {
    if tag == [] || tag[0] % 0x100 == 0 then [] else [tag[0] % 0x100] + CName(tag[1..])
  }

  /** The name of a tag: its low bytes, as long as none of them is zero. */
  lemma {:induction false} NameOfTag(tag: seq<UniChar>, k: nat)
    requires k <= |tag| && (forall i :: 0 <= i < k ==> tag[i] % 0x100 != 0) && (k < |tag| ==> tag[k] % 0x100 == 0)
    ensures |CName(tag)| == k && forall i :: 0 <= i < k ==> CName(tag)[i] == tag[i] % 0x100
  {
    if k > 0 {
      assert forall i :: 0 <= i < |tag| - 1 ==> tag[1..][i] == tag[i + 1];
      NameOfTag(tag[1..], k - 1);
    }
  }

  function Pack(names: seq<seq<Char>>): seq<Char> {
    if names == [] then [] else names[0] + [0] + Pack(names[1..])
  }

  /** The entries a cursor visits that moves by `step`. */
  function Visited(soup: seq<Entry>, step: nat): seq<Entry>
    requires step > 0
  {
    if soup == [] then [] else [soup[0]] + Visited(soup[if step < |soup| then step else |soup|..], step)
  }

  /** The package's entries that the user does not override. */
  function Unhidden(store: Store, soup: seq<Entry>): seq<Entry> {
    if soup == [] then []
    else (if FindUser(store, soup[0].tag) == None then [soup[0]] else []) + Unhidden(store, soup[1..])
  }

  /** The entries listed: those of the package, then those of the user. */
  function Listed(store: Store, step: nat): seq<Entry>
    requires step > 0
  {
    Unhidden(store, store.package) + (if store.user.Some? then Visited(store.user.value, step) else [])
  }

  function Names(entries: seq<Entry>): seq<seq<Char>> {
    seq(|entries|, i requires 0 <= i < |entries| => CName(entries[i].tag))
  }

  lemma {:induction false} PackAppend(a: seq<seq<Char>>, b: seq<seq<Char>>)
    ensures Pack(a + b) == Pack(a) + Pack(b)
  {
    if a == [] {
      assert a + b == b;
    } else {
      assert (a + b)[1..] == a[1..] + b;
      PackAppend(a[1..], b);
      assert a[0] + [0] + (Pack(a[1..]) + Pack(b)) == a[0] + [0] + Pack(a[1..]) + Pack(b);
    }
  }

  // ----- ListRootCertificates -----

  lemma Associate<T>(a: seq<T>, b: seq<T>, c: seq<T>)
    ensures a + (b + c) == a + b + c
  {
  }

  /** The output cursor: the index of the next character, or NULL (-1), once the buffer is
      full or if there is none; and what it has written of `text`. */
  ghost predicate WrittenPrefix(outBuf: array?<Char>, before: seq<Char>, capacity: nat, text: seq<Char>,
                                cursor: int, written: nat)
    reads outBuf
  {
    if outBuf == null then cursor == -1 && written == 0
    else
      && written == (if |text| < capacity then |text| else capacity) && capacity <= outBuf.Length == |before|
      && cursor == (if |text| < capacity then |text| else -1)
      && outBuf[..] == text[..written] + before[written..]
  }

  /** Writes one character at the cursor, which becomes NULL when it meets the end. */
  method PutChar(outBuf: array?<Char>, ghost before: seq<Char>, capacity: nat, ghost text: seq<Char>,
                 c: Char, cursor: int, written: nat)
    returns (cursor': int, written': nat)
    requires (outBuf != null ==> capacity > 0) && WrittenPrefix(outBuf, before, capacity, text, cursor, written)
    modifies outBuf
    ensures WrittenPrefix(outBuf, before, capacity, text + [c], cursor', written')
  {
    cursor', written' := cursor, written;
    if cursor != -1 {
      outBuf[cursor] := c;
      cursor', written' := cursor + 1, written + 1;
      if cursor' == capacity {
        cursor' := -1;
      }
    }
  }

  /** The loop that writes one name and its terminator. */
  method PutName(outBuf: array?<Char>, ghost before: seq<Char>, capacity: nat, ghost text: seq<Char>,
                 tag: seq<UniChar>, cursor: int, written: nat, total: nat)
    returns (cursor': int, written': nat, total': nat)
    requires (outBuf != null ==> capacity > 0) && total == |text|
    requires WrittenPrefix(outBuf, before, capacity, text, cursor, written)
    modifies outBuf
    ensures WrittenPrefix(outBuf, before, capacity, text + NameText(tag), cursor', written')
    ensures total' == |text + NameText(tag)|
  {
    cursor', written', total' := cursor, written, total;
    var i := 0;
    ghost var done := text;
    assert tag[0..] == tag && text + CName(tag) == done + CName(tag[0..]);
    while true
      invariant i <= |tag| && WrittenPrefix(outBuf, before, capacity, done, cursor', written') && total' == |done|
      invariant done + CName(tag[i..]) == text + CName(tag)
      decreases |tag| - i
    {
      var c: Char := if i < |tag| then tag[i] % 0x100 else 0;
      cursor', written' := PutChar(outBuf, before, capacity, done, c, cursor', written');
      total' := total' + 1;
      ghost var previous := done;
      done := done + [c];
      if c == 0 {
        assert previous + [] == previous == text + CName(tag);
        Associate(text, CName(tag), [0]);
        break;
      }
      assert tag[i..][1..] == tag[i + 1..];
      i := i + 1;
    }
  }

  function NameText(tag: seq<UniChar>): seq<Char> {
    CName(tag) + [0]
  }

  function Next(soup: seq<Entry>, i: nat, step: nat): (j: nat)
    requires i < |soup| && step > 0
    ensures i < j <= |soup|
  {
    if i + step < |soup| then i + step else |soup|
  }

  // What each loop still writes, from position i of its soup.
  function PackageText(store: Store, soup: seq<Entry>, i: nat): seq<Char>
    requires i <= |soup|
    decreases |soup| - i
  {
    if i == |soup| then []
    else (if FindUser(store, soup[i].tag) == None then NameText(soup[i].tag) else []) + PackageText(store, soup, i + 1)
  }

  function UserText(soup: seq<Entry>, i: nat, step: nat): seq<Char>
    requires i <= |soup| && step > 0
    decreases |soup| - i
  {
    if i == |soup| then [] else NameText(soup[i].tag) + UserText(soup, Next(soup, i, step), step)
  }

  /** All that ListRootCertificates writes, given room. */
  function ListText(store: Store, step: nat): seq<Char>
    requires step > 0
  {
    PackageText(store, store.package, 0) + (if store.user.Some? then UserText(store.user.value, 0, step) else [])
  }

  /** The first loop, over the package's soup. */
  method ListPackage(store: Store, outBuf: array?<Char>, ghost before: seq<Char>, capacity: nat,
                     cursor: int, written: nat)
    returns (cursor': int, written': nat, total': nat, ghost text: seq<Char>)
    requires outBuf != null ==> capacity > 0 || PackageText(store, store.package, 0) == []
    requires WrittenPrefix(outBuf, before, capacity, [], cursor, written)
    modifies outBuf
    ensures WrittenPrefix(outBuf, before, capacity, text, cursor', written') && total' == |text|
    ensures text == PackageText(store, store.package, 0)
  {
    var soup := store.package;
    cursor', written', total', text := cursor, written, 0, [];
    var i := 0;
    while i < |soup|
      invariant i <= |soup| && WrittenPrefix(outBuf, before, capacity, text, cursor', written') && total' == |text|
      invariant text + PackageText(store, soup, i) == PackageText(store, soup, 0)
    {
      var tag := soup[i].tag;
      var unionEntry := FindUser(store, tag);
      if unionEntry == None {
        Associate(text, NameText(tag), PackageText(store, soup, i + 1));
        cursor', written', total' := PutName(outBuf, before, capacity, text, tag, cursor', written', total');
        text := text + NameText(tag);
      } else {
        assert PackageText(store, soup, i) == PackageText(store, soup, i + 1);
      }
      i := i + 1;
    }
    assert text + [] == text;
  }

  /** The second loop, over the user's soup. */
  method ListUser(soup: seq<Entry>, step: nat, outBuf: array?<Char>, ghost before: seq<Char>, capacity: nat,
                  ghost start: seq<Char>, cursor: int, written: nat, total: nat)
    returns (cursor': int, written': nat, total': nat, ghost text: seq<Char>)
    requires step > 0 && (outBuf != null ==> capacity > 0 || soup == [])
    requires WrittenPrefix(outBuf, before, capacity, start, cursor, written) && total == |start|
    modifies outBuf
    ensures WrittenPrefix(outBuf, before, capacity, text, cursor', written') && total' == |text|
    ensures text == start + UserText(soup, 0, step)
  {
    cursor', written', total', text := cursor, written, total, start;
    var i := 0;
    while i < |soup|
      invariant i <= |soup| && WrittenPrefix(outBuf, before, capacity, text, cursor', written') && total' == |text|
      invariant text + UserText(soup, i, step) == start + UserText(soup, 0, step)
    {
      var tag := soup[i].tag;
      Associate(text, NameText(tag), UserText(soup, Next(soup, i, step), step));
      cursor', written', total' := PutName(outBuf, before, capacity, text, tag, cursor', written', total');
      text := text + NameText(tag);
      i := Next(soup, i, step);
    }
    assert text + [] == text;
  }

  /** `ListRootCertificates`: the size of all names, packed, and as much of them as the
      buffer holds. The user's cursor moves by `step`. A buffer of size 0 is only passed when
      there is nothing to list. */
  method ListRootCertificates(store: Store, step: nat, outBuf: array?<Char>, ioSize: nat)
    returns (totalSize: nat, writtenSize: nat)
    requires step > 0
    requires outBuf != null ==> ioSize <= outBuf.Length && (ioSize > 0 || ListText(store, step) == [])
    modifies outBuf
    ensures totalSize == |ListText(store, step)|
    ensures writtenSize == if outBuf == null then 0 else if totalSize < ioSize then totalSize else ioSize
    ensures outBuf != null ==> outBuf[..] == ListText(store, step)[..writtenSize] + old(outBuf[writtenSize..])
  {
    ghost var before := if outBuf == null then [] else outBuf[..];
    var bufCursor := if outBuf == null || ioSize == 0 then -1 else 0;
    writtenSize := 0;
    ghost var text: seq<Char>;
    assert outBuf != null ==> outBuf[..] == [][..0] + before[0..];
    bufCursor, writtenSize, totalSize, text := ListPackage(store, outBuf, before, ioSize, bufCursor, writtenSize);
    if store.user.Some? {
      bufCursor, writtenSize, totalSize, text :=
        ListUser(store.user.value, step, outBuf, before, ioSize, text, bufCursor, writtenSize, totalSize);
    } else {
      assert text + [] == text;
    }
  }

  // ----- what the list means -----

  lemma NamesCons(entry: Entry, rest: seq<Entry>)
    ensures Pack(Names([entry] + rest)) == NameText(entry.tag) + Pack(Names(rest))
  {
    assert Names([entry] + rest) == [CName(entry.tag)] + Names(rest);
  }

  lemma NamesAppend(a: seq<Entry>, b: seq<Entry>)
    ensures Pack(Names(a + b)) == Pack(Names(a)) + Pack(Names(b))
  {
    assert Names(a + b) == Names(a) + Names(b);
    PackAppend(Names(a), Names(b));
  }

  lemma {:induction false} PackageTextIsPacked(store: Store, soup: seq<Entry>, i: nat)
    requires i <= |soup|
    ensures PackageText(store, soup, i) == Pack(Names(Unhidden(store, soup[i..])))
    decreases |soup| - i
  {
    if i < |soup| {
      PackageTextIsPacked(store, soup, i + 1);
      assert soup[i..][1..] == soup[i + 1..];
      var rest := Unhidden(store, soup[i + 1..]);
      NamesCons(soup[i], rest);
      assert [] + rest == rest && [] + PackageText(store, soup, i + 1) == PackageText(store, soup, i + 1);
    }
  }

  lemma {:induction false} UserTextIsPacked(soup: seq<Entry>, i: nat, step: nat)
    requires i <= |soup| && step > 0
    ensures UserText(soup, i, step) == Pack(Names(Visited(soup[i..], step)))
    decreases |soup| - i
  {
    if i < |soup| {
      var next := Next(soup, i, step);
      UserTextIsPacked(soup, next, step);
      assert soup[i..][if step < |soup[i..]| then step else |soup[i..]|..] == soup[next..];
      NamesCons(soup[i], Visited(soup[next..], step));
    }
  }

  /** The text of the list is the packed names of the entries listed. */
  lemma ListTextIsPacked(store: Store, step: nat)
    requires step > 0
    ensures ListText(store, step) == Pack(Names(Listed(store, step)))
  {
    PackageTextIsPacked(store, store.package, 0);
    assert store.package[0..] == store.package;
    var users := if store.user.Some? then Visited(store.user.value, step) else [];
    NamesAppend(Unhidden(store, store.package), users);
    if store.user.Some? {
      UserTextIsPacked(store.user.value, 0, step);
      assert store.user.value[0..] == store.user.value;
    }
  }

  /** The names in a buffer, at its terminators. */
  function Split(text: seq<Char>, name: seq<Char>): seq<seq<Char>> {
    if text == [] then []
    else if text[0] == 0 then [name] + Split(text[1..], [])
    else Split(text[1..], name + [text[0]])
  }

  lemma {:induction false} SplitName(read: seq<Char>, name: seq<Char>, rest: seq<Char>)
    requires 0 !in name
    ensures Split(name + [0] + rest, read) == [read + name] + Split(rest, [])
    decreases name
  {
    if name == [] {
      assert (name + [0] + rest)[1..] == rest && read + name == read;
    } else {
      assert (name + [0] + rest)[1..] == name[1..] + [0] + rest;
      SplitName(read + [name[0]], name[1..], rest);
      assert read + [name[0]] + name[1..] == read + name;
    }
  }

  /** Splitting the packed names at their terminators gives them back. */
  lemma {:induction false} SplitPack(names: seq<seq<Char>>)
    requires Strings(names)
    ensures Split(Pack(names), []) == names
  {
    if names != [] {
      SplitName([], names[0], Pack(names[1..]));
      SplitPack(names[1..]);
      assert [] + names[0] == names[0];
    }
  }

  /** The list is made of the names listed, in order. */
  lemma ListSplits(store: Store, step: nat)
    requires step > 0
    ensures Split(ListText(store, step), []) == Names(Listed(store, step))
  {
    ListTextIsPacked(store, step);
    NamesAreStrings(Listed(store, step));
    SplitPack(Names(Listed(store, step)));
  }

  predicate PlainTag(tag: seq<UniChar>) {
    forall i :: 0 <= i < |tag| ==> 0 < tag[i] < 0x100
  }

  /** A name is its tag if and only if all its characters are non-zero bytes. */
  lemma {:induction false} NameIsTag(tag: seq<UniChar>)
    ensures CName(tag) == tag <==> PlainTag(tag)
  {
    if tag != [] {
      var rest := tag[1..];
      NameIsTag(rest);
      assert tag == [tag[0]] + rest;
      assert forall i :: 0 < i < |tag| ==> tag[i] == rest[i - 1];
      assert forall i :: 0 <= i < |rest| ==> rest[i] == tag[i + 1];
      if tag[0] % 0x100 != 0 {
        SamePrefix(tag[0] % 0x100, CName(rest), tag[0], rest);
      }
    }
  }

  /** The tag of an entry can be asked for by its name. */
  predicate Queryable(store: Store, tag: seq<UniChar>) {
    forall i :: 0 <= i < |tag| ==> tag[i] % 0x100 != 0 && store.decode(tag[i] % 0x100) == tag[i]
  }

  /** The query for a name finds its tag if and only if the low byte of no character is zero
      and the system's encoding gives back every character from its low byte. */
  lemma {:induction false} QueryableTags(store: Store, tag: seq<UniChar>)
    ensures Decoded(store, CName(tag)) == tag <==> Queryable(store, tag)
  {
    if tag != [] {
      var rest := tag[1..];
      QueryableTags(store, rest);
      assert tag == [tag[0]] + rest;
      assert forall i :: 0 < i < |tag| ==> tag[i] == rest[i - 1];
      assert forall i :: 0 <= i < |rest| ==> rest[i] == tag[i + 1];
      var c := tag[0] % 0x100;
      if c != 0 {
        assert ([c] + CName(rest))[1..] == CName(rest);
        SamePrefix(store.decode(c), Decoded(store, CName(rest)), tag[0], rest);
      }
    }
  }

  lemma SamePrefix(a: int, s: seq<int>, b: int, t: seq<int>)
    ensures [a] + s == [b] + t <==> a == b && s == t
  {
    if [a] + s == [b] + t {
      assert ([a] + s)[0] == a && ([b] + t)[0] == b && ([a] + s)[1..] == s && ([b] + t)[1..] == t;
    }
  }

  predicate Distinct(soup: seq<Entry>) {
    forall i, j :: 0 <= i < j < |soup| ==> soup[i].tag != soup[j].tag
  }

  lemma {:induction false} UnhiddenMembers(store: Store, soup: seq<Entry>)
    ensures forall e :: e in Unhidden(store, soup) <==> e in soup && FindUser(store, e.tag) == None
    ensures Distinct(soup) ==> Distinct(Unhidden(store, soup))
  {
    if soup != [] {
      UnhiddenMembers(store, soup[1..]);
    }
  }

  /** The package's entries are listed in their order. */
  lemma {:induction false} UnhiddenOrder(store: Store, a: seq<Entry>, e: Entry)
    ensures Unhidden(store, a + [e])
         == Unhidden(store, a) + (if store.user.Some? && Find(store.user.value, e.tag).Some? then [] else [e])
  {
    if a == [] {
      assert [] + [e] == [e];
    } else {
      assert (a + [e])[1..] == a[1..] + [e];
      UnhiddenOrder(store, a[1..], e);
    }
  }

  lemma SuffixMembers(soup: seq<Entry>, n: nat)
    requires 0 < n <= |soup|
    ensures forall e :: e in soup[n..] ==> e in soup
    ensures Distinct(soup) ==> Distinct(soup[n..]) && forall e :: e in soup[n..] ==> e.tag != soup[0].tag
  {
  }

  lemma {:induction false} VisitedMembers(soup: seq<Entry>, step: nat)
    requires step > 0
    ensures forall e :: e in Visited(soup, step) ==> e in soup
    ensures Distinct(soup) ==> Distinct(Visited(soup, step))
  {
    if soup != [] {
      var n := if step < |soup| then step else |soup|;
      VisitedMembers(soup[n..], step);
      SuffixMembers(soup, n);
      if Distinct(soup) { DistinctCons(soup[0], Visited(soup[n..], step)); }
    }
  }

  lemma DistinctCons(e: Entry, soup: seq<Entry>)
    requires Distinct(soup) && forall x :: x in soup ==> x.tag != e.tag
    ensures Distinct([e] + soup)
  {
  }

  lemma {:induction false} VisitedLength(soup: seq<Entry>, step: nat)
    requires step > 0
    ensures |Visited(soup, step)| <= |soup|
  {
    if soup != [] { VisitedLength(soup[if step < |soup| then step else |soup|..], step); }
  }

  /** The cursor visits every `step`-th entry, from the first. */
  lemma {:induction false} VisitedAt(soup: seq<Entry>, step: nat, k: nat)
    requires step > 0
    ensures k < |Visited(soup, step)| <==> k * step < |soup|
    ensures k * step < |soup| ==> Visited(soup, step)[k] == soup[k * step]
    decreases k
  {
    if soup != [] && k > 0 {
      var n := if step < |soup| then step else |soup|;
      assert k * step == (k - 1) * step + step;
      VisitedAt(soup[n..], step, k - 1);
    }
  }

  lemma {:induction false} VisitedByOne(soup: seq<Entry>)
    ensures Visited(soup, 1) == soup
  {
    if soup != [] { VisitedByOne(soup[1..]); }
  }

  /** The user's cursor visits every entry only if it moves by one, or has one to visit. */
  lemma VisitsAll(soup: seq<Entry>, step: nat)
    requires step > 0
    ensures Visited(soup, step) == soup <==> step == 1 || |soup| <= 1
  {
    VisitedByOne(soup);
    if step > 1 && |soup| > 1 {
      VisitedLength(soup[if step < |soup| then step else |soup|..], step);
    }
  }

  /** Of two entries a cursor that moves further than by one visits the first only. */
  lemma SkipsSecond(a: Entry, b: Entry, step: nat)
    requires step > 1
    ensures Visited([a, b], step) == [a]
  {
    assert Visited([], step) == [];
  }

  /** Exactly the package entries that the user does not override are listed, and with
      distinct tags in each soup no tag is listed twice. */
  lemma ListedOnce(store: Store, step: nat)
    requires step > 0
    ensures forall e :: e in store.package && FindUser(store, e.tag) == None ==> e in Listed(store, step)
    ensures forall e :: e in Listed(store, step) ==>
      (e in store.package && FindUser(store, e.tag) == None) || (store.user.Some? && e in store.user.value)
    ensures Distinct(store.package) && (store.user.Some? ==> Distinct(store.user.value))
      ==> Distinct(Listed(store, step))
    ensures step == 1 && store.user.Some? ==> forall e :: e in store.user.value ==> e in Listed(store, step)
  {
    UnhiddenMembers(store, store.package);
    if store.user.Some? {
      VisitedMembers(store.user.value, step);
      VisitsAll(store.user.value, step);
    }
  }

  /** The entries of the package come first, those of the user after them. */
  lemma ListedOrder(store: Store, step: nat, k: nat)
    requires step > 0 && k < |Listed(store, step)|
    ensures var e := Listed(store, step)[k];
      if k < |Unhidden(store, store.package)| then e in store.package && FindUser(store, e.tag) == None
      else store.user.Some? && e in store.user.value
  {
    UnhiddenMembers(store, store.package);
    if store.user.Some? { VisitedMembers(store.user.value, step); }
  }

  /** A user's entry without trust suppresses the package's certificate of the same tag. */
  lemma DistrustSuppresses(store: Store, entry: Entry)
    requires FindUser(store, entry.tag) == Some(entry) && !entry.trusted
    ensures Certificate(store, entry.tag) == None
  {
  }

  // ----- the loading loop -----

  /** The certificates of a list of names, in order, those that are trusted and binary. */
  function Loaded(store: Store, names: seq<seq<Char>>): seq<seq<Byte>> {
    if names == [] then []
    else (if Named(store, names[0]).Some? then [Named(store, names[0]).value] else []) + Loaded(store, names[1..])
  }

  /** strlen. */
  method Strlen(list: array<Char>, name: nat) returns (n: nat)
    requires exists k :: name <= k < list.Length && list[k] == 0
    ensures name + n < list.Length && list[name + n] == 0 && 0 !in list[name..name + n]
  {
    ghost var k :| name <= k < list.Length && list[k] == 0;
    n := 0;
    while list[name + n] != 0
      invariant name + n <= k && 0 !in list[name..name + n]
      decreases k - n
    {
      assert list[name..name + n + 1] == list[name..name + n] + [list[name + n]];
      n := n + 1;
    }
  }

  /** Where two texts have their first terminator, they agree up to there. */
  lemma {:induction false} SameName(a: seq<Char>, b: seq<Char>, s: seq<Char>, t: seq<Char>)
    requires 0 !in a && 0 !in b && a + [0] + s == b + [0] + t
    ensures a == b && s == t
    decreases a
  {
    assert (a + [0] + s)[0] == (b + [0] + t)[0];
    if a == [] || b == [] {
      assert a == [] && b == [];
      assert (a + [0] + s)[1..] == s && (b + [0] + t)[1..] == t;
    } else {
      assert (a + [0] + s)[1..] == a[1..] + [0] + s && (b + [0] + t)[1..] == b[1..] + [0] + t;
      SameName(a[1..], b[1..], s, t);
    }
  }

  predicate Strings(names: seq<seq<Char>>) {
    forall name :: name in names ==> 0 !in name
  }

  lemma NameAt(names: seq<seq<Char>>, n: nat)
    requires n < |names|
    ensures names[n] in names && names[n..] != [] && names[n..][0] == names[n] && names[n..][1..] == names[n + 1..]
  {
  }

  /** The C string at an offset of the list is the name packed there. */
  method ReadName(list: array<Char>, at: nat, ghost names: seq<seq<Char>>, ghost n: nat) returns (name: seq<Char>)
    requires AtName(list[..], at, names, n) && n < |names| && Strings(names)
    ensures name == names[n] && AtName(list[..], at + |name| + 1, names, n + 1)
  {
    NameAt(names, n);
    ghost var text, first, rest := list[..], names[n], Pack(names[n + 1..]);
    assert text[at..] == first + [0] + rest;
    assert list[at + |first|] == text[at..][|first|] == 0;
    var len := Strlen(list, at);
    name := list[at..at + len];
    assert text[at..] == name + [0] + text[at + len + 1..];
    SameName(name, first, text[at + len + 1..], rest);
  }

  /** The size that a query of the name would need. */
  function Needed(store: Store, name: seq<Char>): nat {
    if Named(store, name).Some? then |Named(store, name).value| else 0
  }

  function Sizes(store: Store, names: seq<seq<Char>>): (sizes: seq<int>)
    ensures |sizes| == |names| && forall i :: 0 <= i < |names| ==> sizes[i] == Needed(store, names[i])
  {
    seq(|names|, i requires 0 <= i < |names| => Needed(store, names[i]))
  }

  // Every name, asked as often as `times` says.
  function Asked(names: seq<seq<Char>>, times: seq<nat>): seq<seq<Char>>
    requires |names| == |times|
  {
    if names == [] then [] else seq(times[0], _ => names[0]) + Asked(names[1..], times[1..])
  }

  lemma {:induction false} AskedNext(names: seq<seq<Char>>, times: seq<nat>, name: seq<Char>, n: nat)
    requires |names| == |times|
    ensures Asked(names + [name], times + [n]) == Asked(names, times) + seq(n, _ => name)
  {
    if names == [] {
      assert Asked([name], [n]) == seq(n, _ => name) + Asked([], []);
    } else {
      assert (names + [name])[1..] == names[1..] + [name] && (times + [n])[1..] == times[1..] + [n];
      AskedNext(names[1..], times[1..], name, n);
      Associate(seq(times[0], _ => names[0]), Asked(names[1..], times[1..]), seq(n, _ => name));
    }
  }

  /** The size of a buffer that has grown to hold the first `n` certificates. */
  function Room(sizes: seq<int>, n: nat): (room: nat)
    requires n <= |sizes|
  {
    if n == 0 then 0 else if sizes[n - 1] > Room(sizes, n - 1) then sizes[n - 1] else Room(sizes, n - 1)
  }

  /** How often each of the first `n` names is asked: twice if the buffer has to grow for it. */
  function Times(sizes: seq<int>, n: nat): (times: seq<nat>)
    requires n <= |sizes|
    ensures |times| == n
  {
    if n == 0 then [] else Times(sizes, n - 1) + [if sizes[n - 1] > Room(sizes, n - 1) then 2 else 1]
  }

  /** A certificate is not empty, and larger than all before it. */
  predicate Grows(sizes: seq<int>, i: nat)
    requires i < |sizes|
  {
    sizes[i] > 0 && forall j :: 0 <= j < i ==> sizes[i] > sizes[j]
  }

  lemma {:induction false} RoomIsLargest(sizes: seq<int>, n: nat, size: int)
    requires n <= |sizes|
    ensures size > Room(sizes, n) <==> size > 0 && forall j :: 0 <= j < n ==> size > sizes[j]
  {
    if n > 0 { RoomIsLargest(sizes, n - 1, size); }
  }

  /** Every name is asked once, and a second time exactly if its certificate is larger than
      all before it. */
  lemma {:induction false} OnceOrTwice(sizes: seq<int>, n: nat)
    requires n <= |sizes|
    ensures forall i :: 0 <= i < n ==> Times(sizes, n)[i] == if Grows(sizes, i) then 2 else 1
  {
    if n > 0 {
      OnceOrTwice(sizes, n - 1);
      RoomIsLargest(sizes, n - 1, sizes[n - 1]);
    }
  }

  /** `n` names are done; the next one was asked already if it made the buffer grow to `size`. */
  ghost predicate AskedTo(names: seq<seq<Char>>, sizes: seq<int>, n: nat, again: bool, size: nat,
                          asked: seq<seq<Char>>) {
    && n <= |names| == |sizes| && (again ==> n < |names| && sizes[n] > Room(sizes, n))
    && size == (if again then sizes[n] else Room(sizes, n))
    && asked == Asked(names[..n], Times(sizes, n)) + (if again then [names[n]] else [])
  }

  /** A query that asks for a larger buffer, and one that is answered. */
  lemma AskNext(names: seq<seq<Char>>, sizes: seq<int>, n: nat, again: bool, size: nat, asked: seq<seq<Char>>)
    requires n < |names| && AskedTo(names, sizes, n, again, size, asked)
    ensures if sizes[n] > size then !again && AskedTo(names, sizes, n, true, sizes[n], asked + [names[n]])
            else AskedTo(names, sizes, n + 1, false, size, asked + [names[n]])
  {
    var k := if again then 2 else 1;
    assert names[..n + 1] == names[..n] + [names[n]];
    AskedNext(names[..n], Times(sizes, n), names[n], k);
    var before := Asked(names[..n], Times(sizes, n));
    assert before + [] == before;
    assert asked + [names[n]] == before + seq(if sizes[n] > size then 1 else k, _ => names[n]);
  }

  /** What is parsed of the first `n` names. */
  ghost predicate ParsedTo(store: Store, names: seq<seq<Char>>, n: nat, parsed: seq<seq<Byte>>) {
    n <= |names| && parsed + Loaded(store, names[n..]) == Loaded(store, names)
  }

  /** The certificates parsed, with that of one name more if there is one. */
  function WithNext(parsed: seq<seq<Byte>>, cert: Option<seq<Byte>>): seq<seq<Byte>> {
    if cert.Some? then parsed + [cert.value] else parsed
  }

  lemma ParsedNext(store: Store, names: seq<seq<Char>>, n: nat, parsed: seq<seq<Byte>>)
    requires n < |names| && ParsedTo(store, names, n, parsed)
    ensures ParsedTo(store, names, n + 1, WithNext(parsed, Named(store, names[n])))
  {
    NameAt(names, n);
    var cert, rest := Named(store, names[n]), Loaded(store, names[n + 1..]);
    if cert.Some? {
      Associate(parsed, [cert.value], rest);
    } else {
      assert [] + rest == rest;
    }
  }

  /** Position `at` of the list is where the name number `n` begins. */
  ghost predicate AtName(text: seq<Char>, at: nat, names: seq<seq<Char>>, n: nat) {
    at <= |text| && n <= |names| && text[at..] == Pack(names[n..])
  }

  /** The list ends where the names end. */
  lemma ListEnds(text: seq<Char>, at: nat, names: seq<seq<Char>>, n: nat)
    requires AtName(text, at, names, n)
    ensures at == |text| <==> n == |names|
  {
  }

  lemma AllDone(store: Store, names: seq<seq<Char>>, sizes: seq<int>, size: nat, asked: seq<seq<Char>>,
                parsed: seq<seq<Byte>>)
    requires ParsedTo(store, names, |names|, parsed) && AskedTo(names, sizes, |names|, false, size, asked)
    ensures parsed == Loaded(store, names) && asked == Asked(names, Times(sizes, |names|))
  {
    var n := |names|;
    assert names[n..] == [] && names[..n] == names;
    assert parsed + [] == parsed && Asked(names, Times(sizes, n)) + [] == Asked(names, Times(sizes, n));
  }

  lemma NothingDone(store: Store, names: seq<seq<Char>>)
    ensures AtName(Pack(names), 0, names, 0) && ParsedTo(store, names, 0, [])
    ensures AskedTo(names, Sizes(store, names), 0, false, 0, [])
  {
    assert names[0..] == names && [] + Loaded(store, names) == Loaded(store, names);
    assert names[..0] == [];
  }

  /** One query for a name: either the buffer has to grow, and the name is asked again, or
      the certificate, if there is one, is parsed. */
  method AskName(store: Store, tag: seq<Char>, cert: array<Byte>, parsed: seq<seq<Byte>>)
    returns (again: bool, cert': array<Byte>, parsed': seq<seq<Byte>>)
    modifies cert
    ensures cert' == cert || fresh(cert')
    ensures again <==> Needed(store, tag) > cert.Length
    ensures cert'.Length == if again then Needed(store, tag) else cert.Length
    ensures parsed' == if again then parsed else WithNext(parsed, Named(store, tag))
  {
    cert', parsed' := cert, parsed;
    var result, certSize := GetRootCertificate(store, tag, cert, cert.Length);
    again := result > certSize;
    if again {
      cert' := new Byte[result];
    } else if result >= 0 {
      parsed' := parsed + [cert[..certSize]];
    }
  }

  /** The same, for the next name of a list. */
  method NextName(store: Store, tag: seq<Char>, cert: array<Byte>, parsed: seq<seq<Byte>>, asked: seq<seq<Char>>,
                  ghost names: seq<seq<Char>>, ghost n: nat, ghost again: bool)
    returns (again': bool, cert': array<Byte>, parsed': seq<seq<Byte>>, asked': seq<seq<Char>>)
    requires n < |names| && tag == names[n] && ParsedTo(store, names, n, parsed)
    requires AskedTo(names, Sizes(store, names), n, again, cert.Length, asked)
    modifies cert
    ensures cert' == cert || fresh(cert')
    ensures again' ==> !again
    ensures var n' := if again' then n else n + 1;
      ParsedTo(store, names, n', parsed') && AskedTo(names, Sizes(store, names), n', again', cert'.Length, asked')
  {
    AskNext(names, Sizes(store, names), n, again, cert.Length, asked);
    ParsedNext(store, names, n, parsed);
    again', cert', parsed' := AskName(store, tag, cert, parsed);
    asked' := asked + [tag];
  }

  /** The loop of SSLConfigure over a list of names, with the buffer that grows: it asks for
      each name once, or twice in a row if the buffer has to grow for it, in order. */
  method LoadNames(store: Store, list: array<Char>, ghost names: seq<seq<Char>>)
    returns (parsed: seq<seq<Byte>>, asked: seq<seq<Char>>)
    requires list[..] == Pack(names) && Strings(names)
    ensures parsed == Loaded(store, names)
    ensures asked == Asked(names, Times(Sizes(store, names), |names|))
  {
    var cert := new Byte[0];
    var name: nat := 0;
    var again := false;
    ghost var text, sizes, n := list[..], Sizes(store, names), 0;
    parsed, asked := [], [];
    NothingDone(store, names);
    while name < list.Length
      invariant fresh(cert) && list[..] == text && AtName(text, name, names, n)
      invariant ParsedTo(store, names, n, parsed) && AskedTo(names, sizes, n, again, cert.Length, asked)
      decreases |names| - n, if again then 0 else 1
    {
      ListEnds(text, name, names, n);
      var tag := ReadName(list, name, names, n);
      again, cert, parsed, asked := NextName(store, tag, cert, parsed, asked, names, n, again);
      if !again {
        name, n := name + |tag| + 1, n + 1;
      }
    }
    ListEnds(text, name, names, n);
    AllDone(store, names, sizes, cert.Length, asked, parsed);
  }

  lemma NamesAreStrings(entries: seq<Entry>)
    ensures Strings(Names(entries))
  {
  }

  /** Loading in SSLConfigure: it parses, in the order of the list, the exact bytes of every
      certificate listed, and asks for the names as the loop does. */
  method LoadRootCertificates(store: Store, step: nat)
    returns (parsed: seq<seq<Byte>>, asked: seq<seq<Char>>)
    requires step > 0
    ensures parsed == Loaded(store, Names(Listed(store, step)))
    ensures var names := Names(Listed(store, step)); asked == Asked(names, Times(Sizes(store, names), |names|))
  {
    var listSize, none := ListRootCertificates(store, step, null, 0);
    var list := new Char[listSize];
    var r, written := ListRootCertificates(store, step, list, listSize);
    ListTextIsPacked(store, step);
    NamesAreStrings(Listed(store, step));
    assert list[..] == ListText(store, step);
    parsed, asked := LoadNames(store, list, Names(Listed(store, step)));
  }

  // ----- what is loaded -----

  function CertificatesOf(entries: seq<Entry>): seq<seq<Byte>> {
    if entries == [] then []
    else
      var cert := InSlots(entries[0]);
      (if cert.Some? then [cert.value] else []) + CertificatesOf(entries[1..])
  }

  lemma FindsItself(soup: seq<Entry>, e: Entry)
    requires Distinct(soup) && e in soup
    ensures Find(soup, e.tag) == Some(e)
  {
  }

  lemma {:induction false} LoadsEntries(store: Store, entries: seq<Entry>)
    requires forall e :: e in entries ==> Queryable(store, e.tag) && Resolve(store, e.tag) == Some(e)
    ensures Loaded(store, Names(entries)) == CertificatesOf(entries)
  {
    if entries != [] {
      QueryableTags(store, entries[0].tag);
      CertificateInSlots(entries[0]);
      assert entries[0] in entries;
      assert Names(entries)[1..] == Names(entries[1..]);
      LoadsEntries(store, entries[1..]);
    }
  }

  /** With queryable tags, distinct in each soup, every entry listed is found again by its name:
      what is loaded are the certificates of the entries listed that are trusted. */
  lemma LoadsExactlyListed(store: Store, step: nat)
    requires step > 0
    requires Distinct(store.package) && (store.user.Some? ==> Distinct(store.user.value))
    requires forall e :: e in store.package || (store.user.Some? && e in store.user.value) ==> Queryable(store, e.tag)
    ensures Loaded(store, Names(Listed(store, step))) == CertificatesOf(Listed(store, step))
  {
    ListedOnce(store, step);
    forall e | e in Listed(store, step)
      ensures Queryable(store, e.tag) && Resolve(store, e.tag) == Some(e)
    {
      if store.user.Some? && e in store.user.value {
        FindsItself(store.user.value, e);
      } else {
        FindsItself(store.package, e);
      }
    }
    LoadsEntries(store, Listed(store, step));
  }
}
