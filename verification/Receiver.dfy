/** The receiving half of the TLS connection end: bytes that the inet end delivers, buffered
    until SSLRecvCallback hands them to mbedtls. */
module Receiving {
  import opened Bytes

  /** How the inet end completes a get: with data, with a count of zero, or with an error. */
  datatype GetResult = Data(bytes: seq<Byte>) | Eof | Failed(error: int)

  /** What SSLRecvCallback returns: MBEDTLS_ERR_SSL_WANT_READ, bytes, 0, or an error. */
  datatype RecvResult = WantRead | Copied(bytes: seq<Byte>) | Closed | Error(error: int)

  /** The receive fields of the connection end, and what the outside has seen of them: the
      size of the outstanding request, the bytes delivered by the inet end, the bytes handed
      to mbedtls, and how many bytes mbedtls still wants of the fetch it has begun. */
  datatype Receiver = Receiver(
    pending: bool,
    error: int,
    peerClosed: bool,
    buffer: seq<Byte>,
    requested: nat,
    delivered: seq<Byte>,
    handed: seq<Byte>,
    wanted: nat)

  const IDLE := Receiver(false, 0, false, [], 0, [], [], 0)

  /** The inet end answers a request with at least one byte and no more than were asked
      for, with an end of file, or with an error that is not noErr. */
  predicate LegalGet(requested: nat, get: GetResult) {
    match get
    case Data(bytes) => 0 < |bytes| <= requested
    case Eof => true
    case Failed(error) => error != 0
  }

  /** GetCompleteCB, without the retry message. */
  function GetComplete(r: Receiver, get: GetResult): Receiver {
    match get
    case Data(bytes) => r.(pending := false, buffer := r.buffer + bytes, delivered := r.delivered + bytes)
    case Eof => r.(pending := false, peerClosed := true)
    case Failed(error) => r.(pending := false, error := error)
  }

  /** SSLRecvCallback asks the inet end for what is missing. */
  predicate Asks(r: Receiver, len: nat) {
    r.error == 0 && !r.peerClosed && |r.buffer| < len && !r.pending
  }

  /** The receiver after the request, which the inet end may complete before it returns. */
  function Ask(r: Receiver, len: nat, nested: Option<GetResult>): Receiver {
    if !Asks(r, len) then r
    else
      var asked := r.(pending := true, requested := len - |r.buffer|);
      if nested == None then asked else GetComplete(asked, nested.value)
  }

  predicate LegalNested(r: Receiver, len: nat, nested: Option<GetResult>) {
    Asks(r, len) && nested.Some? ==> LegalGet(len - |r.buffer|, nested.value)
  }

  /** Moving the rest of the buffer to its beginning reads from offset |buffer|, that is,
      past its end: `beyond` is what the heap holds there. */
  function Shifted(buffer: seq<Byte>, copied: nat, beyond: nat -> Byte): seq<Byte>
    requires copied <= |buffer|
  {
    seq(|buffer| - copied, i requires 0 <= i => beyond(i))
  }

  /** The second half of SSLRecvCallback: hand over what there is. */
  function HandOver(r: Receiver, len: nat, beyond: nat -> Byte): (Receiver, RecvResult) {
    if r.error != 0 then (r, Error(r.error))
    else if r.buffer == [] then (r.(wanted := len), WantRead)
    else
      var copied := if |r.buffer| > len then len else |r.buffer|;
      var rest := if copied == |r.buffer| then [] else Shifted(r.buffer, copied, beyond);
      (r.(buffer := rest, handed := r.handed + r.buffer[..copied], wanted := len - copied), Copied(r.buffer[..copied]))
  }

  /** SSLRecvCallback. */
  function Recv(r: Receiver, len: nat, nested: Option<GetResult>, beyond: nat -> Byte): (Receiver, RecvResult) {
    if r.error != 0 then (r, Error(r.error))
    else if r.peerClosed then (r, Closed)
    else HandOver(Ask(r, len, nested), len, beyond)
  }

  /** mbedtls never asks for nothing, and asks again for exactly the bytes still missing
      until a fetch is satisfied. */
  predicate LegalLength(r: Receiver, len: nat) {
    0 < len && (r.wanted > 0 ==> len == r.wanted)
  }

  /** Between callbacks: everything delivered has been handed over or is buffered; what is
      buffered, or outstanding, is no more than mbedtls wants; a request is only outstanding
      while the buffer is empty; an end of file found the buffer empty. */
  ghost predicate Inv(r: Receiver) {
    && r.handed + r.buffer == r.delivered
    && |r.buffer| <= r.wanted
    && (r.pending ==> r.buffer == [] && 0 < r.requested <= r.wanted && r.error == 0 && !r.peerClosed)
    && (r.peerClosed ==> r.buffer == [])
  }

  lemma GetCompleteKeeps(r: Receiver, get: GetResult)
    requires Inv(r) && r.pending && LegalGet(r.requested, get)
    ensures Inv(GetComplete(r, get))
  {
  }

  /** Under the rule, the whole buffer is always handed over: the copy that reads past the
      end is never taken. */
  lemma HandsOverWhole(r: Receiver, len: nat, nested: Option<GetResult>)
    requires Inv(r) && LegalLength(r, len) && LegalNested(r, len, nested)
    ensures |Ask(r, len, nested).buffer| <= len
  {
  }

  lemma AskKeepsStream(r: Receiver, len: nat, nested: Option<GetResult>)
    requires r.handed + r.buffer == r.delivered
    ensures var a := Ask(r, len, nested); a.handed + a.buffer == a.delivered
  {
  }

  lemma RecvKeeps(r: Receiver, len: nat, nested: Option<GetResult>, beyond: nat -> Byte)
    requires Inv(r) && LegalLength(r, len) && LegalNested(r, len, nested)
    ensures Inv(Recv(r, len, nested, beyond).0)
  {
    HandsOverWhole(r, len, nested);
    AskKeepsStream(r, len, nested);
    var a := Ask(r, len, nested);
    assert a.buffer[..|a.buffer|] == a.buffer;
    assert a.handed + a.buffer + [] == a.delivered;
  }

  /** What is returned is what is recorded as handed over, in order. */
  lemma RecvHands(r: Receiver, len: nat, nested: Option<GetResult>, beyond: nat -> Byte)
    ensures var (r', result) := Recv(r, len, nested, beyond);
      r'.handed == r.handed + (if result.Copied? then result.bytes else [])
  {
  }

  /** EOF never overtakes data: 0 is returned only when every delivered byte was handed over. */
  lemma EofAfterData(r: Receiver, len: nat, nested: Option<GetResult>, beyond: nat -> Byte)
    requires Inv(r) && Recv(r, len, nested, beyond).1 == Closed
    ensures r.handed == r.delivered
  {
  }

  /** An end of file answers at once a request made while nothing was buffered. */
  predicate EmptyEof(r: Receiver, len: nat, nested: Option<GetResult>) {
    Asks(r, len) && nested == Some(Eof) && r.buffer == []
  }

  /** Suspending: a request is then outstanding unless an end of file answered it at once. */
  lemma SuspendsOnRequest(r: Receiver, len: nat, nested: Option<GetResult>, beyond: nat -> Byte)
    requires Inv(r) && LegalLength(r, len) && LegalNested(r, len, nested)
    requires Recv(r, len, nested, beyond).1 == WantRead
    ensures Recv(r, len, nested, beyond).0.pending <==> !EmptyEof(r, len, nested)
  {
  }

  /** The callback asks for exactly what is missing, when there is nothing against it, and for
      nothing else. */
  lemma AsksForMissing(r: Receiver, len: nat, nested: Option<GetResult>, beyond: nat -> Byte)
    requires Inv(r)
    ensures var d := Recv(r, len, nested, beyond).0;
      if r.error == 0 && !r.peerClosed && !r.pending && |r.buffer| < len then
        d.requested == len - |r.buffer| && (d.pending <==> nested == None)
      else
        d.requested == r.requested && (d.pending <==> r.pending)
  {
  }

  /** Without the rule, for any receiver and any length: the stream is kept, whatever the
      heap holds, if and only if the buffer does not exceed the length asked for. */
  lemma StreamKeptIffItFits(r: Receiver, len: nat)
    requires r.error == 0 && !r.peerClosed && r.handed + r.buffer == r.delivered
    ensures (forall beyond: nat -> Byte ::
               var r' := HandOver(r, len, beyond).0; r'.handed + r'.buffer == r'.delivered)
       <==> |r.buffer| <= len
  {
    if |r.buffer| <= len {
      assert r.buffer[..|r.buffer|] == r.buffer;
    } else {
      var last := |r.buffer| - len - 1;
      var other: Byte := if r.buffer[|r.buffer| - 1] == 0 then 1 else 0;
      var r' := HandOver(r, len, _ => other).0;
      assert (r'.handed + r'.buffer)[|r.delivered| - 1] == other;
      assert (r.handed + r.buffer)[|r.delivered| - 1] == r.buffer[|r.buffer| - 1];
    }
  }
}
