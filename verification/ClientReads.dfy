/** The client's gets: the read buffer that mbedtls fills, and the completions sent. */
module ClientReads {
  import opened Bytes

  /** mSSLReadBuffer: its size and its first mSSLReadCount bytes, and the threshold of the
      get, which the client's connection end keeps. */
  datatype ReadBuffer = ReadBuffer(size: nat, data: seq<Byte>, threshold: nat)

  /** A GetComplete sent to the client for its get number `id`; `drained` when the read
      failed or met the end of the stream. */
  datatype Completion = Completion(id: int, status: int, data: seq<Byte>, size: nat, threshold: nat, drained: bool)

  /** The same as the client sees it. */
  datatype Reply = Reply(status: int, data: seq<Byte>)

  function Replies(completions: seq<Completion>): seq<Reply> {
    seq(|completions|, i requires 0 <= i < |completions| => Reply(completions[i].status, completions[i].data))
  }

  lemma RepliesAppend(completions: seq<Completion>, completion: Completion)
    ensures Replies(completions + [completion]) == Replies(completions) + [Reply(completion.status, completion.data)]
  {
  }

  /** The read buffer, the plaintext mbedtls returned, the number of gets accepted, and the
      completions. */
  datatype Reads = Reads(buffer: Option<ReadBuffer>, returned: seq<Byte>, gets: nat, completions: seq<Completion>)

  const NO_READS := Reads(None, [], 0, [])

  /** A get is accepted and not yet completed. */
  predicate Open(r: Reads) {
    r.buffer.Some? && r.gets > |r.completions|
  }

  function Unread(r: Reads): seq<Byte> {
    if Open(r) then r.buffer.value.data else []
  }

  /** A new get: mSSLReadBuffer is allocated and mSSLReadCount is 0. */
  function Accept(r: Reads, size: nat, threshold: nat): Reads {
    r.(buffer := Some(ReadBuffer(size, [], threshold)), gets := r.gets + 1)
  }

  function Complete(r: Reads, status: int, data: seq<Byte>, drained: bool): seq<Completion>
    requires r.buffer.Some?
  {
    r.completions + [Completion(r.gets - 1, status, data, r.buffer.value.size, r.buffer.value.threshold, drained)]
  }

  /** DoSSLRead has enough for the client's threshold. */
  predicate Enough(r: Reads, bytes: seq<Byte>)
    requires r.buffer.Some?
  {
    |r.buffer.value.data| + |bytes| >= r.buffer.value.threshold
  }

  /** mbedtls_ssl_read returned `bytes`. */
  function Append(r: Reads, bytes: seq<Byte>): Reads
    requires r.buffer.Some?
  {
    var data := r.buffer.value.data + bytes;
    if Enough(r, bytes) then Reads(None, r.returned + bytes, r.gets, Complete(r, 0, data, false))
    else r.(buffer := Some(r.buffer.value.(data := data)), returned := r.returned + bytes)
  }

  /** mbedtls_ssl_read ended or failed: what was read so far is the last completion, and a
      buffer that held nothing is not disposed of. */
  function Drain(r: Reads, status: int): Reads
    requires r.buffer.Some?
  {
    r.(buffer := if r.buffer.value.data == [] then r.buffer else None,
       completions := Complete(r, status, r.buffer.value.data, true))
  }

  /** What DoSSLRead does once the client has returned from a completion: the count is reset,
      also when the client has started another get inside the completion. */
  function AfterCompletion(r: Reads): Reads {
    if r.buffer.Some? then r.(buffer := Some(r.buffer.value.(data := []))) else r
  }

  /** The plaintext of the completed gets, in order. */
  function Delivered(completions: seq<Completion>): seq<Byte> {
    if completions == [] then []
    else Delivered(completions[..|completions| - 1]) + completions[|completions| - 1].data
  }

  /** A completion holds at most what was asked for and, unless the stream ended, at least
      the threshold; a status other than 0 is only reported for a failed read. */
  predicate WellCompleted(completion: Completion, k: nat) {
    && completion.id == k
    && |completion.data| <= completion.size
    && (!completion.drained ==> completion.status == 0 && completion.threshold <= |completion.data|)
  }

  /** Bytes go to the client in the order mbedtls returned them; gets complete in order and
      once each. */
  ghost predicate Inv(r: Reads) {
    && r.returned == Delivered(r.completions) + Unread(r)
    && r.gets == |r.completions| + (if Open(r) then 1 else 0)
    && (forall k :: 0 <= k < |r.completions| ==> WellCompleted(r.completions[k], k))
    && (Open(r) ==> |r.buffer.value.data| <= r.buffer.value.size)
  }

  lemma AcceptKeeps(r: Reads, size: nat, threshold: nat)
    requires Inv(r) && r.buffer == None
    ensures Inv(Accept(r, size, threshold)) && Open(Accept(r, size, threshold))
    ensures Accept(r, size, threshold).buffer == Some(ReadBuffer(size, [], threshold))
  {
  }

  lemma AppendKeeps(r: Reads, bytes: seq<Byte>)
    requires Inv(r) && Open(r) && |r.buffer.value.data| + |bytes| <= r.buffer.value.size
    ensures Inv(Append(r, bytes)) && (Append(r, bytes).buffer.Some? <==> Open(Append(r, bytes)))
  {
  }

  lemma DrainKeeps(r: Reads, status: int)
    requires Inv(r) && Open(r)
    ensures Inv(Drain(r, status)) && !Open(Drain(r, status))
    ensures Drain(r, status).buffer == if r.buffer.value.data == [] then r.buffer else None
  {
  }
}
