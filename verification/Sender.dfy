/** The sending half of the TLS connection end: bytes that mbedtls hands to
    SSLSendCallback, queued and put to the inet end one put at a time. */
module Sending {
  import opened Bytes

  /** How the inet end completes a put: it has taken up to `taken` of the remaining bytes,
      and reports `error` (0 is noErr). */
  datatype PutResult = PutResult(taken: nat, error: int)

  /** The send fields of the connection end, and what the outside has seen of them: the
      bytes accepted from mbedtls, those the inet end took, the puts issued and completed. */
  datatype Sender = Sender(
    pending: bool,
    error: int,
    put: BufferList,
    queue: seq<seq<Byte>>,
    accepted: seq<Byte>,
    taken: seq<Byte>,
    issued: nat,
    completed: nat)

  const IDLE := Sender(false, 0, EMPTY_LIST, [], [], [], 0, 0)

  /** PutBytesStart(mPutDataBuffer) by the inet end, which may complete the put before it
      returns: `nested` lists how the puts that complete this way do so. */
  function StartPut(s: Sender, nested: seq<PutResult>): Sender
    decreases |nested|, 0
  {
    var started := s.(pending := true, issued := s.issued + 1);
    if nested == [] then started else PutComplete(started, nested[0], nested[1..])
  }

  /** What the inet end does before it calls back. */
  function Take(s: Sender, n: nat): Sender {
    var (put, bytes) := s.put.Getn(n);
    s.(put := put, taken := s.taken + bytes, completed := s.completed + 1)
  }

  /** PutCompleteCB: the rest of the list is put again, or what was queued meanwhile. */
  function OnPutComplete(t: Sender, error: int, nested: seq<PutResult>): Sender
    decreases |nested|, 1
  {
    var s := t.(pending := false);
    if error != 0 then s.(error := error)
    else if !s.put.AtEOF() then StartPut(s, nested)
    else if s.queue == [] then s.(put := EMPTY_LIST)
    else StartPut(s.(put := BufferList(s.queue, 0), queue := []), nested)
  }

  /** A put that the inet end completes. */
  function PutComplete(s: Sender, result: PutResult, nested: seq<PutResult>): Sender
    decreases |nested|, 2
  {
    OnPutComplete(Take(s, result.taken), result.error, nested)
  }

  /** SSLSendCallback, without its result. */
  function Send(s: Sender, buf: seq<Byte>, nested: seq<PutResult>): Sender {
    if s.error != 0 then s
    else
      var t := s.(queue := s.queue + [buf], accepted := s.accepted + buf);
      if t.pending then t
      else StartPut(t.(put := BufferList(t.put.segments + t.queue, t.put.position), queue := []), nested)
  }

  /** The result of SSLSendCallback. */
  function SendResult(s: Sender, buf: seq<Byte>): int {
    if s.error != 0 then s.error else |buf|
  }

  /** No byte is lost, repeated or reordered; at most one put is outstanding; a sender that
      neither waits nor failed has nothing left to send. */
  ghost predicate Inv(s: Sender) {
    && s.put.Valid()
    && s.taken + s.put.Rest() + Flatten(s.queue) == s.accepted
    && s.issued == s.completed + (if s.pending then 1 else 0)
    && (s.pending ==> s.error == 0)
    && (!s.pending && s.error == 0 ==> s.put == EMPTY_LIST && s.queue == [])
  }

  /** The same while a put is about to be issued. */
  ghost predicate Ready(s: Sender) {
    && s.put.Valid() && !s.pending && s.error == 0
    && s.taken + s.put.Rest() + Flatten(s.queue) == s.accepted
    && s.issued == s.completed
  }

  lemma TakeKeeps(s: Sender, n: nat)
    requires Inv(s) && s.pending
    ensures Ready(Take(s, n).(pending := false))
  {
  }

  lemma {:induction false} StartPutKeeps(s: Sender, nested: seq<PutResult>)
    requires Ready(s)
    ensures Inv(StartPut(s, nested)) && StartPut(s, nested).accepted == s.accepted
    decreases |nested|, 0
  {
    if nested != [] {
      PutCompleteKeeps(s.(pending := true, issued := s.issued + 1), nested[0], nested[1..]);
    }
  }

  /** However the puts complete, at once or later, the invariant holds. */
  lemma {:induction false} PutCompleteKeeps(s: Sender, result: PutResult, nested: seq<PutResult>)
    requires Inv(s) && s.pending
    ensures Inv(PutComplete(s, result, nested)) && PutComplete(s, result, nested).accepted == s.accepted
    decreases |nested|, 1
  {
    TakeKeeps(s, result.taken);
    var t := Take(s, result.taken).(pending := false);
    if result.error == 0 {
      if !t.put.AtEOF() {
        StartPutKeeps(t, nested);
      } else if t.queue != [] {
        StartPutKeeps(t.(put := BufferList(t.queue, 0), queue := []), nested);
      }
    }
  }

  /** Accepting bytes appends exactly them. */
  lemma SendKeeps(s: Sender, buf: seq<Byte>, nested: seq<PutResult>)
    requires Inv(s)
    ensures Inv(Send(s, buf, nested))
    ensures Send(s, buf, nested).accepted == if s.error != 0 then s.accepted else s.accepted + buf
  {
    if s.error == 0 {
      var t := s.(queue := s.queue + [buf], accepted := s.accepted + buf);
      FlattenAppend(s.queue, [buf]);
      assert Flatten([buf]) == buf;
      assert s.taken + s.put.Rest() + (Flatten(s.queue) + buf) == s.taken + s.put.Rest() + Flatten(s.queue) + buf;
      if !t.pending {
        assert t.put.segments + t.queue == [buf];
        StartPutKeeps(t.(put := BufferList(t.put.segments + t.queue, t.put.position), queue := []), nested);
      }
    }
  }

  // ----- what the inet end reports -----

  /** From `s` to `d` the inet end completed puts as the first results say, each without an
      error but perhaps the last, whose error is kept; it left results over only when no put
      was outstanding any more. */
  ghost predicate Used(s: Sender, d: Sender, results: seq<PutResult>) {
    var n := d.completed - s.completed;
    && 0 <= n <= |results|
    && (forall i :: 0 <= i < n - 1 ==> results[i].error == 0)
    && d.error == (if n == 0 then 0 else results[n - 1].error)
    && (n < |results| ==> !d.pending)
  }

  lemma {:induction false} StartPutUses(s: Sender, nested: seq<PutResult>)
    requires s.error == 0
    ensures Used(s, StartPut(s, nested), nested)
    decreases |nested|, 0
  {
    if nested != [] {
      assert [nested[0]] + nested[1..] == nested;
      PutCompleteUses(s.(pending := true, issued := s.issued + 1), nested[0], nested[1..]);
    }
  }

  /** A put that completes uses its own result, and those of the puts that follow from it. */
  lemma {:induction false} PutCompleteUses(s: Sender, result: PutResult, nested: seq<PutResult>)
    requires s.error == 0
    ensures Used(s, PutComplete(s, result, nested), [result] + nested)
    ensures PutComplete(s, result, nested).completed > s.completed
    decreases |nested|, 1
  {
    var t := Take(s, result.taken).(pending := false);
    if result.error == 0 {
      if !t.put.AtEOF() {
        StartPutUses(t, nested);
      } else if t.queue != [] {
        StartPutUses(t.(put := BufferList(t.queue, 0), queue := []), nested);
      }
    }
  }

  /** A failed put is not put again, and its error is kept; with all bytes taken and none
      queued there is nothing more to put. */
  lemma PutEnds(s: Sender, result: PutResult, nested: seq<PutResult>)
    requires Inv(s) && s.pending
    ensures var d := PutComplete(s, result, nested);
      && (result.error != 0 ==> d.error == result.error && !d.pending && d.issued == s.issued)
      && (result.error == 0 && result.taken >= |s.put.Rest()| && s.queue == [] ==>
            d.error == 0 && !d.pending && d.issued == s.issued)
  {
  }

  /** Completing a put takes as many of its bytes as the inet end says, if there are as many. */
  lemma TakesAsMany(s: Sender, n: nat)
    requires Inv(s)
    ensures var d := Take(s, n);
      && |d.taken| == |s.taken| + (if n < |s.put.Rest()| then n else |s.put.Rest()|)
      && d.taken == s.taken + s.put.Rest()[..|d.taken| - |s.taken|]
  {
  }

  lemma SendUses(s: Sender, buf: seq<Byte>, nested: seq<PutResult>)
    requires Inv(s) && s.error == 0
    ensures var error := Send(s, buf, nested).error;
      error == 0 || exists i :: 0 <= i < |nested| && nested[i].error == error
  {
    if !s.pending {
      var t := s.(queue := s.queue + [buf], accepted := s.accepted + buf);
      StartPutUses(t.(put := BufferList(t.put.segments + t.queue, t.put.position), queue := []), nested);
    }
  }

  /** Without an error a send returns how many bytes it accepted, which are all; with one it
      returns the error, and accepts none. */
  lemma SendReports(s: Sender, buf: seq<Byte>, nested: seq<PutResult>)
    requires Inv(s)
    ensures var d := Send(s, buf, nested);
      if s.error == 0 then SendResult(s, buf) == |buf| == |d.accepted| - |s.accepted|
      else SendResult(s, buf) == s.error && d.accepted == s.accepted
  {
    SendKeeps(s, buf, nested);
  }
}
