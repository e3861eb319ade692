/** What holds in every run of the connection end, from its configuration up to the first
    reset of the session. */
module Runs {
  import opened Bytes
  import opened Sending
  import opened Receiving
  import opened ClientReads
  import opened Session

  predicate LegalRun(c: Conn, es: seq<Event>)
    decreases es
  {
    es == [] || (Enabled(c, es[0]) && LegalRun(Step(c, es[0]), es[1..]))
  }

  function Run(c: Conn, es: seq<Event>): Conn
    decreases es
  {
    if es == [] then c else Run(Step(c, es[0]), es[1..])
  }

  lemma {:induction false} RunKeeps(c: Conn, es: seq<Event>)
    requires Session.Inv(c) && LegalRun(c, es)
    ensures Session.Inv(Run(c, es))
    decreases es
  {
    if es != [] {
      StepKeeps(c, es[0]);
      RunKeeps(Step(c, es[0]), es[1..]);
    }
  }

  lemma {:induction false} RunAppend(c: Conn, a: seq<Event>, b: seq<Event>)
    ensures Run(c, a + b) == Run(Run(c, a), b)
    ensures LegalRun(c, a + b) <==> LegalRun(c, a) && LegalRun(Run(c, a), b)
    decreases a
  {
    if a == [] {
      assert a + b == b;
    } else {
      assert (a + b)[0] == a[0] && (a + b)[1..] == a[1..] + b;
      RunAppend(Step(c, a[0]), a[1..], b);
    }
  }

  lemma ConfiguredInv()
    ensures Session.Inv(CONFIGURED)
  {
  }

  // ----- sending -----

  /** The inet end has taken a prefix of what mbedtls sent, all of it once nothing is pending
      and nothing failed; no more than one put is ever outstanding. */
  lemma SendPath(es: seq<Event>)
    requires LegalRun(CONFIGURED, es)
    ensures var tx := Run(CONFIGURED, es).tx;
      && tx.taken + tx.put.Rest() + Flatten(tx.queue) == tx.accepted
      && tx.taken <= tx.accepted
      && (!tx.pending && tx.error == 0 ==> tx.taken == tx.accepted)
      && tx.completed <= tx.issued <= tx.completed + 1
  {
    ConfiguredInv();
    RunKeeps(CONFIGURED, es);
    var tx := Run(CONFIGURED, es).tx;
    assert tx.taken + tx.put.Rest() + Flatten(tx.queue) == tx.taken + (tx.put.Rest() + Flatten(tx.queue));
    if !tx.pending && tx.error == 0 { assert tx.put.Rest() + Flatten(tx.queue) == []; }
  }

  lemma ErrorStep(c: Conn, e: Event)
    requires Session.Inv(c) && Enabled(c, e) && c.tx.error != 0
    ensures Step(c, e).tx == c.tx
  {
  }

  /** After a send error nothing is accepted, put or taken any more, in any continuation. */
  lemma {:induction false} NothingSentAfterError(c: Conn, es: seq<Event>)
    requires Session.Inv(c) && LegalRun(c, es) && c.tx.error != 0
    ensures Run(c, es).tx == c.tx
    decreases es
  {
    if es != [] {
      StepKeeps(c, es[0]);
      ErrorStep(c, es[0]);
      NothingSentAfterError(Step(c, es[0]), es[1..]);
    }
  }

  // ----- receiving -----

  /** mbedtls was handed a prefix of what the inet end delivered; what is missing is
      buffered, and the fetch in progress wants all of it. */
  lemma ReceivePath(es: seq<Event>)
    requires LegalRun(CONFIGURED, es)
    ensures var rx := Run(CONFIGURED, es).rx;
      && rx.handed <= rx.delivered && rx.handed + rx.buffer == rx.delivered
      && |rx.buffer| + (if rx.pending then rx.requested else 0) <= rx.wanted
  {
    ConfiguredInv();
    RunKeeps(CONFIGURED, es);
  }

  /** In a run, whatever is buffered when a receive callback hands bytes over goes whole. */
  lemma NeverShifts(es: seq<Event>, len: nat, got: Option<GetResult>, beyond: nat -> Byte)
    requires LegalRun(CONFIGURED, es) && Enabled(Run(CONFIGURED, es), BioRecv(len, got, beyond))
    ensures |Ask(Run(CONFIGURED, es).rx, len, got).buffer| <= len
  {
    ConfiguredInv();
    RunKeeps(CONFIGURED, es);
    HandsOverWhole(Run(CONFIGURED, es).rx, len, got);
  }

  /** EOF never overtakes data. */
  lemma EofLast(es: seq<Event>, len: nat, got: Option<GetResult>, beyond: nat -> Byte)
    requires LegalRun(CONFIGURED, es)
    requires Recv(Run(CONFIGURED, es).rx, len, got, beyond).1 == Closed
    ensures Run(CONFIGURED, es).rx.handed == Run(CONFIGURED, es).rx.delivered
  {
    ConfiguredInv();
    RunKeeps(CONFIGURED, es);
    EofAfterData(Run(CONFIGURED, es).rx, len, got, beyond);
  }

  // ----- the client's reads -----

  /** The plaintext that mbedtls_ssl_read returned in a run. */
  function Plaintext(es: seq<Event>): seq<Byte> {
    if es == [] then []
    else (if es[0].Return? && es[0].outcome.Plain? then es[0].outcome.bytes else []) + Plaintext(es[1..])
  }

  lemma {:induction false} ReturnedIsPlaintext(c: Conn, es: seq<Event>)
    requires LegalRun(c, es)
    ensures Run(c, es).client.returned == c.client.returned + Plaintext(es)
    decreases es
  {
    if es != [] {
      ReturnedIsPlaintext(Step(c, es[0]), es[1..]);
      var bytes := if es[0].Return? && es[0].outcome.Plain? then es[0].outcome.bytes else [];
      assert Step(c, es[0]).client.returned == c.client.returned + bytes;
      assert c.client.returned + bytes + Plaintext(es[1..]) == c.client.returned + (bytes + Plaintext(es[1..]));
    } else {
      assert c.client.returned + [] == c.client.returned;
    }
  }

  /** Across any number of suspensions the completed gets carry the plaintext in order, each
      get completes at most once, with at most what it asked for and, unless the stream
      ended, at least its threshold. */
  lemma ClientGets(es: seq<Event>)
    requires LegalRun(CONFIGURED, es)
    ensures var r := Run(CONFIGURED, es).client;
      && Delivered(r.completions) <= Plaintext(es)
      && Delivered(r.completions) + Unread(r) == Plaintext(es)
      && |r.completions| <= r.gets <= |r.completions| + 1
      && (forall k :: 0 <= k < |r.completions| ==> WellCompleted(r.completions[k], k))
  {
    ConfiguredInv();
    RunKeeps(CONFIGURED, es);
    ReturnedIsPlaintext(CONFIGURED, es);
    assert [] + Plaintext(es) == Plaintext(es);
  }

  // ----- the read loop -----

  /** The events leave DoSSLRead in its loop. */
  predicate StaysReading(c: Conn, es: seq<Event>)
    decreases es
  {
    c.ctl.op == Read && (es == [] || StaysReading(Step(c, es[0]), es[1..]))
  }

  function Returns(es: seq<Event>): nat {
    if es == [] then 0 else (if es[0].Return? then 1 else 0) + Returns(es[1..])
  }

  predicate PositiveReads(es: seq<Event>) {
    forall k :: 0 <= k < |es| && es[k].Return? && es[k].outcome.Plain? ==> es[k].outcome.bytes != []
  }

  /** Callbacks and successful reads. */
  predicate PlainReads(es: seq<Event>) {
    forall k :: 0 <= k < |es| ==> es[k].BioSend? || es[k].BioRecv? || (es[k].Return? && es[k].outcome.Plain?)
  }

  /** What an event inside the loop adds to the read buffer. */
  function Added(e: Event): seq<Byte> {
    if e.Return? && e.outcome.Plain? then e.outcome.bytes else []
  }

  /** An event leaves the loop if and only if it is a read that reaches the threshold. */
  lemma ReadLoopStep(c: Conn, e: Event)
    requires Session.Inv(c) && Enabled(c, e) && c.ctl.op == Read && (e.Return? ==> e.outcome.Plain?)
    ensures var (b, d) := (c.client.buffer.value, Step(c, e));
      if e.Return? && |b.data| + |Added(e)| >= b.threshold then d.ctl.op == NoOperation
      else d.ctl.op == Read && d.client.buffer == Some(b.(data := b.data + Added(e)))
  {
    assert c.client.buffer.value.data + [] == c.client.buffer.value.data;
    match e
    case Return(outcome) =>
    case _ =>
  }

  /** Over any number of successful reads the loop goes on if and only if what was read stays
      below the threshold. */
  lemma {:induction false} ReadLoopEnds(c: Conn, es: seq<Event>)
    requires Session.Inv(c) && LegalRun(c, es) && PlainReads(es) && c.ctl.op == Read
    requires var b := c.client.buffer.value; |b.data| < b.threshold
    ensures var b := c.client.buffer.value;
      StaysReading(c, es) <==> |b.data| + |Plaintext(es)| < b.threshold
    decreases es
  {
    if es != [] {
      StepKeeps(c, es[0]);
      ReadLoopStep(c, es[0]);
      assert forall k :: 0 <= k < |es[1..]| ==> es[1..][k] == es[k + 1];
      if Step(c, es[0]).ctl.op == Read {
        ReadLoopEnds(Step(c, es[0]), es[1..]);
      }
    }
  }

  /** With a threshold above the size of the buffer it goes on for ever. */
  lemma {:induction false} NeverEnough(c: Conn, es: seq<Event>)
    requires Session.Inv(c) && LegalRun(c, es) && PlainReads(es) && c.ctl.op == Read
    requires c.client.buffer.value.size < c.client.buffer.value.threshold
    ensures StaysReading(c, es)
    decreases es
  {
    if es != [] {
      StepKeeps(c, es[0]);
      ReadLoopStep(c, es[0]);
      assert forall k :: 0 <= k < |es[1..]| ==> es[1..][k] == es[k + 1];
      NeverEnough(Step(c, es[0]), es[1..]);
    }
  }

  /** With positive reads the loop calls mbedtls_ssl_read at most once for every byte that is
      missing from the threshold. */
  lemma {:induction false} ReadLoopBound(c: Conn, es: seq<Event>)
    requires Session.Inv(c) && LegalRun(c, es) && StaysReading(c, es) && PositiveReads(es)
    ensures var b := c.client.buffer.value;
      Returns(es) == 0 || |b.data| + Returns(es) < b.threshold
    decreases es
  {
    if es != [] {
      StepKeeps(c, es[0]);
      assert StaysReading(Step(c, es[0]), es[1..]);
      ReadLoopStep(c, es[0]);
      assert forall k :: 0 <= k < |es[1..]| ==> es[1..][k] == es[k + 1];
      ReadLoopBound(Step(c, es[0]), es[1..]);
    }
  }

  // ----- the end of the stream inside the loop -----

  /** `n` times the receive callback returns 0 and mbedtls_ssl_read reports it. */
  function EofReads(n: nat, len: nat, beyond: nat -> Byte): seq<Event> {
    if n == 0 then [] else [BioRecv(len, None, beyond), Return(Plain([]))] + EofReads(n - 1, len, beyond)
  }

  /** The loop runs below its threshold, and the transport is closed. */
  predicate ReadingAtEof(c: Conn, len: nat) {
    && c.ctl.op == Read && !c.ctl.blocked && !c.ctl.reset
    && c.rx.peerClosed && c.rx.error == 0 && LegalLength(c.rx, len)
    && c.client.buffer.Some?
    && var b := c.client.buffer.value; |b.data| <= b.size && |b.data| < b.threshold
  }

  lemma EofReadChangesNothing(c: Conn, len: nat, beyond: nat -> Byte)
    requires ReadingAtEof(c, len)
    ensures Enabled(c, BioRecv(len, None, beyond)) && Step(c, BioRecv(len, None, beyond)) == c
    ensures Enabled(c, Return(Plain([]))) && Step(c, Return(Plain([]))) == c
  {
    var b := c.client.buffer.value;
    assert b.data + [] == b.data && c.client.returned + [] == c.client.returned;
  }

  /** Such reads go on for ever: any number of them is legal, and changes nothing. */
  lemma {:induction false} SpinsAtEof(c: Conn, n: nat, len: nat, beyond: nat -> Byte)
    requires ReadingAtEof(c, len)
    ensures LegalRun(c, EofReads(n, len, beyond)) && Run(c, EofReads(n, len, beyond)) == c
  {
    if n > 0 {
      var pair, rest := [BioRecv(len, None, beyond), Return(Plain([]))], EofReads(n - 1, len, beyond);
      EofReadChangesNothing(c, len, beyond);
      SpinsAtEof(c, n - 1, len, beyond);
      assert (pair + rest)[1..] == [pair[1]] + rest && ([pair[1]] + rest)[1..] == rest;
    }
  }

  /** A client asks for one byte, waits for it, and the peer closes instead. */
  function ClosedWhileReading(bytes: seq<Byte>, beyond: nat -> Byte): seq<Event>
    requires |bytes| == 5
  {
    [Connected, BioRecv(5, Some(Data(bytes)), beyond), Return(Done),
     ClientGet(1, 1), BioRecv(5, None, beyond), Return(Blocked), GetDone(Eof), Message]
  }

  /** The loop then hangs: for every `n` there is a run with `n` reads more that has not left
      it, and the client is told nothing. */
  lemma EofHangs(bytes: seq<Byte>, beyond: nat -> Byte, n: nat)
    requires |bytes| == 5
    ensures var es := ClosedWhileReading(bytes, beyond);
      var d := Run(CONFIGURED, es + EofReads(n, 5, beyond));
      && LegalRun(CONFIGURED, es + EofReads(n, 5, beyond))
      && d == Run(CONFIGURED, es) && d.ctl.op == Read && d.client.completions == []
  {
    var es := ClosedWhileReading(bytes, beyond);
    var c1, c2, c3 := HandshakeDone(bytes, beyond);
    RunFrom(CONFIGURED, es, 0);
    RunFrom(c1, es, 1);
    RunFrom(c2, es, 2);
    assert es[0..] == es;
    ReadMeetsEof(c3, es);
    SpinsAtEof(Run(CONFIGURED, es), n, 5, beyond);
    RunAppend(CONFIGURED, es, EofReads(n, 5, beyond));
  }

  lemma ReadMeetsEof(c: Conn, es: seq<Event>)
    requires |es| == 8 && es[3] == ClientGet(1, 1) && es[4].BioRecv? && es[4].len == 5 && es[4].got == None
    requires es[5] == Return(Blocked) && es[6] == GetDone(Eof) && es[7] == Message
    requires SessionReady(c)
    ensures LegalRun(c, es[3..])
    ensures var d := Run(c, es[3..]); ReadingAtEof(d, 5) && d.client.completions == []
  {
    var c4 := Step(c, es[3]);
    var c5 := Step(c4, es[4]);
    var c6 := Step(c5, es[5]);
    RunFrom(c, es, 3);
    RunFrom(c4, es, 4);
    RunFrom(c5, es, 5);
    assert c6.rx.pending && c6.rx.wanted == 5 && c6.client == Accept(NO_READS, 1, 1);
    SuspendedMeetsEof(c6, es);
  }

  lemma SuspendedMeetsEof(c: Conn, es: seq<Event>)
    requires |es| == 8 && es[6] == GetDone(Eof) && es[7] == Message
    requires c.rx.pending && c.rx.wanted == 5 && c.rx.error == 0 && c.client == Accept(NO_READS, 1, 1)
    requires c.ctl.op == NoOperation && c.ctl.established && !c.ctl.closing && !c.ctl.reset
    ensures LegalRun(c, es[6..])
    ensures var d := Run(c, es[6..]); ReadingAtEof(d, 5) && d.client.completions == []
  {
    RunFrom(c, es, 6);
    RunFrom(Step(c, es[6]), es, 7);
  }

  // ----- a get started inside a completion -----

  /** Where a completion returns after the run `es`, the get that the client has started inside
      it, if any, loses what it has read so far: no plaintext is lost if and only if it has
      completed, or has read nothing. */
  lemma CompletionLoses(es: seq<Event>)
    requires LegalRun(CONFIGURED, es)
    ensures var r := Run(CONFIGURED, es).client;
      Delivered(AfterCompletion(r).completions) + Unread(AfterCompletion(r)) == Plaintext(es) <==> Unread(r) == []
  {
    ClientGets(es);
    var r := Run(CONFIGURED, es).client;
    assert Delivered(r.completions) + [] == Delivered(r.completions);
  }

  /** Inside the completion of a get the client starts another one, which reads one byte of
      two and is suspended. */
  function GetInCompletion(bytes: seq<Byte>, x: Byte, y: Byte, beyond: nat -> Byte): seq<Event>
    requires |bytes| == 5
  {
    [Connected, BioRecv(5, Some(Data(bytes)), beyond), Return(Done),
     ClientGet(1, 1), Return(Plain([x])),
     ClientGet(2, 2), Return(Plain([y])), BioRecv(5, None, beyond), Return(Blocked)]
  }

  /** That byte is lost. */
  lemma ByteLost(bytes: seq<Byte>, x: Byte, y: Byte, beyond: nat -> Byte)
    requires |bytes| == 5
    ensures var es := GetInCompletion(bytes, x, y, beyond);
      LegalRun(CONFIGURED, es) && Unread(Run(CONFIGURED, es).client) == [y]
  {
    var es := GetInCompletion(bytes, x, y, beyond);
    var c1, c2, c3 := HandshakeDone(bytes, beyond);
    RunFrom(CONFIGURED, es, 0);
    RunFrom(c1, es, 1);
    RunFrom(c2, es, 2);
    assert es[0..] == es;
    FirstGet(c3, es, x, y);
  }

  lemma FirstGet(c: Conn, es: seq<Event>, x: Byte, y: Byte)
    requires |es| == 9 && es[3] == ClientGet(1, 1) && es[4] == Return(Plain([x]))
    requires es[5] == ClientGet(2, 2) && es[6] == Return(Plain([y])) && es[8] == Return(Blocked)
    requires es[7].BioRecv? && es[7].len == 5 && es[7].got == None
    requires SessionReady(c)
    ensures LegalRun(c, es[3..]) && Unread(Run(c, es[3..]).client) == [y]
  {
    var c4 := Step(c, es[3]);
    var c5 := Step(c4, es[4]);
    RunFrom(c, es, 3);
    RunFrom(c4, es, 4);
    assert [] + [x] == [x];
    SecondGet(c5, es, y);
  }

  lemma SecondGet(c: Conn, es: seq<Event>, y: Byte)
    requires |es| == 9 && es[5] == ClientGet(2, 2) && es[6] == Return(Plain([y])) && es[8] == Return(Blocked)
    requires es[7].BioRecv? && es[7].len == 5 && es[7].got == None
    requires SessionReady(c.(client := NO_READS)) && c.client.buffer == None && c.client.gets == |c.client.completions|
    ensures LegalRun(c, es[5..]) && Unread(Run(c, es[5..]).client) == [y]
  {
    var c6 := Step(c, es[5]);
    RunFrom(c, es, 5);
    RunFrom(c6, es, 6);
    assert [] + [y] == [y];
    GetSuspended(Step(c6, es[6]), es, y);
  }

  lemma GetSuspended(c: Conn, es: seq<Event>, y: Byte)
    requires |es| == 9 && es[7].BioRecv? && es[7].len == 5 && es[7].got == None && es[8] == Return(Blocked)
    requires c.ctl.op == Read && !c.ctl.blocked && !c.ctl.reset && Open(c.client) && Unread(c.client) == [y]
    requires !c.rx.pending && !c.rx.peerClosed && c.rx.error == 0 && c.rx.buffer == [] && c.rx.wanted == 0
    ensures LegalRun(c, es[7..]) && Unread(Run(c, es[7..]).client) == [y]
  {
    RunFrom(c, es, 7);
    RunFrom(Step(c, es[7]), es, 8);
  }

  // ----- wake-ups -----

  /** An operation is suspended, and the session is neither terminated nor reset. */
  predicate Suspended(c: Conn) {
    c.ctl.op == NoOperation && c.ctl.parked != NoOperation && !c.ctl.closing && !c.ctl.reset
  }

  /** Somewhere in the run an end of file answers at once a request made while nothing was
      buffered. */
  predicate EverEmptyEof(c: Conn, es: seq<Event>)
    decreases es
  {
    es != []
    && ((es[0].BioRecv? && EmptyEof(c.rx, es[0].len, es[0].got)) || EverEmptyEof(Step(c, es[0]), es[1..]))
  }

  lemma EmptyEofStep(c: Conn, e: Event)
    requires Enabled(c, e)
    ensures Step(c, e).ctl.emptyEof <==> c.ctl.emptyEof || (e.BioRecv? && EmptyEof(c.rx, e.len, e.got))
  {
    match e
    case Return(outcome) =>
    case _ =>
  }

  lemma {:induction false} EmptyEofRecorded(c: Conn, es: seq<Event>)
    requires LegalRun(c, es)
    ensures Run(c, es).ctl.emptyEof <==> c.ctl.emptyEof || EverEmptyEof(c, es)
    decreases es
  {
    if es != [] {
      EmptyEofStep(c, es[0]);
      EmptyEofRecorded(Step(c, es[0]), es[1..]);
    }
  }

  /** A suspended operation is waited for by an outstanding receive or a queued message if and
      only if no end of file in the run found the buffer empty and answered at once. */
  lemma NoLostWakeup(es: seq<Event>)
    requires LegalRun(CONFIGURED, es) && Suspended(Run(CONFIGURED, es))
    ensures var c := Run(CONFIGURED, es);
      c.rx.pending || c.ctl.queued <==> !EverEmptyEof(CONFIGURED, es)
  {
    ConfiguredInv();
    RunKeeps(CONFIGURED, es);
    EmptyEofRecorded(CONFIGURED, es);
  }

  /** The retry message retries exactly the suspended operation, and nothing if there is none. */
  lemma RetriesSuspended(es: seq<Event>)
    requires LegalRun(CONFIGURED, es)
    requires var c := Run(CONFIGURED, es); Enabled(c, Message) && !c.ctl.closing
    ensures var c := Run(CONFIGURED, es); Step(c, Message).ctl.op == c.ctl.parked
  {
    ConfiguredInv();
    RunKeeps(CONFIGURED, es);
  }

  /** An operation is suspended, or was when the session ended, and nothing is left that
      could begin it again. */
  predicate Stuck(c: Conn) {
    && (c.ctl.parked == Handshake || c.ctl.parked == Read) && c.ctl.started
    && (c.ctl.parked == Handshake ==> !c.ctl.established)
    && (c.ctl.parked == Read ==> c.client.buffer.Some?)
    && c.rx.peerClosed && !c.rx.pending && !c.ctl.queued && !c.ctl.blocked
    && (c.ctl.op == NoOperation || c.ctl.op == Write)
  }

  /** No continuation ever resumes it: the handshake or the read stays suspended, and the
      client gets no byte and no completion any more. */
  lemma {:induction false} StuckForever(c: Conn, es: seq<Event>)
    requires Stuck(c) && LegalRun(c, es)
    ensures var d := Run(c, es); Stuck(d) && d.ctl.parked == c.ctl.parked && d.client == c.client
    decreases es
  {
    if es != [] { StuckForever(Step(c, es[0]), es[1..]); }
  }

  /** A wake-up lost once is lost for ever. */
  lemma LostForever(es: seq<Event>, more: seq<Event>)
    requires LegalRun(CONFIGURED, es) && Suspended(Run(CONFIGURED, es)) && EverEmptyEof(CONFIGURED, es)
    requires LegalRun(Run(CONFIGURED, es), more)
    ensures var (c, d) := (Run(CONFIGURED, es), Run(Run(CONFIGURED, es), more));
      Stuck(d) && d.ctl.parked == c.ctl.parked && d.client == c.client
  {
    ConfiguredInv();
    RunKeeps(CONFIGURED, es);
    EmptyEofRecorded(CONFIGURED, es);
    StuckForever(Run(CONFIGURED, es), more);
  }

  // What the first two callbacks of a session may be: the inet end closes at once, or it
  // delivers what a handshake needs, and closes at once when the client's get asks for more.
  function ClosedHandshake(beyond: nat -> Byte): seq<Event> {
    [Connected, BioRecv(5, Some(Eof), beyond), Return(Blocked)]
  }

  function ClosedRead(bytes: seq<Byte>, beyond: nat -> Byte): seq<Event>
    requires |bytes| == 5
  {
    [Connected, BioRecv(5, Some(Data(bytes)), beyond), Return(Done),
     ClientGet(1, 1), BioRecv(5, Some(Eof), beyond), Return(Blocked)]
  }

  /** The suffix of a run from position `i`. */
  lemma RunFrom(c: Conn, es: seq<Event>, i: nat)
    requires i < |es|
    ensures LegalRun(c, es[i..]) <==> Enabled(c, es[i]) && LegalRun(Step(c, es[i]), es[i + 1..])
    ensures Run(c, es[i..]) == Run(Step(c, es[i]), es[i + 1..])
    ensures EverEmptyEof(c, es[i..])
       <==> (es[i].BioRecv? && EmptyEof(c.rx, es[i].len, es[i].got)) || EverEmptyEof(Step(c, es[i]), es[i + 1..])
  {
    assert es[i..][1..] == es[i + 1..];
  }

  /** A legal run that ends with the operation suspended for ever. */
  predicate LosesWakeup(es: seq<Event>, op: Operation) {
    LegalRun(CONFIGURED, es) && EverEmptyEof(CONFIGURED, es)
    && Suspended(Run(CONFIGURED, es)) && Run(CONFIGURED, es).ctl.parked == op
  }

  /** Both happen: a handshake that is stuck, and a client's read that is. */
  lemma LostWakeup(bytes: seq<Byte>, beyond: nat -> Byte)
    requires |bytes| == 5
    ensures var (h, r) := (ClosedHandshake(beyond), ClosedRead(bytes, beyond));
      LosesWakeup(h, Handshake) && LosesWakeup(r, Read)
  {
    LostHandshake(beyond);
    LostRead(bytes, beyond);
  }

  lemma LostHandshake(beyond: nat -> Byte)
    ensures LosesWakeup(ClosedHandshake(beyond), Handshake)
  {
    var h := ClosedHandshake(beyond);
    assert h[0..] == h;
    var c1 := Step(CONFIGURED, h[0]);
    var c2 := Step(c1, h[1]);
    RunFrom(CONFIGURED, h, 0);
    RunFrom(c1, h, 1);
    RunFrom(c2, h, 2);
  }

  /** A session is established, nothing is wanted or buffered, and no get was started. */
  predicate SessionReady(c: Conn) {
    && c.client == NO_READS && c.ctl == CONFIGURED.ctl.(started := true, established := true)
    && !c.rx.pending && !c.rx.peerClosed && c.rx.error == 0 && c.rx.buffer == [] && c.rx.wanted == 0
  }

  /** After the handshake nothing is wanted, and no end of file was met. */
  lemma HandshakeDone(bytes: seq<Byte>, beyond: nat -> Byte) returns (c1: Conn, c2: Conn, c3: Conn)
    requires |bytes| == 5
    ensures Enabled(CONFIGURED, Connected) && c1 == Step(CONFIGURED, Connected)
    ensures var e := BioRecv(5, Some(Data(bytes)), beyond); Enabled(c1, e) && c2 == Step(c1, e)
    ensures Enabled(c2, Return(Done)) && c3 == Step(c2, Return(Done))
    ensures SessionReady(c3)
  {
    c1 := Step(CONFIGURED, Connected);
    c2 := Step(c1, BioRecv(5, Some(Data(bytes)), beyond));
    assert bytes[..5] == bytes && [] + bytes == bytes;
    c3 := Step(c2, Return(Done));
  }

  lemma LostRead(bytes: seq<Byte>, beyond: nat -> Byte)
    requires |bytes| == 5
    ensures LosesWakeup(ClosedRead(bytes, beyond), Read)
  {
    var r := ClosedRead(bytes, beyond);
    var c1, c2, c3 := HandshakeDone(bytes, beyond);
    RunFrom(CONFIGURED, r, 0);
    RunFrom(c1, r, 1);
    RunFrom(c2, r, 2);
    LostRest(c3, r);
    assert r[0..] == r;
  }

  lemma LostRest(c: Conn, r: seq<Event>)
    requires |r| == 6 && r[3] == ClientGet(1, 1) && r[4].BioRecv? && r[4].len == 5 && r[4].got == Some(Eof)
      && r[5] == Return(Blocked)
    requires SessionReady(c)
    ensures LegalRun(c, r[3..]) && EverEmptyEof(c, r[3..])
    ensures Suspended(Run(c, r[3..])) && Run(c, r[3..]).ctl.parked == Read
  {
    var c4 := Step(c, r[3]);
    RunFrom(c, r, 3);
    RunFrom(c4, r, 4);
    RunFrom(Step(c4, r[4]), r, 5);
  }
}
