/** What the runs of the connection end mean in terms of their events alone: the gets that
    the client asked for, the answers of the inet end, the bytes that were sent. */
module Histories {
  import opened Bytes
  import opened Sending
  import opened Receiving
  import opened ClientReads
  import opened Session
  import opened Runs

  lemma Join<T>(a: seq<T>, b: seq<T>, c: seq<T>)
    ensures a + b + c == a + (b + c)
  {
  }

  // ----- the client's gets -----

  /** The size and the threshold of a get that is accepted. */
  function Asked(c: Conn, e: Event): seq<(nat, nat)> {
    if e.ClientGet? && c.ctl.established && c.client.buffer == None then [(e.size, e.threshold)] else []
  }

  function Gets(c: Conn, es: seq<Event>): seq<(nat, nat)>
    decreases es
  {
    if es == [] then [] else Asked(c, es[0]) + Gets(Step(c, es[0]), es[1..])
  }

  /** Every completion answers the get of its number, and the read buffer is for the last. */
  ghost predicate Matches(r: Reads, gets: seq<(nat, nat)>) {
    && r.gets == |gets| && |r.completions| <= |gets|
    && (forall k :: 0 <= k < |r.completions| ==>
          (r.completions[k].size, r.completions[k].threshold) == gets[k])
    && (Open(r) ==> gets != [] && (r.buffer.value.size, r.buffer.value.threshold) == gets[|gets| - 1])
  }

  lemma GetStep(c: Conn, e: Event, gets: seq<(nat, nat)>)
    requires Session.Inv(c) && Enabled(c, e) && Matches(c.client, gets)
    ensures Matches(Step(c, e).client, gets + Asked(c, e))
  {
    StepKeepsReads(c, e);
    assert gets + [] == gets;
    match e
    case Return(outcome) =>
    case _ =>
  }

  lemma {:induction false} GetsMatch(c: Conn, es: seq<Event>, gets: seq<(nat, nat)>)
    requires Session.Inv(c) && LegalRun(c, es) && Matches(c.client, gets)
    ensures Matches(Run(c, es).client, gets + Gets(c, es))
    decreases es
  {
    if es == [] {
      assert gets + [] == gets;
    } else {
      StepKeeps(c, es[0]);
      GetStep(c, es[0], gets);
      GetsMatch(Step(c, es[0]), es[1..], gets + Asked(c, es[0]));
      Join(gets, Asked(c, es[0]), Gets(Step(c, es[0]), es[1..]));
    }
  }

  /** A get has at most the bytes that were asked for and, unless the stream ended, at least
      the threshold that was given. */
  ghost predicate Satisfies(completion: Completion, get: (nat, nat)) {
    |completion.data| <= get.0 && (!completion.drained ==> get.1 <= |completion.data|)
  }

  lemma AnswersGets(r: Reads, gets: seq<(nat, nat)>)
    requires ClientReads.Inv(r) && Matches(r, gets)
    ensures |r.completions| <= |gets| == r.gets <= |r.completions| + 1
    ensures forall k :: 0 <= k < |r.completions| ==> Satisfies(r.completions[k], gets[k])
    ensures Open(r) ==> |gets| == |r.completions| + 1
  {
    assert forall k :: 0 <= k < |r.completions| ==> WellCompleted(r.completions[k], k);
  }

  /** The completions answer the client's gets one by one, and the read buffer is for the one
      that is still open. */
  lemma GetsAnswered(es: seq<Event>)
    requires LegalRun(CONFIGURED, es)
    ensures var (r, gets) := (Run(CONFIGURED, es).client, Gets(CONFIGURED, es));
      && |r.completions| <= |gets| == r.gets <= |r.completions| + 1
      && (forall k :: 0 <= k < |r.completions| ==> Satisfies(r.completions[k], gets[k]))
      && (Open(r) ==> (r.buffer.value.size, r.buffer.value.threshold) == gets[|r.completions|])
  {
    ConfiguredInv();
    RunKeeps(CONFIGURED, es);
    GetsMatch(CONFIGURED, es, []);
    assert [] + Gets(CONFIGURED, es) == Gets(CONFIGURED, es);
    AnswersGets(Run(CONFIGURED, es).client, Gets(CONFIGURED, es));
  }

  // ----- how reads end -----

  /** The status of a read that fails, or that meets the end of the stream. */
  function ReadFailure(c: Conn, e: Event): Option<int> {
    if c.ctl.op != Read || !e.Return? then None
    else match e.outcome
         case PeerClose(_) => Some(0)
         case ConnEof => Some(0)
         case Fatal(code) => Some(code)
         case _ => None
  }

  function Failure(c: Conn, es: seq<Event>): Option<int>
    decreases es
  {
    if es == [] then None
    else if ReadFailure(c, es[0]).Some? then ReadFailure(c, es[0])
    else Failure(Step(c, es[0]), es[1..])
  }

  ghost predicate Undrained(completions: seq<Completion>) {
    forall k :: 0 <= k < |completions| ==> !completions[k].drained
  }

  /** The last completion is that of the failed read, with its status. */
  ghost predicate Ended(completions: seq<Completion>, status: int) {
    && completions != [] && Undrained(completions[..|completions| - 1])
    && completions[|completions| - 1].drained && completions[|completions| - 1].status == status
  }

  lemma FailureStep(c: Conn, e: Event)
    requires Session.Inv(c) && Enabled(c, e) && Undrained(c.client.completions)
    ensures var d := Step(c, e);
      match ReadFailure(c, e)
      case None => Undrained(d.client.completions)
      case Some(status) => Ended(d.client.completions, status) && d.ctl.reset
  {
    match e
    case Return(outcome) =>
      if c.ctl.op == Read {
        var completions := Step(c, e).client.completions;
        if |completions| > |c.client.completions| {
          assert completions[..|completions| - 1] == c.client.completions;
        }
      }
    case _ =>
  }

  lemma {:induction false} FailureOfRun(c: Conn, es: seq<Event>)
    requires Session.Inv(c) && LegalRun(c, es) && Undrained(c.client.completions)
    ensures match Failure(c, es)
            case None => Undrained(Run(c, es).client.completions)
            case Some(status) => Ended(Run(c, es).client.completions, status)
    decreases es
  {
    if es != [] {
      StepKeeps(c, es[0]);
      FailureStep(c, es[0]);
      if ReadFailure(c, es[0]).Some? {
        assert es[1..] == [];
      } else {
        FailureOfRun(Step(c, es[0]), es[1..]);
      }
    }
  }

  /** The status of every completion: that of the failed read for the last one of a run in
      which a read failed, and 0 for all others. */
  lemma StatusOfGets(es: seq<Event>)
    requires LegalRun(CONFIGURED, es)
    ensures var (completions, failure) := (Run(CONFIGURED, es).client.completions, Failure(CONFIGURED, es));
      && (failure.Some? ==> completions != [])
      && forall k :: 0 <= k < |completions| ==>
           completions[k].status == if failure.Some? && k == |completions| - 1 then failure.value else 0
  {
    ConfiguredInv();
    RunKeeps(CONFIGURED, es);
    FailureOfRun(CONFIGURED, es);
    var completions := Run(CONFIGURED, es).client.completions;
    assert forall k :: 0 <= k < |completions| ==> WellCompleted(completions[k], k);
    assert forall k :: 0 <= k < |completions| - 1 ==> completions[k] == completions[..|completions| - 1][k];
  }

  // ----- the answers of the inet end -----

  /** How the inet end answers a request: later, or at once when the callback has to ask. */
  function Answer(c: Conn, e: Event): seq<GetResult> {
    match e
    case GetDone(get) => [get]
    case BioRecv(len, got, _) =>
      if c.rx.error == 0 && !c.rx.peerClosed && !c.rx.pending && |c.rx.buffer| < len && got.Some? then [got.value]
      else []
    case _ => []
  }

  function Answers(c: Conn, es: seq<Event>): seq<GetResult>
    decreases es
  {
    if es == [] then [] else Answer(c, es[0]) + Answers(Step(c, es[0]), es[1..])
  }

  function DataOf(answers: seq<GetResult>): seq<Byte> {
    if answers == [] then [] else (if answers[0].Data? then answers[0].bytes else []) + DataOf(answers[1..])
  }

  lemma {:induction false} DataAppend(a: seq<GetResult>, b: seq<GetResult>)
    ensures DataOf(a + b) == DataOf(a) + DataOf(b)
  {
    if a == [] {
      assert a + b == b;
    } else {
      assert (a + b)[1..] == a[1..] + b;
      DataAppend(a[1..], b);
    }
  }

  /** What was delivered, whether the peer closed, and the error are those of the answers. */
  ghost predicate Recorded(rx: Receiver, answers: seq<GetResult>) {
    && rx.delivered == DataOf(answers)
    && (rx.peerClosed <==> Eof in answers)
    && (rx.error != 0 ==> Failed(rx.error) in answers)
    && (forall e :: Failed(e) in answers ==> rx.error == e != 0)
  }

  lemma OneAnswer(rx: Receiver, get: GetResult, answers: seq<GetResult>)
    requires Recorded(rx, answers) && rx.error == 0 && (get.Failed? ==> get.error != 0)
    ensures Recorded(GetComplete(rx, get), answers + [get])
  {
    DataAppend(answers, [get]);
    assert DataOf([get]) == if get.Data? then get.bytes else [];
    assert rx.delivered + [] == rx.delivered;
  }

  lemma HandOverRecords(rx: Receiver, len: nat, beyond: nat -> Byte, answers: seq<GetResult>)
    requires Recorded(rx, answers)
    ensures Recorded(HandOver(rx, len, beyond).0, answers)
  {
  }

  lemma RecvRecords(c: Conn, len: nat, got: Option<GetResult>, beyond: nat -> Byte, answers: seq<GetResult>)
    requires Session.Inv(c) && Enabled(c, BioRecv(len, got, beyond)) && Recorded(c.rx, answers)
    ensures Recorded(Recv(c.rx, len, got, beyond).0, answers + Answer(c, BioRecv(len, got, beyond)))
  {
    assert answers + [] == answers;
    if Asks(c.rx, len) && got.Some? {
      OneAnswer(c.rx.(pending := true, requested := len - |c.rx.buffer|), got.value, answers);
    }
    if c.rx.error == 0 && !c.rx.peerClosed {
      HandOverRecords(Ask(c.rx, len, got), len, beyond, answers + Answer(c, BioRecv(len, got, beyond)));
    }
  }

  lemma AnswerStep(c: Conn, e: Event, answers: seq<GetResult>)
    requires Session.Inv(c) && Enabled(c, e) && Recorded(c.rx, answers)
    ensures Recorded(Step(c, e).rx, answers + Answer(c, e))
  {
    assert answers + [] == answers;
    match e
    case GetDone(get) => OneAnswer(c.rx, get, answers);
    case BioRecv(len, got, beyond) => RecvRecords(c, len, got, beyond, answers);
    case _ =>
  }

  lemma {:induction false} AnswersRecorded(c: Conn, es: seq<Event>, answers: seq<GetResult>)
    requires Session.Inv(c) && LegalRun(c, es) && Recorded(c.rx, answers)
    ensures Recorded(Run(c, es).rx, answers + Answers(c, es))
    decreases es
  {
    if es == [] {
      assert answers + [] == answers;
    } else {
      StepKeeps(c, es[0]);
      AnswerStep(c, es[0], answers);
      AnswersRecorded(Step(c, es[0]), es[1..], answers + Answer(c, es[0]));
      Join(answers, Answer(c, es[0]), Answers(Step(c, es[0]), es[1..]));
    }
  }

  /** In every run the data delivered, the end of file and the error are those that the inet
      end has answered. */
  lemma ReceiverRecords(es: seq<Event>)
    requires LegalRun(CONFIGURED, es)
    ensures Recorded(Run(CONFIGURED, es).rx, Answers(CONFIGURED, es))
  {
    ConfiguredInv();
    AnswersRecorded(CONFIGURED, es, []);
    assert [] + Answers(CONFIGURED, es) == Answers(CONFIGURED, es);
  }

  /** What a receive callback returns, from the answers alone: the error of the request that
      failed, if one did, just now or before; 0 once the peer has closed before; else all the
      data that was not handed over yet, or WANT_READ if there is none. */
  lemma RecvReturns(es: seq<Event>, len: nat, got: Option<GetResult>, beyond: nat -> Byte)
    requires LegalRun(CONFIGURED, es) && Enabled(Run(CONFIGURED, es), BioRecv(len, got, beyond))
    ensures var c := Run(CONFIGURED, es);
      var before := Answers(CONFIGURED, es);
      var now := before + Answer(c, BioRecv(len, got, beyond));
      var result := Recv(c.rx, len, got, beyond).1;
      && (forall e :: result == Error(e) <==> Failed(e) in now)
      && (!result.Error? ==>
            && (result == Closed <==> Eof in before)
            && (Eof !in before ==>
                  && |c.rx.handed| <= |DataOf(now)|
                  && var waiting := DataOf(now)[|c.rx.handed|..];
                     result == if waiting == [] then WantRead else Copied(waiting)))
  {
    var c, before := Run(CONFIGURED, es), Answers(CONFIGURED, es);
    ConfiguredInv();
    RunKeeps(CONFIGURED, es);
    ReceiverRecords(es);
    RecvRecords(c, len, got, beyond, before);
    HandsOverWhole(c.rx, len, got);
    RecvResults(c.rx, len, got, beyond);
  }

  lemma RecvResults(r: Receiver, len: nat, got: Option<GetResult>, beyond: nat -> Byte)
    requires Receiving.Inv(r) && LegalLength(r, len) && LegalNested(r, len, got)
    ensures var (d, result) := Recv(r, len, got, beyond);
      && (d.error != 0 <==> result.Error?) && (result.Error? ==> result.error == d.error)
      && (!result.Error? ==>
            && (result == Closed <==> r.peerClosed)
            && (!r.peerClosed ==>
                  && |r.handed| <= |d.delivered|
                  && var waiting := d.delivered[|r.handed|..];
                     result == if waiting == [] then WantRead else Copied(waiting)))
  {
    HandsOverWhole(r, len, got);
    AskKeepsStream(r, len, got);
    var a := Ask(r, len, got);
    assert a.handed + a.buffer == a.delivered;
    assert a.delivered[|a.handed|..] == a.buffer == a.buffer[..|a.buffer|];
  }

  // ----- what is sent -----

  /** The bytes that an event hands to SSLSendCallback, which takes none after an error. */
  function Sent(c: Conn, e: Event): seq<Byte> {
    if c.tx.error != 0 then []
    else match e
         case BioSend(buf, _) => buf
         case Terminate(Some(alert)) => if c.ctl.established then alert.bytes else []
         case Return(PeerClose(Some(alert))) => alert.bytes
         case _ => []
  }

  function AllSent(c: Conn, es: seq<Event>): seq<Byte>
    decreases es
  {
    if es == [] then [] else Sent(c, es[0]) + AllSent(Step(c, es[0]), es[1..])
  }

  /** How puts are completed in an event. */
  function Reported(e: Event): seq<PutResult> {
    match e
    case PutDone(put, nested) => [put] + nested
    case BioSend(_, nested) => nested
    case Terminate(Some(alert)) => alert.nested
    case Return(PeerClose(Some(alert))) => alert.nested
    case _ => []
  }

  function AllReported(es: seq<Event>): seq<PutResult> {
    if es == [] then [] else Reported(es[0]) + AllReported(es[1..])
  }

  /** The error is none, or that of a put. */
  ghost predicate ErrorReported(error: int, results: seq<PutResult>) {
    error == 0 || exists i :: 0 <= i < |results| && results[i].error == error
  }

  lemma SendRecords(tx: Sender, buf: seq<Byte>, nested: seq<PutResult>)
    requires Sending.Inv(tx)
    ensures var d := Send(tx, buf, nested);
      && d.accepted == tx.accepted + (if tx.error != 0 then [] else buf)
      && (tx.error == 0 ==> ErrorReported(d.error, nested)) && (tx.error != 0 ==> d == tx)
  {
    SendKeeps(tx, buf, nested);
    assert tx.accepted + [] == tx.accepted;
    if tx.error == 0 { SendUses(tx, buf, nested); }
  }

  lemma SendStep(c: Conn, e: Event)
    requires Session.Inv(c) && Enabled(c, e)
    ensures Step(c, e).tx.accepted == c.tx.accepted + Sent(c, e)
    ensures var error := Step(c, e).tx.error;
      if c.tx.error == 0 then ErrorReported(error, Reported(e)) else error == c.tx.error
  {
    assert c.tx.accepted + [] == c.tx.accepted;
    match e
    case BioSend(buf, nested) => SendRecords(c.tx, buf, nested);
    case PutDone(put, nested) =>
      PutCompleteKeeps(c.tx, put, nested);
      PutCompleteUses(c.tx, put, nested);
    case Terminate(Some(alert)) => SendRecords(c.tx, alert.bytes, alert.nested);
    case Return(PeerClose(Some(alert))) => SendRecords(c.tx, alert.bytes, alert.nested);
    case Return(outcome) =>
    case _ =>
  }

  lemma {:induction false} AcceptedHistory(c: Conn, es: seq<Event>)
    requires Session.Inv(c) && LegalRun(c, es)
    ensures Run(c, es).tx.accepted == c.tx.accepted + AllSent(c, es)
    decreases es
  {
    if es == [] {
      assert c.tx.accepted + [] == c.tx.accepted;
    } else {
      StepKeeps(c, es[0]);
      SendStep(c, es[0]);
      AcceptedHistory(Step(c, es[0]), es[1..]);
      Join(c.tx.accepted, Sent(c, es[0]), AllSent(Step(c, es[0]), es[1..]));
    }
  }

  lemma {:induction false} ErrorHistory(c: Conn, es: seq<Event>, results: seq<PutResult>)
    requires Session.Inv(c) && LegalRun(c, es) && ErrorReported(c.tx.error, results)
    ensures ErrorReported(Run(c, es).tx.error, results + AllReported(es))
    decreases es
  {
    if es == [] {
      assert results + [] == results;
    } else {
      StepKeeps(c, es[0]);
      SendStep(c, es[0]);
      ReportedLater(Step(c, es[0]).tx.error, results, Reported(es[0]), c.tx.error == 0);
      ErrorHistory(Step(c, es[0]), es[1..], results + Reported(es[0]));
      Join(results, Reported(es[0]), AllReported(es[1..]));
    }
  }

  lemma ReportedLater(error: int, before: seq<PutResult>, after: seq<PutResult>, now: bool)
    requires if now then ErrorReported(error, after) else ErrorReported(error, before)
    ensures ErrorReported(error, before + after)
  {
    if error != 0 {
      if now {
        var i :| 0 <= i < |after| && after[i].error == error;
        assert (before + after)[|before| + i].error == error;
      } else {
        var i :| 0 <= i < |before| && before[i].error == error;
        assert (before + after)[i].error == error;
      }
    }
  }

  /** In every run the bytes accepted are those sent by mbedtls and its alerts, up to the first
      error; and a send callback then returns the error of a put of that run, or, if none
      failed, the length of its bytes. */
  lemma SendReturns(es: seq<Event>, buf: seq<Byte>)
    requires LegalRun(CONFIGURED, es)
    ensures var tx := Run(CONFIGURED, es).tx;
      && tx.accepted == AllSent(CONFIGURED, es)
      && ErrorReported(tx.error, AllReported(es))
      && SendResult(tx, buf) == if tx.error == 0 then |buf| else tx.error
  {
    ConfiguredInv();
    RunKeeps(CONFIGURED, es);
    AcceptedHistory(CONFIGURED, es);
    ErrorHistory(CONFIGURED, es, []);
    assert [] + AllReported(es) == AllReported(es) && [] + AllSent(CONFIGURED, es) == AllSent(CONFIGURED, es);
    SendReports(Run(CONFIGURED, es).tx, buf, []);
  }

  // ----- flags and operations -----

  /** A return that ends the session. */
  predicate Ends(c: Conn, e: Event) {
    e.Return? && (e.outcome.PeerClose? || e.outcome.ConnEof? || e.outcome.Fatal?
                  || (e.outcome.Blocked? && c.ctl.op == Write))
  }

  /** A session is established by a handshake that succeeds, and lasts until it is terminated
      or a return ends it; only what ends a session, or keeps one from beginning, closes the
      connection, and a failing write resets it without. */
  lemma StepFlags(c: Conn, e: Event)
    requires Session.Inv(c) && Enabled(c, e)
    ensures var d := Step(c, e);
      && (d.ctl.established <==> (c.ctl.established || e == Return(Done)) && !e.Terminate? && !Ends(c, e))
      && (d.ctl.closing <==> c.ctl.closing || (e.Terminate? && c.ctl.established) || (Ends(c, e) && c.ctl.op != Write))
      && (d.ctl.reset <==> Ends(c, e))
  {
    match e
    case Return(outcome) =>
    case _ =>
  }

  /** Which mbedtls operation runs after an event. */
  lemma StepOperation(c: Conn, e: Event)
    requires Session.Inv(c) && Enabled(c, e)
    ensures var op := Step(c, e).ctl.op;
      match e
      case Connected => op == Handshake
      case ClientGet(_, _) => op == if c.ctl.established && c.client.buffer == None then Read else NoOperation
      case ClientPut => op == if c.ctl.established && !c.ctl.closing then Write else NoOperation
      case BioSend(_, _) => op == c.ctl.op
      case BioRecv(_, _, _) => op == c.ctl.op
      case Return(Plain(bytes)) =>
        op == if |c.client.buffer.value.data| + |bytes| < c.client.buffer.value.threshold then Read else NoOperation
      case Message => c.ctl.closing ==> op == NoOperation
      case _ => op == NoOperation
  {
    match e
    case Return(outcome) =>
    case _ =>
  }
}
