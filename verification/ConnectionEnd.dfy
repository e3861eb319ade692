/** The connection end as the program writes it: an object whose callbacks update its fields.
    A ghost field holds the state of the session machine; every method keeps the fields in
    agreement with it and moves it by the steps of that machine. The methods named after the
    inet end and after mbedtls stand for calls into them: their arguments say what these do. */
module ConnectionEnds {
  import opened Bytes
  import opened Sending
  import opened Receiving
  import opened ClientReads
  import opened Session
  import opened Runs

  /** One mbedtls call: callbacks, then a return. */
  predicate OneCall(c: Conn, es: seq<Event>)
    decreases es
  {
    && es != [] && Enabled(c, es[0])
    && if es[0].Return? then |es| == 1 else (es[0].BioSend? || es[0].BioRecv?) && OneCall(Step(c, es[0]), es[1..])
  }

  /** The machine when that call returns. */
  function BeforeReturn(c: Conn, es: seq<Event>): Conn
    requires OneCall(c, es)
    decreases es
  {
    if es[0].Return? then c else BeforeReturn(Step(c, es[0]), es[1..])
  }

  function Result(es: seq<Event>): Event
    requires es != []
  {
    es[|es| - 1]
  }

  lemma {:induction false} CallReturns(c: Conn, es: seq<Event>)
    requires OneCall(c, es)
    ensures Result(es).Return? && Enabled(BeforeReturn(c, es), Result(es))
    ensures Run(c, es) == Step(BeforeReturn(c, es), Result(es)) && LegalRun(c, es)
    decreases es
  {
    if !es[0].Return? {
      CallReturns(Step(c, es[0]), es[1..]);
    } else {
      assert Run(Step(c, es[0]), []) == Step(c, es[0]);
      assert es[1..] == [];
    }
  }

  /** Callbacks leave the flags, the operation and the client's reads alone. */
  lemma {:induction false} CallbacksOnly(c: Conn, es: seq<Event>)
    requires OneCall(c, es)
    ensures var d := BeforeReturn(c, es);
      && d.client == c.client && d.ctl.op == c.ctl.op
      && d.ctl.established == c.ctl.established && d.ctl.closing == c.ctl.closing
    decreases es
  {
    if !es[0].Return? { CallbacksOnly(Step(c, es[0]), es[1..]); }
  }

  /** The calls of mbedtls_ssl_read that one DoSSLRead makes. */
  predicate ReadCalls(c: Conn, calls: seq<seq<Event>>)
    decreases calls
  {
    && calls != [] && OneCall(c, calls[0])
    && if Run(c, calls[0]).ctl.op == Read then ReadCalls(Run(c, calls[0]), calls[1..]) else |calls| == 1
  }

  function RunCalls(c: Conn, calls: seq<seq<Event>>): Conn
    decreases calls
  {
    if calls == [] then c else RunCalls(Run(c, calls[0]), calls[1..])
  }

  function Events(calls: seq<seq<Event>>): seq<Event> {
    if calls == [] then [] else calls[0] + Events(calls[1..])
  }

  /** The calls of one DoSSLRead are a run of the machine: what every run keeps, they keep. */
  lemma {:induction false} CallsAreRuns(c: Conn, calls: seq<seq<Event>>)
    requires ReadCalls(c, calls)
    ensures LegalRun(c, Events(calls)) && Run(c, Events(calls)) == RunCalls(c, calls)
    decreases calls
  {
    CallReturns(c, calls[0]);
    RunAppend(c, calls[0], Events(calls[1..]));
    if Run(c, calls[0]).ctl.op == Read {
      CallsAreRuns(Run(c, calls[0]), calls[1..]);
    } else {
      assert calls[1..] == [];
    }
  }

  class ConnectionEnd {
    var mSendPending: bool
    var mSendError: int
    var mPutDataBuffer: BufferList
    var mSendBuffer: seq<seq<Byte>>
    var mRecvPending: bool
    var mRecvError: int
    var mPeerClosed: bool
    var mSSLReceiveInProgress: bool
    var mGetDataBuffer: BufferList
    var mSSLRecvBuffer: seq<Byte>
    var mEstablished: bool
    var mClosing: bool
    var mSSLReadBuffer: array?<Byte>
    var mSSLReadCount: nat
    /** The GetComplete messages sent to the client. */
    var client: seq<Reply>
    ghost var c: Conn

    ghost predicate SendValid()
      reads this
    {
      && mSendPending == c.tx.pending && mSendError == c.tx.error
      && mPutDataBuffer == c.tx.put && mSendBuffer == c.tx.queue
    }

    /** While a request is outstanding the list holds one segment of its size. */
    ghost predicate RecvValid()
      reads this
    {
      && mRecvPending == c.rx.pending && mRecvError == c.rx.error && mPeerClosed == c.rx.peerClosed
      && mSSLRecvBuffer == c.rx.buffer
      && (mRecvPending ==> |mGetDataBuffer.segments| == 1 && |mGetDataBuffer.segments[0]| == c.rx.requested)
      && (!mRecvPending && mRecvError == 0 && !mPeerClosed ==> mGetDataBuffer == EMPTY_LIST)
    }

    ghost predicate ReadValid()
      reads this, mSSLReadBuffer
    {
      && client == Replies(c.client.completions)
      && (mSSLReadBuffer != null <==> c.client.buffer.Some?)
      && (mSSLReadBuffer != null ==>
            && mSSLReadBuffer.Length == c.client.buffer.value.size && mSSLReadCount <= mSSLReadBuffer.Length
            && mSSLReadBuffer[..mSSLReadCount] == c.client.buffer.value.data)
    }

    ghost predicate Valid()
      reads this, mSSLReadBuffer
    {
      SendValid() && RecvValid() && ReadValid() && mEstablished == c.ctl.established && mClosing == c.ctl.closing
    }

    /** SSLConfigure, the fields. */
    constructor ()
      ensures Valid() && c == CONFIGURED && !mSSLReceiveInProgress
    {
      mSendPending, mSendError, mPutDataBuffer, mSendBuffer := false, 0, EMPTY_LIST, [];
      mRecvPending, mRecvError, mPeerClosed, mSSLReceiveInProgress := false, 0, false, false;
      mGetDataBuffer, mSSLRecvBuffer := EMPTY_LIST, [];
      mEstablished, mClosing := false, false;
      mSSLReadBuffer, mSSLReadCount, client := null, 0, [];
      c := CONFIGURED;
    }

    // ----- sending -----

    /** The loop that moves every queued segment to the list to put. */
    method MoveSegments() returns (moved: bool)
      requires SendValid()
      modifies `mSendBuffer, `mPutDataBuffer, `c
      ensures SendValid() && moved == (old(mSendBuffer) != [])
      ensures var (put, queue) := (old(mPutDataBuffer), old(mSendBuffer));
        c == old(c).(tx := old(c).tx.(put := BufferList(put.segments + queue, put.position), queue := []))
    {
      moved := false;
      while mSendBuffer != []
        invariant mPutDataBuffer.segments + mSendBuffer == old(mPutDataBuffer).segments + old(mSendBuffer)
        invariant mPutDataBuffer.position == old(mPutDataBuffer).position
        invariant moved == (mSendBuffer != old(mSendBuffer)) && |mSendBuffer| <= |old(mSendBuffer)|
        invariant c == old(c)
        decreases |mSendBuffer|
      {
        var segment := mSendBuffer[0];
        mSendBuffer := mSendBuffer[1..];
        mPutDataBuffer := mPutDataBuffer.InsertLast(segment);
        moved := true;
      }
      c := c.(tx := c.tx.(put := mPutDataBuffer, queue := mSendBuffer));
    }

    /** PutBytesStart of the inet end: takes note of the put, and may complete it at once. */
    method InetPutBytesStart(nested: seq<PutResult>)
      requires SendValid() && mSendPending
      modifies `mSendPending, `mSendError, `mPutDataBuffer, `mSendBuffer, `c
      ensures SendValid()
      ensures c == old(c).(tx := StartPut(old(c).tx, nested))
      decreases |nested|, 0
    {
      c := c.(tx := c.tx.(issued := c.tx.issued + 1));
      if nested != [] {
        InetCompletesPut(nested[0], nested[1..]);
      }
    }

    /** The inet end takes bytes from the list and calls back. */
    method InetCompletesPut(result: PutResult, nested: seq<PutResult>)
      requires SendValid()
      modifies `mSendPending, `mSendError, `mPutDataBuffer, `mSendBuffer, `c
      ensures SendValid()
      ensures c == old(c).(tx := PutComplete(old(c).tx, result, nested))
      decreases |nested|, 2
    {
      c := c.(tx := Take(c.tx, result.taken));
      var (put, bytes) := mPutDataBuffer.Getn(result.taken);
      mPutDataBuffer := put;
      PutCompleteCB(result.error, nested);
    }

    method PutCompleteCB(result: int, nested: seq<PutResult>)
      requires SendValid()
      modifies `mSendPending, `mSendError, `mPutDataBuffer, `mSendBuffer, `c
      ensures SendValid()
      ensures c == old(c).(tx := OnPutComplete(old(c).tx, result, nested))
      ensures result != 0 ==> mSendError == result && !mSendPending
      decreases |nested|, 1
    {
      mSendPending := false;
      c := c.(tx := c.tx.(pending := false));
      if result != 0 {
        mSendError := result;
        c := c.(tx := c.tx.(error := result));
      } else {
        if mPutDataBuffer.AtEOF() {
          mPutDataBuffer := EMPTY_LIST;
          c := c.(tx := c.tx.(put := EMPTY_LIST));
          assert EMPTY_LIST.segments + mSendBuffer == mSendBuffer;
          var moreSegments := MoveSegments();
          if moreSegments {
            mSendPending := true;
            c := c.(tx := c.tx.(pending := true));
            InetPutBytesStart(nested);
          }
        } else {
          mSendPending := true;
          c := c.(tx := c.tx.(pending := true));
          InetPutBytesStart(nested);
        }
      }
    }

    method SSLSendCallback(buf: seq<Byte>, nested: seq<PutResult>) returns (r: int)
      requires SendValid()
      modifies `mSendPending, `mSendError, `mPutDataBuffer, `mSendBuffer, `c
      ensures SendValid()
      ensures c == old(c).(tx := Send(old(c).tx, buf, nested)) && r == SendResult(old(c).tx, buf)
      ensures r == if old(mSendError) != 0 then old(mSendError) else |buf|
    {
      if mSendError != 0 {
        return mSendError;
      }
      mSendBuffer := mSendBuffer + [buf];
      c := c.(tx := c.tx.(queue := mSendBuffer, accepted := c.tx.accepted + buf));
      if !mSendPending {
        var moved := MoveSegments();
        mSendPending := true;
        c := c.(tx := c.tx.(pending := true));
        InetPutBytesStart(nested);
      }
      return |buf|;
    }

    // ----- receiving -----

    /** The inet end fills the segment it was given and calls back. */
    method InetCompletesGet(get: GetResult)
      requires RecvValid() && mRecvPending && LegalGet(c.rx.requested, get)
      modifies `mRecvPending, `mRecvError, `mPeerClosed, `mGetDataBuffer, `mSSLRecvBuffer, `c
      ensures RecvValid()
      ensures c == old(c).(rx := GetComplete(old(c).rx, get),
                           ctl := if mSSLReceiveInProgress then old(c).ctl else old(c).ctl.(queued := true))
    {
      match get {
        case Data(bytes) =>
          var segment := mGetDataBuffer.segments[0];
          mGetDataBuffer := BufferList([bytes + segment[|bytes|..]], |bytes|);
          GetCompleteCB(0, |bytes|, bytes);
        case Eof => GetCompleteCB(0, 0, []);
        case Failed(error) => GetCompleteCB(error, 0, []);
      }
    }

    method GetCompleteCB(result: int, getBytesCount: nat, ghost bytes: seq<Byte>)
      requires mRecvPending == c.rx.pending && mRecvError == c.rx.error && mPeerClosed == c.rx.peerClosed
      requires mSSLRecvBuffer == c.rx.buffer
      requires result == 0 ==> |bytes| == getBytesCount
      requires result == 0 && getBytesCount > 0 ==> bytes <= Flatten(mGetDataBuffer.segments)
      modifies `mRecvPending, `mRecvError, `mPeerClosed, `mGetDataBuffer, `mSSLRecvBuffer, `c
      ensures RecvValid()
      ensures var get := if result != 0 then Failed(result) else if getBytesCount == 0 then Eof else Data(bytes);
        c == old(c).(rx := GetComplete(old(c).rx, get),
                     ctl := if mSSLReceiveInProgress then old(c).ctl else old(c).ctl.(queued := true))
      ensures !mRecvPending && mRecvError == (if result != 0 then result else old(mRecvError))
      ensures mPeerClosed <==> old(mPeerClosed) || (result == 0 && getBytesCount == 0)
      ensures mSSLRecvBuffer == old(mSSLRecvBuffer) + (if result == 0 then bytes else [])
    {
      mRecvPending := false;
      if result == 0 {
        if getBytesCount == 0 {
          mPeerClosed := true;
          c := c.(rx := GetComplete(c.rx, Eof));
        } else {
          var rewound := BufferList(mGetDataBuffer.segments, 0);
          var (read, data) := rewound.Getn(getBytesCount);
          mSSLRecvBuffer := mSSLRecvBuffer + data;
          mGetDataBuffer := EMPTY_LIST;
          c := c.(rx := GetComplete(c.rx, Data(bytes)));
        }
      } else {
        mRecvError := result;
        c := c.(rx := GetComplete(c.rx, Failed(result)));
      }
      if !mSSLReceiveInProgress {
        c := c.(ctl := c.ctl.(queued := true));
      }
    }

    /** GetBytesImmediateStart of the inet end, which may complete at once, as `got` says. */
    method AskInet(len: nat, got: Option<GetResult>)
      requires RecvValid() && !mSSLReceiveInProgress && Asks(c.rx, len) && LegalNested(c.rx, len, got)
      modifies `mRecvPending, `mRecvError, `mPeerClosed, `mSSLReceiveInProgress, `mGetDataBuffer, `mSSLRecvBuffer, `c
      ensures RecvValid() && !mSSLReceiveInProgress && c == old(c).(rx := Ask(old(c).rx, len, got))
    {
      mRecvPending := true;
      mGetDataBuffer := mGetDataBuffer.InsertLast(seq(len - |mSSLRecvBuffer|, _ => 0));
      c := c.(rx := c.rx.(pending := true, requested := len - |mSSLRecvBuffer|));
      mSSLReceiveInProgress := true;
      if got.Some? {
        InetCompletesGet(got.value);
      }
      mSSLReceiveInProgress := false;
    }

    /** `got` is how the inet end completes the request if it does at once, and `beyond` what
        the heap holds past the receive buffer. */
    method SSLRecvCallback(len: nat, got: Option<GetResult>, beyond: nat -> Byte) returns (result: RecvResult)
      requires RecvValid() && !mSSLReceiveInProgress && LegalNested(c.rx, len, got)
      modifies `mRecvPending, `mRecvError, `mPeerClosed, `mSSLReceiveInProgress, `mGetDataBuffer, `mSSLRecvBuffer, `c
      ensures RecvValid() && !mSSLReceiveInProgress
      ensures result == Recv(old(c).rx, len, got, beyond).1 && c == OnRecv(old(c), len, got, beyond)
      ensures result.Error? <==> mRecvError != 0
      ensures result.Error? ==> result.error == mRecvError
      ensures !result.Error? ==> (result == Closed <==> old(mPeerClosed))
    {
      if mRecvError != 0 {
        result := Error(mRecvError);
      } else if mPeerClosed {
        result := Closed;
      } else {
        if |mSSLRecvBuffer| < len && !mRecvPending {
          AskInet(len, got);
        }
        assert c.rx == Ask(old(c).rx, len, got);
        if mRecvError != 0 {
          result := Error(mRecvError);
        } else if mSSLRecvBuffer == [] {
          result := WantRead;
        } else {
          var copied := if |mSSLRecvBuffer| > len then len else |mSSLRecvBuffer|;
          result := Copied(mSSLRecvBuffer[..copied]);
          mSSLRecvBuffer := if copied == |mSSLRecvBuffer| then [] else Shifted(mSSLRecvBuffer, copied, beyond);
        }
        c := c.(rx := HandOver(c.rx, len, beyond).0);
      }
      c := c.(ctl := c.ctl.(blocked := result == WantRead,
                            emptyEof := c.ctl.emptyEof || EmptyEof(old(c).rx, len, got)));
    }

    // ----- the session -----

    /** One callback of mbedtls. */
    method Callback(e: Event)
      requires SendValid() && RecvValid() && !mSSLReceiveInProgress && Enabled(c, e) && (e.BioSend? || e.BioRecv?)
      modifies `mSendPending, `mSendError, `mPutDataBuffer, `mSendBuffer
      modifies `mRecvPending, `mRecvError, `mPeerClosed, `mSSLReceiveInProgress, `mGetDataBuffer, `mSSLRecvBuffer, `c
      ensures SendValid() && RecvValid() && !mSSLReceiveInProgress && c == Step(old(c), e)
    {
      match e {
        case BioSend(buf, nested) =>
          var r := SSLSendCallback(buf, nested);
        case BioRecv(len, got, beyond) =>
          var r := SSLRecvCallback(len, got, beyond);
      }
    }

    /** What mbedtls does in one call: its callbacks, then its return. */
    method Mbedtls(es: seq<Event>) returns (outcome: Outcome)
      requires SendValid() && RecvValid() && !mSSLReceiveInProgress && OneCall(c, es)
      modifies `mSendPending, `mSendError, `mPutDataBuffer, `mSendBuffer
      modifies `mRecvPending, `mRecvError, `mPeerClosed, `mSSLReceiveInProgress, `mGetDataBuffer, `mSSLRecvBuffer, `c
      ensures SendValid() && RecvValid() && !mSSLReceiveInProgress
      ensures c == BeforeReturn(old(c), es) && Result(es) == Return(outcome)
      decreases es
    {
      if es[0].Return? {
        outcome := es[0].outcome;
      } else {
        Callback(es[0]);
        outcome := Mbedtls(es[1..]);
      }
    }

    /** What DoSSLHandshake does with the result of mbedtls_ssl_handshake. */
    method FinishHandshake(r: Outcome)
      requires Valid() && c.ctl.op == Handshake
      modifies `mEstablished, `mClosing, `c
      ensures Valid() && c == Step(old(c), Return(r))
      ensures mEstablished <==> r == Done || (r == Blocked && old(mEstablished))
      ensures mClosing <==> old(mClosing) || (r != Done && r != Blocked)
    {
      if r == Done {
        mEstablished := true;
      } else if r != Blocked {
        mEstablished := false;
        mClosing := true;
      }
      c := Step(c, Return(r));
    }

    method DoSSLHandshake(call: seq<Event>)
      requires Valid() && !mSSLReceiveInProgress && c.ctl.op == Handshake && OneCall(c, call)
      modifies this
      ensures Valid() && !mSSLReceiveInProgress && c == Run(old(c), call)
    {
      CallReturns(c, call);
      CallbacksOnly(c, call);
      var r := Mbedtls(call);
      FinishHandshake(r);
    }

    /** DoSSLRead when mbedtls_ssl_read returned bytes, which it wrote after the first
        mSSLReadCount bytes of the buffer. */
    method AppendRead(bytes: seq<Byte>, threshold: nat) returns (again: bool)
      requires ReadValid() && c.client.buffer.Some? && threshold == c.client.buffer.value.threshold
      requires mSSLReadCount + |bytes| <= mSSLReadBuffer.Length
      modifies `mSSLReadBuffer, `mSSLReadCount, `client, `c, mSSLReadBuffer
      ensures ReadValid() && c == old(c).(client := Append(old(c).client, bytes))
      ensures again <==> !Enough(old(c).client, bytes)
      ensures again <==> old(mSSLReadCount) + |bytes| < threshold
      ensures again ==> mSSLReadBuffer == old(mSSLReadBuffer)
      ensures if again then client == old(client) && mSSLReadCount == old(mSSLReadCount) + |bytes|
              else client == old(client) + [Reply(0, old(mSSLReadBuffer[..mSSLReadCount]) + bytes)]
                   && mSSLReadBuffer == null && mSSLReadCount == 0
    {
      forall i | 0 <= i < |bytes| {
        mSSLReadBuffer[mSSLReadCount + i] := bytes[i];
      }
      assert mSSLReadBuffer[..mSSLReadCount] == c.client.buffer.value.data;
      mSSLReadCount := mSSLReadCount + |bytes|;
      assert mSSLReadBuffer[..mSSLReadCount] == c.client.buffer.value.data + bytes;
      again := mSSLReadCount < threshold;
      if !again {
        ghost var completions := Append(c.client, bytes).completions;
        RepliesAppend(c.client.completions, completions[|c.client.completions|]);
        client := client + [Reply(0, mSSLReadBuffer[..mSSLReadCount])];
        mSSLReadBuffer := null;
        mSSLReadCount := 0;
      }
      c := c.(client := Append(c.client, bytes));
    }

    /** The client is sent what was read, if anything, and the status. */
    method DrainRead(status: int)
      requires ReadValid() && c.client.buffer.Some?
      modifies `mSSLReadBuffer, `client, `c
      ensures ReadValid() && c == old(c).(client := Drain(old(c).client, status))
      ensures client == old(client) + [Reply(status, old(mSSLReadBuffer[..mSSLReadCount]))]
      ensures mSSLReadBuffer == if mSSLReadCount > 0 then null else old(mSSLReadBuffer)
    {
      ghost var completions := Drain(c.client, status).completions;
      RepliesAppend(c.client.completions, completions[|c.client.completions|]);
      client := client + [Reply(status, mSSLReadBuffer[..mSSLReadCount])];
      if mSSLReadCount > 0 {
        mSSLReadBuffer := null;
      }
      c := c.(client := Drain(c.client, status));
    }

    /** DoSSLRead when the stream ended or failed. */
    method FailRead(status: int)
      requires Valid() && c.client.buffer.Some?
      modifies `mEstablished, `mClosing, `mSSLReadBuffer, `client, `c
      ensures Valid() && c == old(c).(client := Drain(old(c).client, status), ctl := Fail(old(c).ctl))
      ensures !mEstablished && mClosing
      ensures client == old(client) + [Reply(status, old(mSSLReadBuffer[..mSSLReadCount]))]
    {
      DrainRead(status);
      mEstablished := false;
      mClosing := true;
      c := c.(ctl := Fail(c.ctl));
    }

    /** mbedtls_ssl_close_notify: mbedtls may send an alert. */
    method CloseNotify(alert: Option<Alert>)
      requires Valid()
      modifies `mSendPending, `mSendError, `mPutDataBuffer, `mSendBuffer, `c
      ensures Valid() && c == old(c).(tx := SendAlert(old(c).tx, alert))
    {
      if alert.Some? {
        var r := SSLSendCallback(alert.value.bytes, alert.value.nested);
      }
    }

    method FinishPlain(bytes: seq<Byte>, threshold: nat) returns (again: bool)
      requires Valid() && c.client.buffer.Some? && threshold == c.client.buffer.value.threshold
      requires |c.client.buffer.value.data| + |bytes| <= c.client.buffer.value.size
      modifies `mSSLReadBuffer, `mSSLReadCount, `client, `c, mSSLReadBuffer
      ensures Valid() && c == AfterRead(old(c), Plain(bytes))
      ensures again <==> !Enough(old(c).client, bytes)
      ensures again ==> mSSLReadBuffer == old(mSSLReadBuffer)
    {
      again := AppendRead(bytes, threshold);
      c := c.(ctl := if again then c.ctl else End(c.ctl));
    }

    method FinishFailed(r: Outcome)
      requires Valid() && c.client.buffer.Some? && (r.PeerClose? || r.ConnEof? || r.Fatal?)
      modifies this
      ensures Valid() && c == AfterRead(old(c), r) && mSSLReceiveInProgress == old(mSSLReceiveInProgress)
      ensures !mEstablished && mClosing
      ensures var status := if r.Fatal? then r.code else 0;
        client == old(client) + [Reply(status, old(mSSLReadBuffer[..mSSLReadCount]))]
    {
      var err := if r.Fatal? then r.code else 0;
      if r.PeerClose? {
        CloseNotify(r.alert);
      }
      FailRead(err);
    }

    /** What DoSSLRead does with the result of one mbedtls_ssl_read. */
    method FinishRead(r: Outcome, threshold: nat) returns (again: bool)
      requires Valid() && c.ctl.op == Read && LegalReturn(c, r)
      requires c.client.buffer.Some? && threshold == c.client.buffer.value.threshold
      modifies this, mSSLReadBuffer
      ensures Valid() && c == AfterRead(old(c), r) && mSSLReceiveInProgress == old(mSSLReceiveInProgress)
      ensures again <==> r.Plain? && !Enough(old(c).client, r.bytes)
      ensures again ==> mSSLReadBuffer == old(mSSLReadBuffer)
    {
      again := false;
      if r.Plain? {
        again := FinishPlain(r.bytes, threshold);
      } else if r == Blocked {
        c := AfterRead(c, r);
      } else {
        FinishFailed(r);
      }
    }

    /** The loop around mbedtls_ssl_read. It ends because the calls that mbedtls makes of it are
        given, and finitely many; ReadLoopBound bounds how many there are. */
    method DoSSLRead(threshold: nat, calls: seq<seq<Event>>)
      requires Valid() && !mSSLReceiveInProgress && c.ctl.op == Read && ReadCalls(c, calls)
      requires c.client.buffer.Some? && threshold == c.client.buffer.value.threshold
      modifies this, mSSLReadBuffer
      ensures Valid() && !mSSLReceiveInProgress && c == RunCalls(old(c), calls)
    {
      var i := 0;
      var again := true;
      while again
        invariant Valid() && !mSSLReceiveInProgress && 0 <= i <= |calls|
        invariant RunCalls(c, calls[i..]) == RunCalls(old(c), calls)
        invariant again ==> c.ctl.op == Read && ReadCalls(c, calls[i..]) && mSSLReadBuffer == old(mSSLReadBuffer)
        invariant again ==> c.client.buffer.Some? && threshold == c.client.buffer.value.threshold
        invariant !again ==> i == |calls|
        decreases |calls| - i, again
      {
        again := ReadOnce(threshold, calls[i]);
        assert calls[i..][1..] == calls[i + 1..];
        i := i + 1;
      }
    }

    method ReadOnce(threshold: nat, call: seq<Event>) returns (again: bool)
      requires Valid() && !mSSLReceiveInProgress && c.ctl.op == Read && OneCall(c, call)
      requires c.client.buffer.Some? && threshold == c.client.buffer.value.threshold
      modifies this, mSSLReadBuffer
      ensures Valid() && !mSSLReceiveInProgress && c == Run(old(c), call)
      ensures again <==> c.ctl.op == Read
      ensures again ==> mSSLReadBuffer == old(mSSLReadBuffer)
      ensures again ==> c.client.buffer.Some? && threshold == c.client.buffer.value.threshold
    {
      CallReturns(c, call);
      CallbacksOnly(c, call);
      var r := Mbedtls(call);
      again := FinishRead(r, threshold);
    }

    // ----- the calls of the client and of the message port -----

    /** A read buffer of the size that the client asks for, and nothing in it. */
    method StartRead(size: nat, threshold: nat)
      requires Valid() && c.ctl.established && c.client.buffer == None
      modifies `mSSLReadBuffer, `mSSLReadCount, `c
      ensures Valid() && c == StartGet(old(c), size, threshold)
      ensures mSSLReadBuffer != null && fresh(mSSLReadBuffer) && mSSLReadBuffer.Length == size && mSSLReadCount == 0
      ensures c.client.buffer == Some(ReadBuffer(size, [], threshold))
    {
      mSSLReadBuffer := new Byte[size];
      mSSLReadCount := 0;
      c := StartGet(c, size, threshold);
    }

    /** GetBytesStart, with threshold 0, and GetBytesImmediateStart. When the get is refused
        the client is told so and nothing else happens. */
    method GetBytesImmediateStart(size: nat, threshold: nat, calls: seq<seq<Event>>) returns (refused: bool)
      requires Valid() && !mSSLReceiveInProgress && c.ctl.op == NoOperation
      requires c.ctl.established && c.client.buffer == None ==> ReadCalls(StartGet(c, size, threshold), calls)
      modifies this
      ensures Valid() && !mSSLReceiveInProgress
      ensures refused <==> !old(c).ctl.established || old(c).client.buffer.Some?
      ensures c == if refused then old(c) else RunCalls(StartGet(old(c), size, threshold), calls)
    {
      if !mEstablished || mSSLReadBuffer != null {
        return true;
      }
      StartRead(size, threshold);
      DoSSLRead(threshold, calls);
      return false;
    }

    method GetBytesStart(size: nat, calls: seq<seq<Event>>) returns (refused: bool)
      requires Valid() && !mSSLReceiveInProgress && c.ctl.op == NoOperation
      requires c.ctl.established && c.client.buffer == None ==> ReadCalls(StartGet(c, size, 0), calls)
      modifies this
      ensures Valid() && !mSSLReceiveInProgress
      ensures refused <==> !old(c).ctl.established || old(c).client.buffer.Some?
      ensures c == if refused then old(c) else RunCalls(StartGet(old(c), size, 0), calls)
    {
      refused := GetBytesImmediateStart(size, 0, calls);
    }

    /** HandleRequest of the retry message: `threshold` is the one that the client's
        connection end keeps for the get in progress. */
    method HandleRequest(threshold: nat, calls: seq<seq<Event>>)
      requires Valid() && !mSSLReceiveInProgress && Enabled(c, Message)
      requires c.client.buffer.Some? ==> threshold == c.client.buffer.value.threshold
      requires var d := Step(c, Message);
        match d.ctl.op
        case Handshake => |calls| == 1 && OneCall(d, calls[0])
        case Read => ReadCalls(d, calls)
        case _ => calls == []
      modifies this, mSSLReadBuffer
      ensures Valid() && !mSSLReceiveInProgress && c == RunCalls(Step(old(c), Message), calls)
    {
      c := Step(c, Message);
      if !mClosing {
        if !mEstablished {
          DoSSLHandshake(calls[0]);
        } else if mSSLReadBuffer != null {
          DoSSLRead(threshold, calls);
        }
      }
    }

    /** ConnectCompleteCB without an error, with TLS enabled. */
    method ConnectCompleteCB(call: seq<Event>)
      requires Valid() && !mSSLReceiveInProgress && Enabled(c, Connected) && OneCall(Step(c, Connected), call)
      modifies this
      ensures Valid() && !mSSLReceiveInProgress && c == Run(Step(old(c), Connected), call)
    {
      c := Step(c, Connected);
      DoSSLHandshake(call);
    }

    /** What PutBytesStart does with the result of mbedtls_ssl_write. */
    method FinishWrite(r: Outcome)
      requires Valid() && c.ctl.op == Write
      modifies `mEstablished, `c
      ensures Valid() && c == Step(old(c), Return(r))
      ensures mEstablished <==> r == Done && old(mEstablished)
    {
      if r != Done {
        mEstablished := false;
      }
      c := Step(c, Return(r));
    }

    method SSLWrite(call: seq<Event>)
      requires Valid() && !mSSLReceiveInProgress && c.ctl.op == Write && OneCall(c, call)
      modifies this
      ensures Valid() && !mSSLReceiveInProgress && c == Run(old(c), call)
    {
      CallReturns(c, call);
      CallbacksOnly(c, call);
      var r := Mbedtls(call);
      FinishWrite(r);
    }

    /** PutBytesStart: refused while the session closes or none is established. */
    method PutBytesStart(call: seq<Event>) returns (refused: bool)
      requires Valid() && !mSSLReceiveInProgress && c.ctl.op == NoOperation
      requires !c.ctl.closing && c.ctl.established ==> OneCall(Step(c, ClientPut), call)
      modifies this
      ensures Valid() && !mSSLReceiveInProgress
      ensures refused <==> old(c).ctl.closing || !old(c).ctl.established
      ensures c == if refused then old(c) else Run(Step(old(c), ClientPut), call)
    {
      if mClosing || !mEstablished {
        return true;
      }
      c := Step(c, ClientPut);
      SSLWrite(call);
      return false;
    }

    /** TerminateStart. */
    method TerminateStart(alert: Option<Alert>)
      requires Valid()
      modifies `mSendPending, `mSendError, `mPutDataBuffer, `mSendBuffer, `mEstablished, `mClosing, `c
      ensures Valid() && c == Step(old(c), Terminate(alert))
      ensures !mEstablished && (mClosing <==> old(mClosing) || old(mEstablished))
    {
      if mEstablished {
        CloseNotify(alert);
        mEstablished := false;
        mClosing := true;
        c := c.(ctl := c.ctl.(established := false, closing := true));
      }
    }
  }
}
