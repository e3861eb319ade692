/** The TLS connection end as a state machine. Its steps are the calls it receives: from the
    inet end, from its own message port, from the client, and from mbedtls, whose operations
    call back for bytes any number of times before they return. */
module Session {
  import opened Bytes
  import opened Sending
  import opened Receiving
  import opened ClientReads

  /** The mbedtls operation in progress; callbacks and returns happen inside it. */
  datatype Operation = NoOperation | Handshake | Read | Write

  /** The flags of the connection end, and what surrounds them: whether the transport was
      connected, whether the retry message is queued, the operation in progress and whether
      its last callback returned WANT_READ, the operation suspended on WANT_READ, whether an
      end of file ever answered at once a request made while nothing was buffered, and whether
      the session was reset. */
  datatype Control = Control(
    started: bool,
    established: bool,
    closing: bool,
    queued: bool,
    op: Operation,
    blocked: bool,
    parked: Operation,
    emptyEof: bool,
    reset: bool)

  datatype Conn = Conn(tx: Sender, rx: Receiver, client: Reads, ctl: Control)

  /** What SSLConfigure leaves. */
  const CONFIGURED := Conn(Sending.IDLE, Receiving.IDLE, NO_READS,
                           Control(false, false, false, false, NoOperation, false, NoOperation, false, false))

  /** The bytes mbedtls_ssl_close_notify sends, and how the puts they start complete. */
  datatype Alert = Alert(bytes: seq<Byte>, nested: seq<PutResult>)

  /** What mbedtls_ssl_read, _write and _handshake return. A failing read may be the peer's
      close notification, to which the code answers with its own, `alert`. */
  datatype Outcome =
    | Done
    | Blocked
    | Plain(bytes: seq<Byte>)
    | PeerClose(alert: Option<Alert>)
    | ConnEof
    | Fatal(code: int)

  datatype Event =
    // from the inet end
    | Connected
    | PutDone(put: PutResult, nested: seq<PutResult>)
    | GetDone(get: GetResult)
    // from the message port
    | Message
    // from the client
    | ClientGet(size: nat, threshold: nat)
    | ClientPut
    | Terminate(alert: Option<Alert>)
    // from mbedtls
    | BioSend(buf: seq<Byte>, nested: seq<PutResult>)
    | BioRecv(len: nat, got: Option<GetResult>, beyond: nat -> Byte)
    | Return(outcome: Outcome)

  // ----- what each part of the environment may do -----

  /** Completions answer requests; mbedtls calls back and returns only inside an operation.
      Nothing is considered after a session reset. */
  predicate Enabled(c: Conn, e: Event) {
    && !c.ctl.reset
    && (e.BioSend? || e.BioRecv? || e.Return? <==> c.ctl.op != NoOperation)
    && match e
       case Connected => !c.ctl.started
       case PutDone(_, _) => c.tx.pending
       case GetDone(get) => c.rx.pending && LegalGet(c.rx.requested, get)
       case Message => c.ctl.queued
       case BioSend(_, _) => !c.ctl.blocked
       case BioRecv(len, got, _) => !c.ctl.blocked && LegalLength(c.rx, len) && LegalNested(c.rx, len, got)
       case Return(outcome) => LegalReturn(c, outcome)
       case _ => true
  }

  /** mbedtls_ssl_read returns 0 when the transport was closed. */
  predicate EndOfStream(c: Conn, outcome: Outcome) {
    outcome == Plain([]) && c.rx.peerClosed
  }

  /** mbedtls propagates a WANT_READ of the receive callback and reports one only then; a
      handshake or a read only succeeds when no fetch is left unsatisfied, but for the read
      that reports the end of the stream; no more plaintext is returned than there is room
      for. */
  predicate LegalReturn(c: Conn, outcome: Outcome) {
    && (c.ctl.blocked <==> outcome == Blocked)
    && (c.ctl.op != Write && (outcome.Done? || outcome.Plain?) ==> c.rx.wanted == 0 || EndOfStream(c, outcome))
    && match outcome
       case Done => c.ctl.op != Read
       case Blocked => true
       case Plain(bytes) =>
         && c.ctl.op == Read && c.client.buffer.Some?
         && |c.client.buffer.value.data| + |bytes| <= c.client.buffer.value.size
       case PeerClose(_) => c.ctl.op == Read
       case ConnEof => c.ctl.op == Read
       case Fatal(code) => code != 0
  }

  // ----- the steps -----

  function SendAlert(tx: Sender, alert: Option<Alert>): Sender {
    if alert.Some? then Send(tx, alert.value.bytes, alert.value.nested) else tx
  }

  /** The control as an operation begins: a suspended one of that kind is running again. */
  function Begin(ctl: Control, op: Operation): Control {
    ctl.(op := op, blocked := false, parked := if op == Write then ctl.parked else NoOperation)
  }

  /** HandleRequest of the retry message: the handshake while none is established, else the
      read in progress. */
  function Retry(ctl: Control, reading: bool): Control {
    var taken := ctl.(queued := false);
    if ctl.closing then taken
    else if !ctl.established then Begin(taken, Handshake)
    else if reading then Begin(taken, Read)
    else taken
  }

  /** GetBytesStart and GetBytesImmediateStart: refused while another get is in progress or
      no session is established. */
  function StartGet(c: Conn, size: nat, threshold: nat): Conn {
    if !c.ctl.established || c.client.buffer.Some? then c
    else c.(client := Accept(c.client, size, threshold), ctl := Begin(c.ctl, Read))
  }

  /** PutBytesStart, up to mbedtls_ssl_write. */
  function StartPutBytes(ctl: Control): Control {
    if ctl.closing || !ctl.established then ctl else Begin(ctl, Write)
  }

  /** TerminateStart. */
  function StartTerminate(c: Conn, alert: Option<Alert>): Conn {
    if !c.ctl.established then c
    else c.(tx := SendAlert(c.tx, alert), ctl := c.ctl.(established := false, closing := true))
  }

  /** SSLRecvCallback, as seen by the control. */
  function OnRecv(c: Conn, len: nat, got: Option<GetResult>, beyond: nat -> Byte): Conn {
    var (rx, result) := Recv(c.rx, len, got, beyond);
    c.(rx := rx, ctl := c.ctl.(blocked := result == WantRead,
                               emptyEof := c.ctl.emptyEof || EmptyEof(c.rx, len, got)))
  }

  /** The control as an operation ends. */
  function End(ctl: Control): Control {
    ctl.(op := NoOperation, blocked := false)
  }

  function Fail(ctl: Control): Control {
    End(ctl).(established := false, closing := true, reset := true)
  }

  /** DoSSLHandshake after mbedtls_ssl_handshake. */
  function AfterHandshake(ctl: Control, outcome: Outcome): Control {
    match outcome
    case Done => End(ctl).(established := true)
    case Blocked => End(ctl).(parked := Handshake)
    case _ => Fail(ctl)
  }

  /** PutBytesStart after mbedtls_ssl_write. */
  function AfterWrite(ctl: Control, outcome: Outcome): Control {
    match outcome
    case Done => End(ctl)
    case _ => End(ctl).(established := false, reset := true)
  }

  /** DoSSLRead after one mbedtls_ssl_read. */
  function AfterRead(c: Conn, outcome: Outcome): Conn
    requires c.client.buffer.Some?
  {
    match outcome
    case Plain(bytes) =>
      c.(client := Append(c.client, bytes), ctl := if Enough(c.client, bytes) then End(c.ctl) else c.ctl)
    case Blocked => c.(ctl := End(c.ctl).(parked := Read))
    case PeerClose(alert) => c.(tx := SendAlert(c.tx, alert), client := Drain(c.client, 0), ctl := Fail(c.ctl))
    case ConnEof => c.(client := Drain(c.client, 0), ctl := Fail(c.ctl))
    case Fatal(code) => c.(client := Drain(c.client, code), ctl := Fail(c.ctl))
    case Done => c
  }

  function Step(c: Conn, e: Event): Conn {
    match e
    case Connected => c.(ctl := Begin(c.ctl.(started := true), Handshake))
    case PutDone(put, nested) => c.(tx := PutComplete(c.tx, put, nested))
    case GetDone(get) => c.(rx := GetComplete(c.rx, get), ctl := c.ctl.(queued := true))
    case Message => c.(ctl := Retry(c.ctl, c.client.buffer.Some?))
    case ClientGet(size, threshold) => StartGet(c, size, threshold)
    case ClientPut => c.(ctl := StartPutBytes(c.ctl))
    case Terminate(alert) => StartTerminate(c, alert)
    case BioSend(buf, nested) => c.(tx := Send(c.tx, buf, nested))
    case BioRecv(len, got, beyond) => OnRecv(c, len, got, beyond)
    case Return(outcome) =>
      if c.ctl.op == Handshake then c.(ctl := AfterHandshake(c.ctl, outcome))
      else if c.ctl.op == Write then c.(ctl := AfterWrite(c.ctl, outcome))
      else if c.ctl.op == Read && c.client.buffer.Some? then AfterRead(c, outcome)
      else c
  }

  // ----- what every step keeps -----

  /** The operations run in the states they belong to, and a suspended operation is the one
      that the retry message would retry. */
  ghost predicate ControlKept(ctl: Control, reading: bool) {
    && (ctl.op == Handshake || ctl.op == Read ==> ctl.parked == NoOperation)
    && ctl.parked != Write
    && (ctl.op == Handshake ==> !ctl.established && ctl.started && !ctl.closing)
    && (ctl.op == Read || ctl.op == Write ==> ctl.established)
    && (ctl.op == Read ==> reading)
    && (ctl.reset ==> ctl.op == NoOperation)
    && (ctl.blocked ==> ctl.op != NoOperation)
    && (ctl.closing ==> ctl.started && !ctl.established)
    && (!ctl.started ==> !ctl.established && !ctl.queued && ctl.parked == NoOperation)
    && (!ctl.closing && !ctl.reset ==>
          && (ctl.parked == Handshake ==> !ctl.established)
          && (ctl.parked == Read ==> ctl.established && reading)
          && (ctl.op == NoOperation && ctl.started && !ctl.established ==> ctl.parked == Handshake)
          && (!ctl.established ==> !reading)
          && (ctl.op != Read && ctl.established && reading ==> ctl.parked == Read))
  }

  /** Nothing is outstanding, queued or buffered. */
  ghost predicate Quiet(ctl: Control, rx: Receiver) {
    !rx.pending && !ctl.queued && rx.buffer == []
  }

  /** An operation suspended, or about to be, is waited for by an outstanding receive or a
      queued message if no end of file found the buffer empty, and by neither if one did.
      While nothing is suspended, nothing is waited for. */
  ghost predicate WakeupKept(ctl: Control, rx: Receiver) {
    && (ctl.blocked ==> rx.pending || ctl.emptyEof)
    && (!ctl.started ==> Quiet(ctl, rx))
    && (ctl.op == Handshake || ctl.op == Read ==> !ctl.queued)
    && (!ctl.closing && !ctl.reset ==>
          && (ctl.parked != NoOperation && !ctl.emptyEof ==> rx.pending || ctl.queued)
          && (ctl.parked == NoOperation && (ctl.op == NoOperation || (ctl.op == Write && !ctl.blocked))
            ==> Quiet(ctl, rx))
          && (ctl.emptyEof ==> rx.peerClosed && !rx.pending && (ctl.queued ==> ctl.op == Write && ctl.blocked)))
  }

  ghost predicate Inv(c: Conn) {
    && Sending.Inv(c.tx)
    && Receiving.Inv(c.rx)
    && ClientReads.Inv(c.client)
    && (!c.ctl.reset && c.client.buffer.Some? ==> Open(c.client))
    && ControlKept(c.ctl, c.client.buffer.Some?)
    && WakeupKept(c.ctl, c.rx)
  }

  lemma AlertKeeps(tx: Sender, alert: Option<Alert>)
    requires Sending.Inv(tx)
    ensures Sending.Inv(SendAlert(tx, alert))
  {
    if alert.Some? { SendKeeps(tx, alert.value.bytes, alert.value.nested); }
  }

  lemma StepKeepsSender(c: Conn, e: Event)
    requires Inv(c) && Enabled(c, e)
    ensures Sending.Inv(Step(c, e).tx)
  {
    match e
    case PutDone(put, nested) => PutCompleteKeeps(c.tx, put, nested);
    case BioSend(buf, nested) => SendKeeps(c.tx, buf, nested);
    case Terminate(alert) => AlertKeeps(c.tx, alert);
    case Return(outcome) => if outcome.PeerClose? { AlertKeeps(c.tx, outcome.alert); }
    case _ =>
  }

  lemma StepKeepsReceiver(c: Conn, e: Event)
    requires Inv(c) && Enabled(c, e)
    ensures Receiving.Inv(Step(c, e).rx)
  {
    match e
    case GetDone(get) => GetCompleteKeeps(c.rx, get);
    case BioRecv(len, got, beyond) => RecvKeeps(c.rx, len, got, beyond);
    case _ =>
  }

  lemma StepKeepsReads(c: Conn, e: Event)
    requires Inv(c) && Enabled(c, e)
    ensures var d := Step(c, e);
      ClientReads.Inv(d.client) && (!d.ctl.reset && d.client.buffer.Some? ==> Open(d.client))
  {
    match e
    case ClientGet(size, threshold) =>
      if c.client.buffer == None { AcceptKeeps(c.client, size, threshold); }
    case Return(outcome) =>
      if c.ctl.op == Read {
        match outcome
        case Plain(bytes) => AppendKeeps(c.client, bytes);
        case Fatal(code) => DrainKeeps(c.client, code);
        case _ => DrainKeeps(c.client, 0);
      }
    case _ =>
  }

  lemma ReturnKeepsControl(c: Conn, outcome: Outcome)
    requires Inv(c) && Enabled(c, Return(outcome))
    ensures var d := Step(c, Return(outcome)); ControlKept(d.ctl, d.client.buffer.Some?)
  {
  }

  lemma StepKeepsControl(c: Conn, e: Event)
    requires Inv(c) && Enabled(c, e)
    ensures ControlKept(Step(c, e).ctl, Step(c, e).client.buffer.Some?)
  {
    match e
    case Return(outcome) => ReturnKeepsControl(c, outcome);
    case _ =>
  }

  lemma RecvKeepsWakeup(c: Conn, len: nat, got: Option<GetResult>, beyond: nat -> Byte)
    requires Inv(c) && Enabled(c, BioRecv(len, got, beyond))
    ensures var d := OnRecv(c, len, got, beyond); WakeupKept(d.ctl, d.rx)
  {
    if Recv(c.rx, len, got, beyond).1 == WantRead { SuspendsOnRequest(c.rx, len, got, beyond); }
  }

  lemma ReturnKeepsWakeup(c: Conn, outcome: Outcome)
    requires Inv(c) && Enabled(c, Return(outcome))
    ensures var d := Step(c, Return(outcome)); WakeupKept(d.ctl, d.rx)
  {
  }

  lemma StepKeepsWakeup(c: Conn, e: Event)
    requires Inv(c) && Enabled(c, e)
    ensures WakeupKept(Step(c, e).ctl, Step(c, e).rx)
  {
    match e
    case BioRecv(len, got, beyond) => RecvKeepsWakeup(c, len, got, beyond);
    case Return(outcome) => ReturnKeepsWakeup(c, outcome);
    case _ =>
  }

  /** Every step that the environment may take keeps all of it. */
  lemma StepKeeps(c: Conn, e: Event)
    requires Inv(c) && Enabled(c, e)
    ensures Inv(Step(c, e))
  {
    StepKeepsSender(c, e);
    StepKeepsReceiver(c, e);
    StepKeepsReads(c, e);
    StepKeepsControl(c, e);
    StepKeepsWakeup(c, e);
  }
}
