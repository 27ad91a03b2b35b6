/**
 * The connection logic of src/uwsc.c: the state a uwsc_client carries, what
 * __uwsc_notify_read does with the bytes received (the opening handshake,
 * then frame after frame), how dispach_message answers control frames, what
 * uwsc_send and uwsc_error write, and the ping timer.
 *
 * The functions of this module are the specification: a connection is a
 * value `Conn` and each entry point a function from the old value to the
 * new one. The class `Client` below holds the same state in fields and
 * carries out the same steps statement by statement; each of its methods is
 * proved to produce the value its function computes.
 *
 * The stream is the bytes received so far, `rx`, with a count of those
 * consumed, and the bytes written, `tx`. The callbacks onopen and onmessage
 * are recorded in a log of events. Mask keys, which uwsc_send draws from
 * /dev/urandom, are parameters.
 */
module Client {
  import opened Wrappers
  import opened Bytes
  import opened Frame
  import opened Http

  // Error codes, src/uwsc.h:50-58.
  const ERROR_INVALID_HEADER: int := 2
  const ERROR_SERVER_MASKED: int := 3

  /** The two states __uwsc_notify_read distinguishes. */
  datatype Phase = Handshake | Message

  /** The ping timer: not armed, or armed to fire after `ms` milliseconds. */
  datatype Timer = Disarmed | Armed(ms: int)

  /** The callbacks the application sees. */
  datatype Event =
    | Opened
    | Delivered(payload: seq<bv8>, opcode: bv8)

  /**
   * The fields of a uwsc_client that src/uwsc.c reads or writes: the state,
   * the error code, the stream's eof flag, the stream itself, the frame
   * being assembled (opcode, payload and whether fragments are being
   * collected), the ping bookkeeping, and the callbacks made so far.
   */
  datatype Conn = Conn(
    phase: Phase,
    error: int,
    eof: bool,
    rx: seq<bv8>,
    consumed: nat,
    tx: seq<bv8>,
    opcode: bv8,
    payload: seq<bv8>,
    fragmented: bool,
    waitPingResp: bool,
    pingInterval: int,
    timer: Timer,
    events: seq<Event>)

  /** The stream never consumes more than it received. */
  predicate Ok(c: Conn) {
    c.consumed <= |c.rx|
  }

  /** The bytes received and not yet consumed. */
  function Unread(c: Conn): seq<bv8>
    requires Ok(c)
  {
    c.rx[c.consumed..]
  }

  /** A freshly allocated client: every field zero. */
  const INITIAL: Conn := Conn(Handshake, 0, false, [], 0, [], 0, [], false, false, 0, Disarmed, [])

  /** More bytes arrive from the server. */
  function Arrive(c: Conn, more: seq<bv8>): (d: Conn)
    ensures d.rx == c.rx + more
  {
    c.(rx := c.rx + more)
  }

  // ---------------------------------------------------------------------
  // uwsc_error and uwsc_send
  // ---------------------------------------------------------------------

  /**
   * uwsc_error: the stream is marked eof, the error recorded and one CLOSE
   * frame with no payload written.
   */
  function Closed(c: Conn, e: int, key: MaskKey): (d: Conn)
    ensures d.eof && d.error == e
    ensures d.tx == c.tx + ClientFrame(OP_CLOSE, [], key)
  {
    c.(eof := true, error := e, tx := c.tx + ClientFrame(OP_CLOSE, [], key))
  }

  /**
   * uwsc_send of a payload it accepts: the frame is written; a CLOSE frame
   * then also marks the stream eof with error 0.
   */
  function Sent(c: Conn, payload: seq<bv8>, op: bv8, key: MaskKey): Conn
    requires |payload| <= INT_MAX - 14
  {
    var d := c.(tx := c.tx + ClientFrame(op, payload, key));
    if op == OP_CLOSE then d.(eof := true, error := 0) else d
  }

  /**
   * What a server reads from the bytes uwsc_send appends: a final frame
   * with exactly the opcode and payload given, and nothing else changes
   * but the eof flag and error of a CLOSE.
   */
  lemma SentFrameCarriesPayload(c: Conn, payload: seq<bv8>, op: bv8, key: MaskKey)
    requires |payload| <= INT_MAX - 14 && op <= 0x0F
    ensures var d := Sent(c, payload, op, key);
      && d.tx[..|c.tx|] == c.tx
      && UnmaskClientFrame(d.tx[|c.tx|..]) == Some((true, op, payload))
      && d.rx == c.rx && d.consumed == c.consumed && d.phase == c.phase && d.events == c.events
      && (op == OP_CLOSE ==> d.eof && d.error == 0)
      && (op != OP_CLOSE ==> d.eof == c.eof && d.error == c.error)
  {
    var d := Sent(c, payload, op, key);
    assert d.tx == c.tx + ClientFrame(op, payload, key);
    assert d.tx[|c.tx|..] == ClientFrame(op, payload, key);
    ClientFrameRoundTrip(op, payload, key);
  }

  // ---------------------------------------------------------------------
  // dispach_message
  // ---------------------------------------------------------------------

  /**
   * dispach_message on the frame assembled: data frames go to onmessage,
   * a PING is answered by a PONG with the same payload, a PONG clears the
   * wait flag and re-arms the ping timer, a CLOSE ends the connection with
   * error 0, anything else is ignored.
   */
  function Dispatched(c: Conn, key: MaskKey): Conn {
    if c.opcode == OP_TEXT || c.opcode == OP_BINARY then
      c.(events := c.events + [Delivered(c.payload, c.opcode)])
    else if c.opcode == OP_PING then
      if |c.payload| <= INT_MAX - 14 then Sent(c, c.payload, OP_PONG, key) else c
    else if c.opcode == OP_PONG then
      c.(waitPingResp := false, timer := Armed(c.pingInterval * 1000))
    else if c.opcode == OP_CLOSE then
      Closed(c, 0, key)
    else
      c
  }

  /** Dispatch never touches the stream's input side or the frame being assembled. */
  lemma DispatchKeepsInput(c: Conn, key: MaskKey)
    ensures var d := Dispatched(c, key);
      && d.rx == c.rx && d.consumed == c.consumed && d.phase == c.phase
      && d.opcode == c.opcode && d.payload == c.payload && d.fragmented == c.fragmented
  {
  }

  /**
   * The control-frame rules of dispach_message: a PING is answered by one
   * PONG frame carrying its payload, a PONG stops the wait and re-arms the
   * timer with the interval, a CLOSE closes with error 0, a data frame is
   * delivered once, and other opcodes change nothing.
   */
  lemma DispatchRules(c: Conn, key: MaskKey)
    ensures c.opcode == OP_PING && |c.payload| <= INT_MAX - 14 ==>
      var d := Dispatched(c, key);
      d.tx[..|c.tx|] == c.tx && UnmaskClientFrame(d.tx[|c.tx|..]) == Some((true, OP_PONG, c.payload))
        && d.events == c.events && d.error == c.error && d.eof == c.eof
    ensures c.opcode == OP_PONG ==>
      Dispatched(c, key) == c.(waitPingResp := false, timer := Armed(c.pingInterval * 1000))
    ensures c.opcode == OP_CLOSE ==> Dispatched(c, key) == Closed(c, 0, key)
    ensures (c.opcode == OP_TEXT || c.opcode == OP_BINARY) ==>
      Dispatched(c, key).events == c.events + [Delivered(c.payload, c.opcode)]
      && Dispatched(c, key).tx == c.tx
    ensures c.opcode !in {OP_TEXT, OP_BINARY, OP_PING, OP_PONG, OP_CLOSE} ==> Dispatched(c, key) == c
  {
    if c.opcode == OP_PING && |c.payload| <= INT_MAX - 14 {
      SentFrameCarriesPayload(c, c.payload, OP_PONG, key);
    }
  }

  // ---------------------------------------------------------------------
  // parse_frame
  // ---------------------------------------------------------------------

  /**
   * The frame as assembled after one frame with FIN bit `fin`, opcode `op`
   * and payload `p`: while fragments are being collected the payload is
   * appended; otherwise opcode and payload are taken, and collection starts
   * unless the frame is final.
   */
  function Assembled(c: Conn, fin: bool, op: bv8, p: seq<bv8>): Conn {
    if c.fragmented then c.(payload := c.payload + p)
    else if fin then c.(opcode := op, payload := p)
    else c.(opcode := op, payload := p, fragmented := true)
  }

  /** A whole frame taken: its payload assembled, and when it is final the message dispatched and collection ended. */
  function Taken(c: Conn, fin: bool, op: bv8, p: seq<bv8>, key: MaskKey): (d: Conn)
    ensures d.rx == c.rx && d.consumed == c.consumed
  {
    var a := Assembled(c, fin, op, p);
    DispatchKeepsInput(a, key);
    if fin then Dispatched(a, key).(fragmented := false) else a
  }

  /**
   * parse_frame on the unread bytes, with whether it returned true: an
   * incomplete frame changes nothing; a masked one is refused through
   * uwsc_error; a whole frame is assembled, dispatched when final, and
   * consumed.
   */
  function FrameStep(c: Conn, key: MaskKey): (Conn, bool)
    requires Ok(c)
  {
    Framed(c, DecodeFrame(Unread(c)), Unread(c), key)
  }

  /** parse_frame once the head of `data`, the unread bytes, is decoded as `f`. */
  function Framed(c: Conn, f: Decoded, data: seq<bv8>, key: MaskKey): (Conn, bool)
    requires f.Frame? ==> f.headerLen + f.payloadLen <= |data|
  {
    if f.Incomplete? then (c, false)
    else if f.Masked? then (Closed(c, ERROR_SERVER_MASKED, key), false)
    else
      var d := Taken(c, f.fin, f.opcode, data[f.headerLen..f.headerLen + f.payloadLen], key);
      (d.(consumed := c.consumed + f.headerLen + f.payloadLen), true)
  }

  /**
   * parse_frame consumes exactly one whole frame, header and payload, when
   * it returns true, and nothing otherwise; a refused masked frame sets
   * error 3.
   */
  lemma FrameStepConsumes(c: Conn, key: MaskKey)
    requires Ok(c)
    ensures var r := FrameStep(c, key); var f := DecodeFrame(Unread(c));
      && r.0.rx == c.rx
      && (r.1 <==> f.Frame?)
      && (r.1 ==> r.0.consumed == c.consumed + f.headerLen + f.payloadLen <= |c.rx|)
      && (!r.1 ==> r.0.consumed == c.consumed)
      && (f.Masked? ==> r.0.error == ERROR_SERVER_MASKED && r.0.eof)
      && (f.Incomplete? ==> r.0 == c)
  {
    var f := DecodeFrame(Unread(c));
    if f.Frame? {
      DecodedFrameShape(Unread(c));
    }
  }

  // ---------------------------------------------------------------------
  // __uwsc_notify_read
  // ---------------------------------------------------------------------

  /** How one pass of the read loop ends: return at once, leave the loop, or go round again. */
  datatype Outcome = Return | Break | Continue

  /**
   * One pass of the do-while loop of __uwsc_notify_read: with nothing
   * unread it returns; in the handshake state the response head is judged
   * (waiting for the blank line, recording error 2, or consuming the head
   * and opening the connection); in the message state one frame is parsed.
   */
  function ReadStep(c: Conn, key: MaskKey): (r: (Conn, Outcome))
    requires Ok(c)
    ensures Ok(r.0) && r.0.rx == c.rx
    ensures r.1.Continue? ==> r.0.consumed > c.consumed
    ensures !r.1.Continue? ==> r.0.consumed == c.consumed
    ensures r.1.Return? ==> r.0 == c
    ensures r.1.Break? ==> r.0 == c || r.0.error != 0
  {
    if c.consumed == |c.rx| then (c, Return)
    else if c.phase.Handshake? then
      AcceptedThroughFirstBlankLine(Unread(c));
      HandshakeStep(c, ResponseVerdict(Unread(c)))
    else
      FrameStepConsumes(c, key);
      var s := FrameStep(c, key);
      (s.0, if s.1 then Continue else Break)
  }

  /**
   * The handshake branch once the response is judged `v`: wait for the
   * blank line, record error 2, or consume the head, call onopen and enter
   * the message state.
   */
  function HandshakeStep(c: Conn, v: Verdict): (r: (Conn, Outcome))
    requires v.Accepted? ==> 0 < v.consumed && c.consumed + v.consumed <= |c.rx|
    ensures Ok(c) ==> Ok(r.0)
    ensures r.0.rx == c.rx
    ensures r.1.Continue? <==> v.Accepted?
    ensures r.1.Continue? ==> r.0.consumed == c.consumed + v.consumed
    ensures !r.1.Continue? ==> r.0.consumed == c.consumed
    ensures r.1.Return? ==> r.0 == c
    ensures r.1.Break? ==> r.0.error != 0
  {
    if v.NoTerminator? then (c, Return)
    else if v.Invalid? then (c.(error := ERROR_INVALID_HEADER), Break)
    else (c.(consumed := c.consumed + v.consumed, events := c.events + [Opened], phase := Message), Continue)
  }

  /** After the loop: a recorded error closes the connection through uwsc_error. */
  function Finish(c: Conn, key: MaskKey): Conn {
    if c.error != 0 then Closed(c, c.error, key) else c
  }

  /**
   * __uwsc_notify_read: passes of the loop while they go round and no error
   * is recorded; a loop left with an error ends in uwsc_error.
   */
  function ReadLoop(c: Conn, key: MaskKey): (d: Conn)
    requires Ok(c)
    ensures Ok(d) && d.rx == c.rx
    decreases |c.rx| - c.consumed
  {
    var r := ReadStep(c, key);
    if r.1.Return? then r.0
    else if r.1.Continue? && r.0.error == 0 then ReadLoop(r.0, key)
    else Finish(r.0, key)
  }

  /**
   * Where the read loop may stop without an error: nothing is unread, the
   * handshake response has no blank line yet, or the next frame is not yet
   * wholly received.
   */
  predicate Stopped(c: Conn)
    requires Ok(c)
  {
    || c.consumed == |c.rx|
    || (c.phase.Handshake? && ResponseVerdict(Unread(c)).NoTerminator?)
    || (c.phase.Message? && DecodeFrame(Unread(c)).Incomplete?)
  }

  /**
   * __uwsc_notify_read only consumes, and when it ends without an error it
   * has processed every whole frame and every complete handshake response
   * it was given.
   */
  lemma {:induction false} ReadLoopDrains(c: Conn, key: MaskKey)
    requires Ok(c)
    ensures var d := ReadLoop(c, key);
      && Ok(d) && d.rx == c.rx && c.consumed <= d.consumed
      && (d.error == 0 ==> Stopped(d))
    decreases |c.rx| - c.consumed
  {
    var r := ReadStep(c, key);
    if r.1.Continue? && r.0.error == 0 {
      ReadLoopDrains(r.0, key);
    } else if r.1.Break? && r.0 == c {
      if c.phase.Message? {
        FrameStepConsumes(c, key);
      }
    }
  }

  /**
   * A pass that goes round decides the same when more bytes have arrived
   * behind those it read.
   */
  lemma ReadStepOfArrival(c: Conn, more: seq<bv8>, key: MaskKey)
    requires Ok(c) && ReadStep(c, key).1.Continue?
    ensures ReadStep(Arrive(c, more), key) == (Arrive(ReadStep(c, key).0, more), Continue)
  {
    if c.phase.Handshake? {
      HandshakeStepOfArrival(c, more, key);
    } else {
      FrameStepConsumes(c, key);
      FrameStepOfArrival(c, more, key);
    }
  }

  lemma UnreadOfArrival(c: Conn, more: seq<bv8>)
    requires Ok(c)
    ensures Unread(Arrive(c, more)) == Unread(c) + more
  {
  }

  lemma HandshakeStepOfArrival(c: Conn, more: seq<bv8>, key: MaskKey)
    requires Ok(c) && c.phase.Handshake? && c.consumed < |c.rx|
    requires ResponseVerdict(Unread(c)).Accepted?
    ensures ReadStep(Arrive(c, more), key) == (Arrive(ReadStep(c, key).0, more), Continue)
  {
    var a := Arrive(c, more);
    var v := ResponseVerdict(Unread(c));
    UnreadOfArrival(c, more);
    VerdictIsPrefixStable(Unread(c), more);
    assert ResponseVerdict(Unread(a)) == v;
    AcceptedThroughFirstBlankLine(Unread(c));
    AcceptedOfArrival(c, more, v);
  }

  lemma AcceptedOfArrival(c: Conn, more: seq<bv8>, v: Verdict)
    requires v.Accepted? && 0 < v.consumed && c.consumed + v.consumed <= |c.rx|
    ensures HandshakeStep(Arrive(c, more), v) == (Arrive(HandshakeStep(c, v).0, more), Continue)
  {
  }

  lemma FrameStepOfArrival(c: Conn, more: seq<bv8>, key: MaskKey)
    requires Ok(c) && c.phase.Message? && c.consumed < |c.rx|
    requires DecodeFrame(Unread(c)).Frame?
    ensures FrameStep(Arrive(c, more), key) == (Arrive(FrameStep(c, key).0, more), true)
  {
    var u := Unread(c);
    UnreadOfArrival(c, more);
    DecodeIsPrefixStable(u, more);
    FramedOfArrival(c, more, DecodeFrame(u), u, key);
  }

  /** A whole frame is handled alike whatever bytes follow it. */
  lemma FramedOfArrival(c: Conn, more: seq<bv8>, f: Decoded, data: seq<bv8>, key: MaskKey)
    requires f.Frame? && f.headerLen + f.payloadLen <= |data|
    ensures Framed(Arrive(c, more), f, data + more, key) == (Arrive(Framed(c, f, data, key).0, more), true)
  {
    assert (data + more)[f.headerLen..f.headerLen + f.payloadLen] == data[f.headerLen..f.headerLen + f.payloadLen];
  }

  /**
   * The client does not depend on how the server's bytes are split into
   * reads: reading a first part and then the rest ends in the state
   * reading everything at once reaches, as long as the first read ends
   * without an error.
   */
  lemma {:induction false} ChunkingIndependence(c: Conn, more: seq<bv8>, key: MaskKey)
    requires Ok(c) && ReadLoop(c, key).error == 0
    ensures ReadLoop(Arrive(ReadLoop(c, key), more), key) == ReadLoop(Arrive(c, more), key)
    decreases |c.rx| - c.consumed
  {
    ReadLoopDrains(c, key);
    var r := ReadStep(c, key);
    if r.1.Continue? && r.0.error == 0 {
      ChunkingIndependence(r.0, more, key);
      ReadStepOfArrival(c, more, key);
    }
  }

  // ---------------------------------------------------------------------
  // What the read loop does with well-formed input
  // ---------------------------------------------------------------------

  /**
   * A response made of a status line and header lines, ended by a blank
   * line: the connection opens, consuming the head and the blank line,
   * exactly when the version is HTTP/1.1, the status 101 and the Upgrade,
   * Connection and Sec-WebSocket-Accept headers are present; otherwise the
   * client records error 2 and closes, consuming nothing.
   */
  lemma HandshakeOutcome(c: Conn, version: seq<bv8>, status: seq<bv8>, reason: seq<bv8>,
                         headers: seq<seq<bv8>>, head: seq<bv8>, body: seq<bv8>, key: MaskKey)
    requires Ok(c) && c.phase.Handshake? && c.error == 0
    requires PlainLine(version) && SPACE !in version
    requires PlainLine(status) && SPACE !in status
    requires PlainLine(reason)
    requires forall k :: 0 <= k < |headers| ==> PlainLine(headers[k])
    requires head == Lines([StatusLine(version, status, reason)] + headers)
    requires Unread(c) == head + CRLF + body
    ensures var accepted := version == HTTP11 && Atoi(status) == 101 && HeaderFlagsOf(headers, NO_FLAGS).Complete();
      && (accepted ==> ReadLoop(c, key) == ReadLoop(Opening(c, |head| + 2), key))
      && (!accepted ==> ReadLoop(c, key) == Closed(c.(error := ERROR_INVALID_HEADER), ERROR_INVALID_HEADER, key))
  {
    WellFormedResponseVerdict(version, status, reason, headers, head, body);
    var v := Expected(version, status, headers, |head| + 2);
    LoopOfVerdict(c, v, key);
  }

  /** The connection once a handshake response of `n` bytes is accepted. */
  function Opening(c: Conn, n: nat): Conn {
    c.(consumed := c.consumed + n, events := c.events + [Opened], phase := Message)
  }

  lemma LoopOfVerdict(c: Conn, v: Verdict, key: MaskKey)
    requires Ok(c) && c.phase.Handshake? && c.error == 0 && c.consumed < |c.rx|
    requires ResponseVerdict(Unread(c)) == v && !v.NoTerminator?
    ensures v.Accepted? ==> ReadLoop(c, key) == ReadLoop(Opening(c, v.consumed), key)
    ensures v.Invalid? ==> ReadLoop(c, key) == Closed(c.(error := ERROR_INVALID_HEADER), ERROR_INVALID_HEADER, key)
  {
    StepOfVerdict(c, v, key);
    HandshakeStepOfVerdict(c, v);
    LoopOfStep(c, key, ReadStep(c, key));
  }

  /**
   * In the model a rejected response is judged again on the next read, and
   * another CLOSE frame is written, because the head is never consumed.
   */
  lemma RejectedHeadClosesAgain(c: Conn, more: seq<bv8>, key: MaskKey)
    requires Ok(c) && c.phase.Handshake? && c.error == 0 && c.consumed < |c.rx|
    requires ResponseVerdict(Unread(c)) == Invalid
    ensures var c1 := ReadLoop(c, key);
      && c1.error == ERROR_INVALID_HEADER && c1.consumed == c.consumed
      && ReadLoop(Arrive(c1, more), key).tx == c1.tx + ClientFrame(OP_CLOSE, [], key)
  {
    LoopOfVerdict(c, Invalid, key);
    var c1 := ReadLoop(c, key);
    var a := Arrive(c1, more);
    UnreadOfArrival(c1, more);
    assert Unread(c1) == Unread(c);
    VerdictIsPrefixStable(Unread(c), more);
    StepOfVerdict(a, Invalid, key);
    HandshakeStepOfVerdict(a, Invalid);
  }

  lemma StepOfVerdict(c: Conn, v: Verdict, key: MaskKey)
    requires Ok(c) && c.phase.Handshake? && c.consumed < |c.rx|
    requires ResponseVerdict(Unread(c)) == v && !v.NoTerminator?
    ensures v.Accepted? ==> 0 < v.consumed && c.consumed + v.consumed <= |c.rx|
    ensures ReadStep(c, key) == HandshakeStep(c, v)
  {
    AcceptedThroughFirstBlankLine(Unread(c));
  }

  lemma HandshakeStepOfVerdict(c: Conn, v: Verdict)
    requires v.Accepted? ==> 0 < v.consumed && c.consumed + v.consumed <= |c.rx|
    requires !v.NoTerminator?
    ensures v.Accepted? ==> HandshakeStep(c, v) == (Opening(c, v.consumed), Continue)
    ensures v.Invalid? ==> HandshakeStep(c, v) == (c.(error := ERROR_INVALID_HEADER), Break)
  {
  }

  /** The read loop after a pass that does not return. */
  lemma LoopOfStep(c: Conn, key: MaskKey, r: (Conn, Outcome))
    requires Ok(c) && r == ReadStep(c, key) && !r.1.Return?
    ensures r.1.Continue? && r.0.error == 0 ==> ReadLoop(c, key) == ReadLoop(r.0, key)
    ensures !(r.1.Continue? && r.0.error == 0) ==> ReadLoop(c, key) == Finish(r.0, key)
  {
  }

  /**
   * One frame a server sent, received in the message state, is taken as
   * sent: its payload is assembled, dispatched when the frame is final, and
   * the frame consumed to its last byte.
   */
  lemma ServerFrameStep(c: Conn, fin: bool, op: bv8, p: seq<bv8>, more: seq<bv8>, key: MaskKey)
    requires Ok(c) && c.phase.Message? && op <= 0x0F && |p| < U64_MODULUS
    requires Unread(c) == ServerHeader(fin, op, |p|) + p + more
    ensures var r := ReadStep(c, key);
      && r.1 == Continue
      && Ok(r.0) && Unread(r.0) == more
      && r.0 == Taken(c, fin, op, p, key).(consumed := r.0.consumed)
  {
    var h := ServerHeader(fin, op, |p|);
    ServerFrameDecodes(fin, op, p, more);
    MessageStep(c, key);
    FramedWhole(c, Frame(fin, op, |h|, |p|), key);
    assert Unread(c)[|h| + |p|..] == more;
  }

  /** A whole frame is consumed to its last byte, after its payload is assembled and, when final, dispatched. */
  lemma FramedWhole(c: Conn, f: Decoded, key: MaskKey)
    requires Ok(c) && f.Frame? && f.headerLen + f.payloadLen <= |Unread(c)|
    ensures var r := Framed(c, f, Unread(c), key).0;
      && Ok(r) && Unread(r) == Unread(c)[f.headerLen + f.payloadLen..]
      && r == Taken(c, f.fin, f.opcode, Unread(c)[f.headerLen..f.headerLen + f.payloadLen], key).(consumed := r.consumed)
  {
    var n := f.headerLen + f.payloadLen;
    assert c.rx[c.consumed + n..] == Unread(c)[n..];
  }

  /** In the message state, a whole frame at the head of the unread bytes is one step that goes on. */
  lemma MessageStep(c: Conn, key: MaskKey)
    requires Ok(c) && c.phase.Message? && DecodeFrame(Unread(c)).Frame?
    ensures ReadStep(c, key) == (Framed(c, DecodeFrame(Unread(c)), Unread(c), key).0, Continue)
  {
    FrameStepConsumes(c, key);
  }

  /**
   * A PING frame is answered at once by a PONG frame carrying the same
   * payload (section 5.5.3 of RFC 6455), and nothing is delivered.
   */
  lemma PingAnswered(c: Conn, p: seq<bv8>, more: seq<bv8>, key: MaskKey)
    requires Ok(c) && c.phase.Message? && !c.fragmented && |p| <= INT_MAX - 14
    requires Unread(c) == ServerHeader(true, OP_PING, |p|) + p + more
    ensures var r := ReadStep(c, key);
      && r.1 == Continue && Ok(r.0) && Unread(r.0) == more
      && r.0.tx == c.tx + ClientFrame(OP_PONG, p, key)
      && r.0.events == c.events && r.0.error == c.error && r.0.eof == c.eof
  {
    ServerFrameStep(c, true, OP_PING, p, more, key);
  }

  /** A final TEXT or BINARY frame is delivered once, as received, and nothing is written. */
  lemma MessageDelivered(c: Conn, op: bv8, p: seq<bv8>, more: seq<bv8>, key: MaskKey)
    requires Ok(c) && c.phase.Message? && !c.fragmented && (op == OP_TEXT || op == OP_BINARY)
    requires |p| < U64_MODULUS
    requires Unread(c) == ServerHeader(true, op, |p|) + p + more
    ensures var r := ReadStep(c, key);
      && r.1 == Continue && Ok(r.0) && Unread(r.0) == more
      && r.0.events == c.events + [Delivered(p, op)] && r.0.tx == c.tx
  {
    ServerFrameStep(c, true, op, p, more, key);
  }

  /**
   * A message sent in two fragments, a first frame without the FIN bit and
   * a final continuation frame, is delivered once with the two payloads
   * joined and the first frame's opcode, as section 5.4 of RFC 6455 asks.
   */
  lemma FragmentsReassembled(c: Conn, op: bv8, p1: seq<bv8>, p2: seq<bv8>, more: seq<bv8>, key: MaskKey)
    requires Ok(c) && c.phase.Message? && !c.fragmented && (op == OP_TEXT || op == OP_BINARY)
    requires |p1| < U64_MODULUS && |p2| < U64_MODULUS
    requires Unread(c) == ServerHeader(false, op, |p1|) + p1 + (ServerHeader(true, OP_CONTINUE, |p2|) + p2 + more)
    ensures var r1 := ReadStep(c, key);
      && r1.1 == Continue && Ok(r1.0) && r1.0.phase.Message?
      && var r2 := ReadStep(r1.0, key);
      && r2.1 == Continue && Ok(r2.0) && Unread(r2.0) == more
      && r2.0.events == c.events + [Delivered(p1 + p2, op)] && !r2.0.fragmented && r2.0.tx == c.tx
  {
    var rest := ServerHeader(true, OP_CONTINUE, |p2|) + p2 + more;
    ServerFrameStep(c, false, op, p1, rest, key);
    var c1 := ReadStep(c, key).0;
    ServerFrameStep(c1, true, OP_CONTINUE, p2, more, key);
  }

  // ---------------------------------------------------------------------
  // uwsc_ping_cb and uwsc_set_ping_interval
  // ---------------------------------------------------------------------

  /**
   * uwsc_ping_cb: the timer has fired. If the last PING went unanswered the
   * connection is closed; otherwise a PING is sent and the client waits one
   * second for the PONG.
   */
  function PingFired(c: Conn, key: MaskKey): Conn {
    var d := c.(timer := Disarmed);
    if d.waitPingResp then Sent(d, [], OP_CLOSE, key)
    else Sent(d, [], OP_PING, key).(waitPingResp := true, timer := Armed(1000))
  }

  /**
   * uwsc_set_ping_interval: the interval is recorded and the timer re-armed
   * with it, or cancelled when it is not positive.
   */
  function PingIntervalSet(c: Conn, interval: int): (d: Conn)
    ensures d.timer.Armed? <==> interval > 0
    ensures d.timer.Armed? ==> d.timer.ms == interval * 1000
  {
    c.(pingInterval := interval, timer := if interval > 0 then Armed(interval * 1000) else Disarmed)
  }

  /**
   * Keep-alive: two firings of the ping timer with no PONG between them
   * write one PING frame and then one CLOSE frame, and end the connection
   * with error 0.
   */
  lemma UnansweredPingCloses(c: Conn, k1: MaskKey, k2: MaskKey)
    requires !c.waitPingResp
    ensures var d := PingFired(PingFired(c, k1), k2);
      && d.tx == c.tx + ClientFrame(OP_PING, [], k1) + ClientFrame(OP_CLOSE, [], k2)
      && d.eof && d.error == 0 && d.timer == Disarmed
      && UnmaskClientFrame(d.tx[|c.tx|..|c.tx| + 6]) == Some((true, OP_PING, []))
      && UnmaskClientFrame(d.tx[|c.tx| + 6..]) == Some((true, OP_CLOSE, []))
  {
    var d := PingFired(PingFired(c, k1), k2);
    var ping, close := ClientFrame(OP_PING, [], k1), ClientFrame(OP_CLOSE, [], k2);
    assert |ping| == 6;
    assert d.tx[|c.tx|..|c.tx| + 6] == ping;
    assert d.tx[|c.tx| + 6..] == close;
    ClientFrameRoundTrip(OP_PING, [], k1);
    ClientFrameRoundTrip(OP_CLOSE, [], k2);
  }

  /**
   * A PONG answering the PING clears the wait, so the next firing of the
   * timer sends another PING instead of closing; and the timer runs again
   * with the interval.
   */
  lemma PongKeepsAlive(c: Conn, k1: MaskKey, k2: MaskKey, k3: MaskKey)
    requires !c.waitPingResp && c.opcode == OP_PONG
    ensures var answered := Dispatched(PingFired(c, k1), k2);
      && !answered.waitPingResp && answered.timer == Armed(c.pingInterval * 1000)
      && var d := PingFired(answered, k3);
      && d.tx == c.tx + ClientFrame(OP_PING, [], k1) + ClientFrame(OP_PING, [], k3)
      && d.eof == c.eof && d.error == c.error && d.waitPingResp
  {
  }

  // ---------------------------------------------------------------------
  // Findings: uwsc_error and uwsc_send as written
  // ---------------------------------------------------------------------

  /**
   * uwsc_error as written: mark eof, record the error, and send a CLOSE
   * frame through uwsc_send, which for a CLOSE calls uwsc_error again. The
   * `fuel` bounds the depth of calls; None means the depth ran out.
   */
  function ErrorAsWritten(c: Conn, e: int, key: MaskKey, fuel: nat): Option<Conn>
    decreases fuel, 0
  {
    if fuel == 0 then None
    else SendAsWritten(c.(eof := true, error := e), [], OP_CLOSE, key, fuel - 1)
  }

  /** uwsc_send as written, with the same fuel. */
  function SendAsWritten(c: Conn, payload: seq<bv8>, op: bv8, key: MaskKey, fuel: nat): Option<Conn>
    requires |payload| <= INT_MAX - 14
    decreases fuel, 1
  {
    var d := c.(tx := c.tx + ClientFrame(op, payload, key));
    if op == OP_CLOSE then ErrorAsWritten(d, 0, key, fuel) else Some(d)
  }

  /**
   * uwsc_error as written never returns, however deep the stack: every
   * CLOSE it sends calls it again. The model uses `Closed`, one CLOSE frame.
   */
  lemma {:induction false} ErrorNeverReturns(c: Conn, e: int, key: MaskKey, fuel: nat)
    ensures ErrorAsWritten(c, e, key, fuel) == None
    decreases fuel
  {
    if fuel > 0 {
      var d := c.(eof := true, error := e);
      var d2 := d.(tx := d.tx + ClientFrame(OP_CLOSE, [], key));
      ErrorNeverReturns(d2, 0, key, fuel - 1);
    }
  }

  /** The corrected uwsc_error writes exactly one CLOSE frame, which a server reads as such. */
  lemma ClosedWritesOneCloseFrame(c: Conn, e: int, key: MaskKey)
    ensures var d := Closed(c, e, key);
      && d.tx[..|c.tx|] == c.tx && UnmaskClientFrame(d.tx[|c.tx|..]) == Some((true, OP_CLOSE, []))
      && d.eof && d.error == e && d.rx == c.rx && d.consumed == c.consumed
  {
    var d := Closed(c, e, key);
    assert d.tx[|c.tx|..] == ClientFrame(OP_CLOSE, [], key);
    ClientFrameRoundTrip(OP_CLOSE, [], key);
  }

  /** The printf calls of uwsc_handshake, one after another, write the request text. */
  lemma RequestWrites(t0: seq<bv8>, t1: seq<bv8>, t2: seq<bv8>, t3: seq<bv8>,
                      host: seq<bv8>, port: int, path: seq<bv8>, key: seq<bv8>)
    requires t1 == t0 + Ascii("GET ") + CStr(path) + Ascii(" HTTP/1.1") + CRLF
                  + Ascii("Upgrade: websocket") + CRLF + Ascii("Connection: Upgrade") + CRLF
    requires t2 == t1 + (Ascii("Sec-WebSocket-Key: ") + CStr(key)) + CRLF + Ascii("Sec-WebSocket-Version: 13") + CRLF
    requires t3 == t2 + (Ascii("Host: ") + CStr(host)) + (PortSuffix(port) + CRLF) + CRLF
    ensures t3 == t0 + HandshakeRequest(host, port, path, key)
  {
    Regroup(t0, t1, t2, t3, Ascii("GET "), CStr(path), Ascii(" HTTP/1.1"), Ascii("Upgrade: websocket"),
            Ascii("Connection: Upgrade"), Ascii("Sec-WebSocket-Key: "), CStr(key), Ascii("Sec-WebSocket-Version: 13"),
            Ascii("Host: "), CStr(host), PortSuffix(port), CRLF);
  }

  /** Appending the pieces one printf at a time appends the whole text. */
  lemma Regroup(t0: seq<bv8>, t1: seq<bv8>, t2: seq<bv8>, t3: seq<bv8>,
                x1: seq<bv8>, x2: seq<bv8>, x3: seq<bv8>, x4: seq<bv8>, x5: seq<bv8>, x6: seq<bv8>,
                x7: seq<bv8>, x8: seq<bv8>, x9: seq<bv8>, x10: seq<bv8>, x11: seq<bv8>, c: seq<bv8>)
    requires t1 == t0 + x1 + x2 + x3 + c + x4 + c + x5 + c
    requires t2 == t1 + (x6 + x7) + c + x8 + c
    requires t3 == t2 + (x9 + x10) + (x11 + c) + c
    ensures t3 == t0 + (x1 + x2 + x3 + c + x4 + c + x5 + c + (x6 + x7) + c + x8 + c + (x9 + x10 + x11) + c + c)
  {
  }

  // ---------------------------------------------------------------------
  // The client object
  // ---------------------------------------------------------------------

  /**
   * A struct uwsc_client: the fields src/uwsc.c updates in place, and its
   * entry points as methods. `Snap` reads the fields as a `Conn`, and each
   * method is proved to leave the value its function above computes.
   */
  class Client {
    var phase: Phase
    var error: int
    var eof: bool
    var rx: seq<bv8>
    var consumed: nat
    var tx: seq<bv8>
    var opcode: bv8
    var payload: seq<bv8>
    var fragmented: bool
    var waitPingResp: bool
    var pingInterval: int
    var timer: Timer
    var events: seq<Event>

    function Snap(): Conn
      reads this
    {
      Conn(phase, error, eof, rx, consumed, tx, opcode, payload, fragmented,
           waitPingResp, pingInterval, timer, events)
    }

    predicate Valid()
      reads this
    {
      Ok(Snap())
    }

    /** The client calloc leaves: every field zero, in the handshake state. */
    constructor ()
      ensures Valid() && Snap() == INITIAL
    {
      phase, error, eof := Phase.Handshake, 0, false;
      rx, consumed, tx := [], 0, [];
      opcode, payload, fragmented := 0, [], false;
      waitPingResp, pingInterval, timer, events := false, 0, Disarmed, [];
    }

    /** The stream buffers bytes received from the server. */
    method Receive(more: seq<bv8>)
      requires Valid()
      modifies this
      ensures Valid() && Snap() == Arrive(old(Snap()), more)
    {
      rx := rx + more;
    }

    /**
     * The header and the masked payload, as uwsc_send writes them: the
     * header is built in a 14-byte buffer, and the first `len` bytes of
     * `data` are masked in place before they are written.
     */
    method WriteFrame(data: array<bv8>, len: int, op: bv8, key: MaskKey)
      requires 0 <= len <= data.Length && len <= INT_MAX - 14
      modifies this, data
      ensures data[..len] == Mask(old(data[..len]), key) && data[len..] == old(data[len..])
      ensures Snap() == old(Snap()).(tx := old(tx) + ClientFrame(op, old(data[..len]), key))
    {
      ghost var plain := data[..len];
      var head, headSize := BuildHeader(op, len, key);
      MaskInPlace(data, len, key);
      tx := tx + head[..headSize];
      tx := tx + data[..len];
      assert tx == old(tx) + (EncodeHeader(op, len, key) + Mask(plain, key));
    }

    /** The header of uwsc_send, built byte by byte in a 14-byte buffer. */
    static method BuildHeader(op: bv8, len: int, key: MaskKey) returns (head: array<bv8>, headSize: nat)
      requires 0 <= len <= INT_MAX - 14
      ensures fresh(head) && head.Length == 14 && headSize <= 14
      ensures head[..headSize] == EncodeHeader(op, len, key)
    {
      head := new bv8[14];
      if len < 126 {
        ShortHeader(head, op, len, key);
        headSize := 6;
      } else if len < 0x1_0000 {
        MediumHeader(head, op, len, key);
        headSize := 8;
      } else {
        LongHeader(head, op, len, key);
        headSize := 14;
      }
    }

    /** The header bytes uwsc_send writes for a payload shorter than 126 bytes. */
    static method ShortHeader(head: array<bv8>, op: bv8, len: int, key: MaskKey)
      requires head.Length == 14 && 0 <= len < 126
      modifies head
      ensures head[..6] == EncodeHeader(op, len, key)
    {
      head[0] := 0x80 | op;
      head[1] := 0x80 | (len as bv8);
      assert head[..2] == [0x80 | op, 0x80 | (len as bv8)];
      PutKey(head, 2, key);
    }

    /** The header bytes uwsc_send writes for a payload of 126 to 65535 bytes. */
    static method MediumHeader(head: array<bv8>, op: bv8, len: int, key: MaskKey)
      requires head.Length == 14 && 126 <= len < 0x1_0000
      modifies head
      ensures head[..8] == EncodeHeader(op, len, key)
    {
      head[0] := 0x80 | op;
      head[1] := 0x80 | 126;
      head[2] := ((len / 0x100) % 0x100) as bv8;
      head[3] := (len % 0x100) as bv8;
      assert head[..4] == [0x80 | op, 0x80 | 126, ((len / 256) % 256) as bv8, (len % 256) as bv8];
      PutKey(head, 4, key);
    }

    /** The header bytes uwsc_send writes for a payload of 65536 bytes or more. */
    static method LongHeader(head: array<bv8>, op: bv8, len: int, key: MaskKey)
      requires head.Length == 14 && 0x1_0000 <= len <= INT_MAX - 14
      modifies head
      ensures head[..14] == EncodeHeader(op, len, key)
    {
      head[0] := 0x80 | op;
      head[1] := 0x80 | 127;
      head[2], head[3], head[4], head[5] := 0, 0, 0, 0;
      assert head[..6] == [0x80 | op, 0x80 | 127, 0, 0, 0, 0];
      PutNet32(head, 6, len);
      PutKey(head, 10, key);
    }

    /** The four low bytes of `len`, most significant first, stored at `at`. */
    static method PutNet32(head: array<bv8>, at: nat, len: int)
      requires at + 4 <= head.Length && 0 <= len < 0x1_0000_0000
      modifies head
      ensures head[..at + 4] == old(head[..at]) + NetworkBytes4(len)
    {
      head[at] := ((len / 0x100_0000) % 0x100) as bv8;
      head[at + 1] := ((len / 0x1_0000) % 0x100) as bv8;
      head[at + 2] := ((len / 0x100) % 0x100) as bv8;
      head[at + 3] := (len % 0x100) as bv8;
      assert head[at..at + 4] == NetworkBytes4(len);
      ghost var whole, parts := head[..at + 4], head[..at] + head[at..at + 4];
      forall k | 0 <= k < at + 4
        ensures whole[k] == parts[k]
      {
        if k < at {
          assert parts[k] == head[..at][k] == head[k];
        } else {
          assert parts[k] == head[at..at + 4][k - at] == head[k];
        }
      }
      assert whole == parts;
    }

    /** The memcpy of the masking key to position `at` of the header buffer. */
    static method PutKey(head: array<bv8>, at: nat, key: MaskKey)
      requires at + 4 <= head.Length
      modifies head
      ensures head[..at + 4] == old(head[..at]) + key
    {
      head[at], head[at + 1], head[at + 2], head[at + 3] := key[0], key[1], key[2], key[3];
      forall k | 0 <= k < at + 4
        ensures head[..at + 4][k] == (old(head[..at]) + key)[k]
      {
      }
    }

    /** The masking loop of uwsc_send: byte i of the payload XORed with key[i % 4], in place. */
    static method MaskInPlace(data: array<bv8>, len: int, key: MaskKey)
      requires 0 <= len <= data.Length
      modifies data
      ensures data[..len] == Mask(old(data[..len]), key) && data[len..] == old(data[len..])
    {
      var i := 0;
      while i < len
        invariant 0 <= i <= len
        invariant forall k :: 0 <= k < i ==> data[k] == old(data[k]) ^ key[k % 4]
        invariant forall k :: i <= k < data.Length ==> data[k] == old(data[k])
      {
        data[i] := data[i] ^ key[i % 4];
        i := i + 1;
      }
    }

    /**
     * uwsc_send: a payload longer than INT_MAX - 14 bytes is refused with
     * -1; otherwise the frame is written, the payload masked in place, and
     * a CLOSE frame also ends the connection with error 0.
     */
    method Send(data: array<bv8>, len: int, op: bv8, key: MaskKey) returns (r: int)
      requires 0 <= len <= data.Length
      modifies this, data
      ensures len > INT_MAX - 14 ==> r == -1 && Snap() == old(Snap()) && data[..] == old(data[..])
      ensures len <= INT_MAX - 14 ==>
        && r == 0
        && data[..len] == Mask(old(data[..len]), key) && data[len..] == old(data[len..])
        && Snap() == Sent(old(Snap()), old(data[..len]), op, key)
    {
      if len > INT_MAX - 14 {
        return -1;
      }
      WriteFrame(data, len, op, key);
      if op == OP_CLOSE {
        eof := true;
        error := 0;
      }
      return 0;
    }

    /**
     * uwsc_error, with the recursion through uwsc_send cut: the stream is
     * marked eof, the error recorded, and one CLOSE frame written.
     */
    method Error(e: int, key: MaskKey)
      modifies this
      ensures Snap() == Closed(old(Snap()), e, key)
    {
      eof := true;
      error := e;
      var none := new bv8[0];
      WriteFrame(none, 0, OP_CLOSE, key);
    }
  
    /**
     * dispach_message: onmessage for data frames; a PING is answered by
     * uwsc_send with the frame's payload (a copy here, which uwsc_send
     * masks); a PONG clears the wait and re-arms the timer; a CLOSE goes
     * through uwsc_error with error 0.
     */
    method Dispatch(key: MaskKey)
      modifies this
      ensures Snap() == Dispatched(old(Snap()), key)
      ensures rx == old(rx) && consumed == old(consumed)
    {
      DispatchKeepsInput(Snap(), key);
      if opcode == OP_TEXT || opcode == OP_BINARY {
        events := events + [Delivered(payload, opcode)];
      } else if opcode == OP_PING {
        var p := payload;
        var data := new bv8[|p|](i requires 0 <= i < |p| => p[i]);
        assert data[..|p|] == p;
        var _ := Send(data, |p|, OP_PONG, key);
      } else if opcode == OP_PONG {
        waitPingResp := false;
        timer := Armed(pingInterval * 1000);
      } else if opcode == OP_CLOSE {
        Error(0, key);
      }
    }

    /**
     * parse_frame on the unread bytes: returns false while the frame is
     * incomplete, refuses a masked frame through uwsc_error, and otherwise
     * assembles the payload, dispatches a final frame and consumes the
     * frame.
     */
    method ParseFrame(key: MaskKey) returns (ok: bool)
      requires Valid()
      modifies this
      ensures Valid() && (Snap(), ok) == FrameStep(old(Snap()), key)
    {
      var data := rx[consumed..];
      var f := ReadFrameHead(data);
      if f.Incomplete? {
        return false;
      }
      if f.Masked? {
        Error(ERROR_SERVER_MASKED, key);
        return false;
      }
      DecodedFrameShape(data);
      TakeFrame(f, data, key);
      ok := true;
    }

    /**
     * The second half of parse_frame, once a whole frame `f` is at the head
     * of `data`: the payload is assembled, a final frame dispatched, and
     * the frame consumed.
     */
    method TakeFrame(f: Decoded, data: seq<bv8>, key: MaskKey)
      requires Valid() && f.Frame? && f.headerLen + f.payloadLen <= |data| == |rx| - consumed
      modifies this
      ensures Valid() && (Snap(), true) == Framed(old(Snap()), f, data, key)
    {
      ghost var c0 := Snap();
      var p := data[f.headerLen..f.headerLen + f.payloadLen];
      Assemble(f.fin, f.opcode, p);
      if f.fin {
        Dispatch(key);
        fragmented := false;
      }
      assert Snap() == Taken(c0, f.fin, f.opcode, p, key);
      consumed := consumed + f.headerLen + f.payloadLen;
    }

    /** The fragment handling of parse_frame: take a first frame's opcode and payload, or append a continuation. */
    method Assemble(fin: bool, op: bv8, p: seq<bv8>)
      requires Valid()
      modifies this
      ensures Valid() && Snap() == Assembled(old(Snap()), fin, op, p)
    {
      if fragmented {
        payload := payload + p;
      } else {
        opcode := op;
        payload := p;
        if !fin {
          fragmented := true;
        }
      }
    }

    /**
     * The header checks of parse_frame: fewer than two bytes, a set mask
     * bit, a 16-bit or 64-bit length not yet received, or a payload not yet
     * wholly received; otherwise the FIN bit, opcode and lengths.
     */
    static method ReadFrameHead(data: seq<bv8>) returns (f: Decoded)
      ensures f == DecodeFrame(data)
    {
      if |data| < 2 {
        return Incomplete;
      }
      var fin := data[0] & 0x80 != 0;
      var op := data[0] & 0x0F;
      if data[1] & 0x80 != 0 {
        return Masked;
      }
      var code := data[1] & 0x7F;
      var payloadLen: nat;
      var headerLen: nat;
      if code == 126 {
        if |data| < 4 {
          return Incomplete;
        }
        payloadLen, headerLen := Net16(data[2..4]), 4;
      } else if code == 127 {
        if |data| < 10 {
          return Incomplete;
        }
        payloadLen, headerLen := Net32(data[2..6]) * 0x1_0000_0000 + Net32(data[6..10]), 10;
      } else {
        payloadLen, headerLen := code as nat, 2;
      }
      assert LengthField(data) == Some((headerLen, payloadLen));
      if |data| < headerLen + payloadLen {
        return Incomplete;
      }
      return Frame(fin, op, headerLen, payloadLen);
    }
  
    /**
     * The end of the handshake branch of __uwsc_notify_read, once the
     * response is judged `v`: return while the blank line is missing,
     * record error 2 for a bad response, or consume a good one through the
     * blank line, call onopen and enter the message state.
     */
    method Respond(v: Verdict) returns (o: Outcome)
      requires Valid() && (v.Accepted? ==> 0 < v.consumed <= |rx| - consumed)
      modifies this
      ensures Valid() && (Snap(), o) == HandshakeStep(old(Snap()), v)
    {
      if v.NoTerminator? {
        return Return;
      }
      if v.Invalid? {
        error := ERROR_INVALID_HEADER;
        return Break;
      }
      consumed := consumed + v.consumed;
      events := events + [Opened];
      phase := Message;
      return Continue;
    }

    /**
     * The buffer read as a C string: without a blank line the branch
     * waits; otherwise the head is cut after the CRLF that starts the blank
     * line and judged, to be consumed through the blank line.
     */
    static method JudgeResponse(unread: seq<bv8>) returns (v: Verdict)
      ensures v == ResponseVerdict(unread)
      ensures v.Accepted? ==> 4 <= v.consumed <= |unread|
    {
      var data := CStr(unread);
      var p := Find(data, BLANK_LINE);
      if p.None? {
        return NoTerminator;
      }
      v := CheckHead(data[..p.value + 2], p.value + 4);
    }

    /**
     * The checks of the handshake branch on the head `t`, cut after the
     * CRLF that starts the blank line: version, status code and summary
     * taken apart with strtok, then parse_header on the rest. Accepted
     * heads are to be consumed `n` bytes long.
     */
    static method CheckHead(t: seq<bv8>, n: nat) returns (v: Verdict)
      ensures v == HeadVerdict(t, n)
      ensures v == Invalid || v == Accepted(n)
    {
      var version := StrTok(t, 0, SP);
      var status := StrTok(t, version.1, SP);
      var summary := StrTok(t, status.1, CRLF);
      if version.0 != Some(HTTP11) {
        return Invalid;
      }
      if status.0.None? || Atoi(status.0.value) != 101 {
        return Invalid;
      }
      if summary.0.None? {
        return Invalid;
      }
      var r := ParseHeader(t, summary.1);
      if r != 0 {
        return Invalid;
      }
      return Accepted(n);
    }

    /**
     * __uwsc_notify_read: the do-while loop over the buffered bytes, one
     * handshake response or one frame per pass, while no error is recorded;
     * a loop left with an error ends in uwsc_error.
     */
    method NotifyRead(key: MaskKey)
      requires Valid()
      modifies this
      ensures Valid() && Snap() == ReadLoop(old(Snap()), key)
    {
      ghost var c0 := Snap();
      while true
        invariant Valid() && rx == c0.rx
        invariant ReadLoop(Snap(), key) == ReadLoop(c0, key)
        decreases |rx| - consumed
      {
        ghost var before := Snap();
        if consumed == |rx| {
          return;
        }
        var o: Outcome;
        if phase.Handshake? {
          var v := JudgeResponse(rx[consumed..]);
          o := Respond(v);
        } else {
          var ok := ParseFrame(key);
          o := if ok then Continue else Break;
        }
        assert (Snap(), o) == ReadStep(before, key);
        if o.Return? {
          return;
        }
        if o.Break? || error != 0 {
          break;
        }
      }
      if error != 0 {
        Error(error, key);
      }
    }

    /**
     * uwsc_handshake: the opening request, printf by printf; the
     * Sec-WebSocket-Key is the base64 text of a random nonce, given here.
     */
    method Handshake(host: seq<bv8>, port: int, path: seq<bv8>, wsKey: seq<bv8>)
      modifies this
      ensures Snap() == old(Snap()).(tx := old(tx) + HandshakeRequest(host, port, path, wsKey))
    {
      tx := WriteRequest(tx, host, port, path, wsKey);
    }

    /** The ustream_printf calls of uwsc_handshake, each appending to the output stream `t0`. */
    static method WriteRequest(t0: seq<bv8>, host: seq<bv8>, port: int, path: seq<bv8>, wsKey: seq<bv8>)
      returns (t: seq<bv8>)
      ensures t == t0 + HandshakeRequest(host, port, path, wsKey)
    {
      t := t0 + Ascii("GET ") + CStr(path) + Ascii(" HTTP/1.1") + CRLF;
      t := t + Ascii("Upgrade: websocket") + CRLF;
      t := t + Ascii("Connection: Upgrade") + CRLF;
      ghost var t1 := t;
      t := t + (Ascii("Sec-WebSocket-Key: ") + CStr(wsKey)) + CRLF;
      t := t + Ascii("Sec-WebSocket-Version: 13") + CRLF;
      ghost var t2 := t;
      t := t + (Ascii("Host: ") + CStr(host));
      if port == 80 {
        t := t + CRLF;
      } else {
        t := t + ([COLON] + Decimal(port) + CRLF);
      }
      t := t + CRLF;
      RequestWrites(t0, t1, t2, t, host, port, path, wsKey);
    }

    /** uwsc_ping: an empty PING frame. */
    method Ping(key: MaskKey)
      modifies this
      ensures Snap() == Sent(old(Snap()), [], OP_PING, key)
    {
      var none := new bv8[0];
      var _ := Send(none, 0, OP_PING, key);
    }

    /**
     * uwsc_ping_cb: the timer fired. If the previous PING is unanswered,
     * an empty CLOSE frame is sent; otherwise a PING is sent and the timer
     * armed for one second.
     */
    method PingCb(key: MaskKey)
      modifies this
      ensures Snap() == PingFired(old(Snap()), key)
    {
      timer := Disarmed;
      if waitPingResp {
        var none := new bv8[0];
        var _ := Send(none, 0, OP_CLOSE, key);
        return;
      }
      Ping(key);
      waitPingResp := true;
      timer := Armed(1 * 1000);
    }

    /** uwsc_set_ping_interval: record the interval, cancel the timer, re-arm it when positive. */
    method SetPingInterval(interval: int)
      modifies this
      ensures Snap() == PingIntervalSet(old(Snap()), interval)
    {
      pingInterval := interval;
      timer := Disarmed;
      if interval > 0 {
        timer := Armed(interval * 1000);
      }
    }
  }
}
