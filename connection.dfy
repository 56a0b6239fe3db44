/**
 * The per-connection data handler of handleSocket (src/index.js): every
 * chunk that arrives is appended to the connection's buffer and the
 * handshake is parsed again from the start of everything received. A
 * handshake still incomplete waits for more data; an illegal one destroys
 * the socket; a login request (next state 2) is answered with the kick
 * packet and the socket is ended; any other with the status packet and
 * the pong packet. After the answer, or once the socket is no longer
 * open, further data is ignored.
 *
 * The socket is observed through its ready state, the packets written to
 * it and the reason it was destroyed for. The reply packets are built once
 * for the whole server and do not depend on the handshake.
 */
module Connection {
  import opened Int32
  import opened Bytes
  import opened VarInt
  import opened ByteBufs
  import opened Handshakes
  import opened Packets

  /** Node's `socket.readyState`. */
  datatype ReadyState = Opening | Open | ReadOnly | WriteOnly | Closed

  /** The errors the server destroys a socket with. */
  datatype Reason = IllegalHandshake | Timeout

  /** The reply packets: the kick message, the server list status, the pong. */
  datatype Replies = Replies(kick: seq<byte>, status: seq<byte>, pong: seq<byte>)

  /**
   * Everything a connection's handler can observe or change: the bytes
   * received and the buffer's cursor, whether it answered, and the socket.
   */
  datatype State = State(received: seq<byte>, offset: nat, answered: bool, ready: ReadyState,
                         sent: seq<seq<byte>>, destroyed: Option<Reason>)

  /** A connection just accepted. */
  function Initial(): State
  {
    State([], 0, false, Open, [], None)
  }

  // ---------------------------------------------------------------------
  // The socket operations the handler uses

  /** `socket.write(p)`. */
  function Write(st: State, p: seq<byte>): (r: State)
    ensures r.sent == st.sent + [p] && r == st.(sent := r.sent)
  {
    st.(sent := st.sent + [p])
  }

  /** `socket.end(p)`: write `p`, then close the writable side. */
  function End(st: State, p: seq<byte>): (r: State)
    ensures r.sent == st.sent + [p]
    ensures st.ready == Open ==> r.ready == ReadOnly
  {
    var ready := match st.ready
      case Open => ReadOnly
      case WriteOnly => Closed
      case other => other;
    st.(sent := st.sent + [p], ready := ready)
  }

  /** `socket.destroy(err)`: close both sides; a socket already destroyed stays as it was. */
  function Destroy(st: State, reason: Reason): (r: State)
    ensures r.sent == st.sent && r.answered == st.answered && r.received == st.received
    ensures st.destroyed.None? ==> r.ready == Closed && r.destroyed == Some(reason)
  {
    if st.destroyed.Some? then st else st.(ready := Closed, destroyed := Some(reason))
  }

  // ---------------------------------------------------------------------
  // The handler

  /** The packets answering a handshake: the kick for a login request, status and pong otherwise. */
  function Reply(h: Handshake, replies: Replies): seq<seq<byte>>
  {
    if h.state == 2 then [replies.kick] else [replies.status, replies.pong]
  }

  /**
   * The `data` handler on one chunk. It sends only when it answers, and
   * then one or two packets; on an open, unanswered socket it keeps every
   * byte received.
   */
  function OnData(st: State, chunk: seq<byte>, replies: Replies): (r: State)
    ensures r.sent == st.sent || (!st.answered && r.answered && st.sent < r.sent && |r.sent| <= |st.sent| + 2)
    ensures st.ready == Open && !st.answered ==> r.received == st.received + chunk
    ensures st.answered ==> r.answered
  {
    if st.ready != Open || st.answered then st
    else
      var received := st.received + chunk;
      var (hs, end) := DecodeHandshake(received, 0);
      var parsed := st.(received := received, offset := end);
      match hs
      case Incomplete => parsed
      case Fail => Destroy(parsed, IllegalHandshake)
      case Ok(h) =>
        var answered := parsed.(answered := true);
        if h.state == 2 then End(answered, replies.kick)
        else End(Write(answered, replies.status), replies.pong)
  }

  /** The handshake timer firing: the socket is destroyed with a timeout, without a packet. */
  function OnTimeout(st: State): (r: State)
    ensures r.sent == st.sent && r.answered == st.answered && r.destroyed.Some?
    ensures st.destroyed.None? ==> r.ready == Closed && r.destroyed == Some(Timeout)
  {
    Destroy(st, Timeout)
  }

  datatype Event = Data(chunk: seq<byte>) | TimerFired

  function Step(st: State, e: Event, replies: Replies): State
  {
    match e
    case Data(chunk) => OnData(st, chunk, replies)
    case TimerFired => OnTimeout(st)
  }

  /** A connection's state after a sequence of events: packets, once sent, stay sent. */
  function Run(st: State, events: seq<Event>, replies: Replies): (r: State)
    ensures st.sent <= r.sent
    ensures st.answered ==> r.answered
    decreases |events|
  {
    if |events| == 0 then st else Run(Step(st, events[0], replies), events[1..], replies)
  }

  // ---------------------------------------------------------------------
  // What the handler does, case by case

  /** Data that arrives once the handler answered, or once the socket is not open, changes nothing. */
  lemma IgnoredAfterwards(st: State, chunk: seq<byte>, replies: Replies)
    requires st.answered || st.ready != Open
    ensures OnData(st, chunk, replies) == st
  {
  }

  /**
   * While the handshake is incomplete nothing is sent and the socket stays
   * open; the bytes are kept for the next parse, which starts from the
   * first byte received.
   */
  lemma WaitsWhileIncomplete(st: State, chunk: seq<byte>, replies: Replies)
    requires st.ready == Open && !st.answered
    requires DecodeHandshake(st.received + chunk, 0).0.Incomplete?
    ensures var r := OnData(st, chunk, replies);
      r.sent == st.sent && r.ready == Open && !r.answered && r.received == st.received + chunk
  {
  }

  /** An illegal handshake destroys the socket without a packet. */
  lemma IllegalDestroys(st: State, chunk: seq<byte>, replies: Replies)
    requires st.ready == Open && !st.answered && st.destroyed.None?
    requires DecodeHandshake(st.received + chunk, 0).0.Fail?
    ensures var r := OnData(st, chunk, replies);
      r.sent == st.sent && r.ready == Closed && r.destroyed == Some(IllegalHandshake) && !r.answered
  {
  }

  /**
   * A handshake that parses is answered: a login request with exactly the
   * kick packet, anything else with the status packet and then the pong
   * packet; the writable side is closed after the last one.
   */
  lemma AnswersHandshake(st: State, chunk: seq<byte>, replies: Replies)
    requires st.ready == Open && !st.answered
    requires DecodeHandshake(st.received + chunk, 0).0.Ok?
    ensures var h := DecodeHandshake(st.received + chunk, 0).0.value;
      var r := OnData(st, chunk, replies);
      && r.sent == st.sent + Reply(h, replies)
      && (h.state == 2 ==> r.sent == st.sent + [replies.kick])
      && (h.state != 2 ==> r.sent == st.sent + [replies.status, replies.pong])
      && r.answered && r.ready == ReadOnly && r.destroyed == st.destroyed
  {
  }

  /**
   * A client that sends a whole handshake, in one chunk or in the last of
   * several, gets the reply its next state asks for.
   */
  lemma AnswersClient(st: State, chunk: seq<byte>, replies: Replies, h: Handshake)
    requires st.ready == Open && !st.answered && Sendable(h)
    requires |Frame(h)| <= |st.received + chunk| && (st.received + chunk)[..|Frame(h)|] == Frame(h)
    ensures var r := OnData(st, chunk, replies);
      r.sent == st.sent + Reply(h, replies) && r.answered && r.ready == ReadOnly
  {
    FrameRoundTrip(st.received + chunk, 0, h);
    AnswersHandshake(st, chunk, replies);
  }

  /**
   * A client whose first chunk holds only the one-byte length of its
   * handshake is disconnected at once, before the rest can arrive.
   */
  lemma LengthAloneDestroys(chunk: seq<byte>, replies: Replies)
    requires |chunk| == 1 && 0 <= chunk[0] < 0x80
    ensures var r := OnData(Initial(), chunk, replies);
      r.sent == [] && r.ready == Closed && r.destroyed == Some(IllegalHandshake)
  {
    DecodeOutcome(chunk, 0, 2, true);
    EndsAfterPrefixRejected(chunk, 0);
  }

  // ---------------------------------------------------------------------
  // Over a whole connection: at most one reply, and the right one

  /**
   * What holds of a connection between events: nothing is sent before the
   * answer; once answered, exactly the reply to the handshake the bytes
   * received parse to has been sent and the socket is no longer open; an
   * open, unanswered socket has received only an incomplete handshake; a
   * destroyed socket is closed.
   */
  ghost predicate Consistent(st: State, replies: Replies): (b: bool)
    ensures b ==> |st.sent| <= 2 && (st.sent != [] <==> st.answered)
  {
    && (!st.answered ==> st.sent == [])
    && (st.answered ==>
          var hs := DecodeHandshake(st.received, 0).0;
          hs.Ok? && st.sent == Reply(hs.value, replies) && st.ready != Open)
    && (st.ready == Open ==> !st.answered && st.destroyed.None? && DecodeHandshake(st.received, 0).0.Incomplete?)
    && (st.destroyed.Some? ==> st.ready == Closed)
  }

  lemma InitialConsistent(replies: Replies)
    ensures Consistent(Initial(), replies)
  {
    IncompleteOnlyInPrefix([], 0);
  }

  lemma StepConsistent(st: State, e: Event, replies: Replies)
    requires Consistent(st, replies)
    ensures Consistent(Step(st, e, replies), replies)
  {
    if e.Data? && st.ready == Open && !st.answered {
      var received := st.received + e.chunk;
      var hs := DecodeHandshake(received, 0).0;
      if hs.Ok? {
        AnswersHandshake(st, e.chunk, replies);
      }
    }
  }

  lemma {:induction false} RunConsistent(st: State, events: seq<Event>, replies: Replies)
    requires Consistent(st, replies)
    ensures Consistent(Run(st, events, replies), replies)
    decreases |events|
  {
    if |events| > 0 {
      StepConsistent(st, events[0], replies);
      RunConsistent(Step(st, events[0], replies), events[1..], replies);
    }
  }

  /**
   * Whatever a client sends and whenever the timer fires, the server
   * sends nothing, or exactly the reply to the handshake it parsed: the
   * kick packet alone, or the status packet followed by the pong packet.
   */
  lemma AtMostOneReply(events: seq<Event>, replies: Replies)
    ensures var r := Run(Initial(), events, replies);
      && (r.sent == [] || r.sent == [replies.kick] || r.sent == [replies.status, replies.pong])
      && (r.sent != [] <==> r.answered)
  {
    InitialConsistent(replies);
    RunConsistent(Initial(), events, replies);
  }

  /** Once answered, a connection sends nothing more, whatever follows. */
  lemma {:induction false} ReplyIsFinal(st: State, events: seq<Event>, replies: Replies)
    requires st.answered
    ensures Run(st, events, replies).sent == st.sent
    decreases |events|
  {
    if |events| > 0 {
      RunKeepsAnswered(st, events[0], replies);
      ReplyIsFinal(Step(st, events[0], replies), events[1..], replies);
    }
  }

  lemma RunKeepsAnswered(st: State, e: Event, replies: Replies)
    requires st.answered
    ensures Step(st, e, replies).answered && Step(st, e, replies).sent == st.sent
  {
  }

  // ---------------------------------------------------------------------
  // The handler as the source runs it: a closure over a buffer and a flag

  /** The reply packets, built once when the server starts. */
  method MakeReplies(kickJson: seq<byte>, statusJson: seq<byte>) returns (r: Replies)
    ensures r == Replies(StringPacket(0, kickJson), StringPacket(0, statusJson), Pong())
  {
    var kick := WriteStringPacket(0, kickJson);
    var status := WriteStringPacket(0, statusJson);
    var pong := BuildPong();
    r := Replies(kick, status, pong);
  }

  class Handler {
    const buf: ByteBuf
    const replies: Replies
    var answered: bool
    var ready: ReadyState
    var sent: seq<seq<byte>>
    var destroyed: Option<Reason>

    ghost predicate Valid()
      reads this, buf
    {
      buf.Valid()
    }

    /** The handler's state as the model observes it. */
    function Observed(): State
      reads this, buf
    {
      State(buf.data, buf.offset, answered, ready, sent, destroyed)
    }

    constructor(replies: Replies)
      ensures Valid() && fresh(buf) && Observed() == Initial() && this.replies == replies
    {
      buf := new ByteBuf();
      this.replies := replies;
      answered := false;
      ready := Open;
      sent := [];
      destroyed := None;
    }

    method SocketWrite(p: seq<byte>)
      modifies this
      ensures Observed() == Write(old(Observed()), p)
    {
      sent := sent + [p];
    }

    method SocketEnd(p: seq<byte>)
      modifies this
      ensures Observed() == End(old(Observed()), p)
    {
      sent := sent + [p];
      match ready
      case Open => ready := ReadOnly;
      case WriteOnly => ready := Closed;
      case _ =>
    }

    method SocketDestroy(reason: Reason)
      modifies this
      ensures Observed() == Destroy(old(Observed()), reason)
    {
      if destroyed.None? {
        ready := Closed;
        destroyed := Some(reason);
      }
    }

    /** The `data` event handler. */
    method HandleData(chunk: seq<byte>)
      requires Valid()
      modifies this, buf
      ensures Valid() && Observed() == OnData(old(Observed()), chunk, replies)
      ensures Consistent(old(Observed()), replies) ==> Consistent(Observed(), replies)
    {
      if Consistent(Observed(), replies) {
        StepConsistent(Observed(), Data(chunk), replies);
      }
      if ready != Open {
        return;
      }
      if answered {
        return;
      }
      buf.Append(Some(chunk));
      buf.ResetOffset();
      var hs := ReadHandshake(buf);
      match hs
      case Incomplete =>
      case Fail =>
        SocketDestroy(IllegalHandshake);
      case Ok(h) =>
        answered := true;
        if h.state == 2 {
          SocketEnd(replies.kick);
        } else {
          SocketWrite(replies.status);
          SocketEnd(replies.pong);
        }
    }

    /** The handshake timer. */
    method HandleTimeout()
      modifies this
      ensures Observed() == OnTimeout(old(Observed()))
      ensures Consistent(old(Observed()), replies) ==> Consistent(Observed(), replies)
    {
      if Consistent(Observed(), replies) {
        StepConsistent(Observed(), TimerFired, replies);
      }
      SocketDestroy(Timeout);
    }
  }
}
