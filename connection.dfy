/**
 * The read loop of `handle_connection` in src/mllp.rs. The socket's reads are
 * given as a sequence, and what the loop sends for one extracted frame is the
 * parameter `respond` (instantiated with `MllpServer.HandleFrame`).
 */
module MllpConnection {
  import opened Wrappers
  import opened Utf8
  import opened Hl7
  import opened Mllp
  import opened MllpServer

  /**
   * One completed read of the socket: some bytes (none when the peer closed),
   * with the clock reading `now` at which a frame it completes is answered;
   * or an I/O failure.
   */
  datatype Read = Bytes(data: seq<byte>, now: string) | ReadFailed

  /** How a connection ends: closed by the peer, failed, or still waiting for data. */
  datatype Outcome = Closed | Failed(error: MllpError) | Waiting

  datatype ReadOutcome = Stopped(outcome: Outcome) | Continued(reply: Option<seq<byte>>)

  /** The bytes sent for a frame's payload at a clock reading, if any. */
  type Responder = (seq<byte>, string) -> Option<seq<byte>>

  /** The reply rule of `handle_connection` for a given handler. */
  function FrameResponder(handler: Message -> Result<Message, HL7Error>): Responder {
    (payload, now) => HandleFrame(payload, handler, now)
  }

  /**
   * One turn of the read loop: append the read to the buffer, take out at
   * most one frame, and answer it. The turn fails with the I/O error exactly
   * when the read failed, and with the oversize error exactly when the read
   * leaves no complete frame and more than `MAX_BUFFER_LEN` bytes after
   * trimming; no other failure occurs.
   */
  function Step(buffer: seq<byte>, read: Read, respond: Responder): (r: (ReadOutcome, seq<byte>))
    ensures r.0 == Stopped(Closed) <==> read.Bytes? && |read.data| == 0
    ensures r.0 == Stopped(Failed(IoError)) <==> read.ReadFailed?
    ensures r.0 == Stopped(Failed(InvalidFrame(OVERSIZE_DETAIL))) <==>
      && read.Bytes? && |read.data| > 0
      && !HasCompleteFrame(buffer + read.data) && |Trimmed(buffer + read.data)| > MAX_BUFFER_LEN
    ensures r.0.Stopped? && r.0.outcome.Failed? ==>
      r.0.outcome.error == IoError || r.0.outcome.error == InvalidFrame(OVERSIZE_DETAIL)
    ensures r.0.Continued? ==> read.Bytes? && |read.data| > 0
    ensures r.0.Continued? && read.Bytes? ==>
      var all := buffer + read.data;
      |r.1| <= |all| && r.1 == all[|all| - |r.1|..]
  {
    match read
    case ReadFailed => (Stopped(Failed(IoError)), buffer)
    case Bytes(d, now) =>
      if |d| == 0 then (Stopped(Closed), buffer)
      else
        ExtractCases(buffer + d);
        var x := Extract(buffer + d);
        match x.result
        case Err(e) => (Stopped(Failed(e)), x.rest)
        case Ok(None) => (Continued(None), x.rest)
        case Ok(Some(payload)) => (Continued(respond(payload, now)), x.rest)
  }

  /** A read is answered only when the buffer with the read appended holds a complete frame. */
  lemma StepAnswersFrames(buffer: seq<byte>, read: Read, respond: Responder)
    ensures var (o, _) := Step(buffer, read, respond);
      o.Continued? && o.reply.Some? ==> read.Bytes? && HasCompleteFrame(buffer + read.data)
  {
    if read.Bytes? && |read.data| > 0 {
      ExtractCases(buffer + read.data);
    }
  }

  datatype Session = Session(replies: seq<seq<byte>>, outcome: Outcome)

  function Prepend(reply: Option<seq<byte>>, s: Session): Session {
    Session((if reply.Some? then [reply.value] else []) + s.replies, s.outcome)
  }

  /** The replies a connection writes for the given reads, and how it ends. */
  function Serve(buffer: seq<byte>, chunks: seq<Read>, respond: Responder): (r: Session)
    ensures |r.replies| <= |chunks|
    ensures r.outcome.Failed? ==> r.outcome.error == IoError || r.outcome.error == InvalidFrame(OVERSIZE_DETAIL)
    ensures r.outcome == Failed(IoError) ==> ReadFailed in chunks
    decreases |chunks|
  {
    if chunks == [] then Session([], Waiting)
    else
      var (o, rest) := Step(buffer, chunks[0], respond);
      match o
      case Stopped(outcome) => Session([], outcome)
      case Continued(reply) => Prepend(reply, Serve(rest, chunks[1..], respond))
  }

  /** One turn of the loop of `handle_connection`, on the connection's buffer. */
  method HandleRead(readBuffer: ByteBuffer, read: Read, handler: Message -> Result<Message, HL7Error>)
    returns (r: ReadOutcome)
    modifies readBuffer
    ensures (r, readBuffer.data) == Step(old(readBuffer.data), read, FrameResponder(handler))
  {
    if read.ReadFailed? {
      return Stopped(Failed(IoError));
    }
    if |read.data| == 0 {
      return Stopped(Closed);
    }
    readBuffer.ExtendFromSlice(read.data);
    var extracted := ExtractMllpMessage(readBuffer);
    if extracted.Err? {
      return Stopped(Failed(extracted.error));
    }
    if extracted.value.None? {
      return Continued(None);
    }
    var messageStr := Utf8.Decode(extracted.value.value);
    if messageStr.None? {
      return Continued(None);
    }
    var text := messageStr.value;
    var now := read.now;
    var reply: string;
    match Parse(text) {
      case Ok(hl7Message) =>
        match handler(hl7Message) {
          case Ok(response) =>
            reply := GenerateResponse(response, now);
          case Err(e) =>
            reply := GenerateNack(text, e.ToString(), now);
        }
      case Err(e) =>
        reply := GenerateNack(text, e.ToString(), now);
    }
    var framed := WrapInMllp(reply);
    return Continued(Some(framed));
  }

  /** `handle_connection` over a finite sequence of reads, collecting what it writes. */
  method HandleConnection(chunks: seq<Read>, handler: Message -> Result<Message, HL7Error>)
    returns (written: seq<seq<byte>>, outcome: Outcome)
    ensures Session(written, outcome) == Serve([], chunks, FrameResponder(handler))
  {
    var respond := FrameResponder(handler);
    var readBuffer := new ByteBuffer([]);
    written := [];
    var k := 0;
    SessionStarts(chunks, respond);
    while k < |chunks|
      invariant 0 <= k <= |chunks|
      invariant SessionSoFar(chunks, k, respond, written, readBuffer.data)
      decreases |chunks| - k
    {
      ghost var before := readBuffer.data;
      var r := HandleRead(readBuffer, chunks[k], handler);
      if r.Stopped? {
        SessionStops(chunks, k, respond, written, before, r, readBuffer.data);
        return written, r.outcome;
      }
      SessionAdvances(chunks, k, respond, written, before, r, readBuffer.data);
      if r.reply.Some? {
        written := written + [r.reply.value];
      }
      k := k + 1;
    }
    SessionEnds(chunks, respond, written, readBuffer.data);
    return written, Waiting;
  }

  // Properties of the read loop.

  /** The first read decides the session: it stops it, or adds its reply in front of the rest. */
  lemma ServeUnfold(buffer: seq<byte>, chunks: seq<Read>, respond: Responder)
    requires |chunks| > 0
    ensures var (o, rest) := Step(buffer, chunks[0], respond);
      && (o.Stopped? ==> Serve(buffer, chunks, respond) == Session([], o.outcome))
      && (o.Continued? ==> Serve(buffer, chunks, respond) == Prepend(o.reply, Serve(rest, chunks[1..], respond)))
  {
  }

  /** What the loop of `HandleConnection` has written, and what the remaining reads will add. */
  ghost predicate SessionSoFar(chunks: seq<Read>, k: nat, respond: Responder, written: seq<seq<byte>>, buffer: seq<byte>)
    requires k <= |chunks|
  {
    var s := Serve(buffer, chunks[k..], respond);
    Serve([], chunks, respond) == Session(written + s.replies, s.outcome)
  }

  lemma SessionStarts(chunks: seq<Read>, respond: Responder)
    ensures SessionSoFar(chunks, 0, respond, [], [])
  {
    assert chunks[0..] == chunks;
    var s := Serve([], chunks, respond);
    assert [] + s.replies == s.replies;
  }

  lemma SessionEnds(chunks: seq<Read>, respond: Responder, written: seq<seq<byte>>, buffer: seq<byte>)
    requires SessionSoFar(chunks, |chunks|, respond, written, buffer)
    ensures Serve([], chunks, respond) == Session(written, Waiting)
  {
    assert chunks[|chunks|..] == [];
    assert written + [] == written;
  }

  lemma SessionStops(chunks: seq<Read>, k: nat, respond: Responder, written: seq<seq<byte>>,
                     before: seq<byte>, o: ReadOutcome, after: seq<byte>)
    requires k < |chunks| && SessionSoFar(chunks, k, respond, written, before)
    requires Step(before, chunks[k], respond) == (o, after) && o.Stopped?
    ensures Serve([], chunks, respond) == Session(written, o.outcome)
  {
    ServeAt(before, chunks, k, respond, o, after);
    assert written + [] == written;
  }

  lemma SessionAdvances(chunks: seq<Read>, k: nat, respond: Responder, written: seq<seq<byte>>,
                        before: seq<byte>, o: ReadOutcome, after: seq<byte>)
    requires k < |chunks| && SessionSoFar(chunks, k, respond, written, before)
    requires Step(before, chunks[k], respond) == (o, after) && o.Continued?
    ensures o.reply.Some? ==> SessionSoFar(chunks, k + 1, respond, written + [o.reply.value], after)
    ensures o.reply.None? ==> SessionSoFar(chunks, k + 1, respond, written, after)
  {
    ServeAt(before, chunks, k, respond, o, after);
    var s := Serve(after, chunks[k + 1..], respond);
    if o.reply.Some? {
      assert (written + [o.reply.value]) + s.replies == written + ([o.reply.value] + s.replies);
    } else {
      assert [] + s.replies == s.replies;
    }
  }

  /** The session from the `k`-th read on, once that read has been handled. */
  lemma ServeAt(buffer: seq<byte>, chunks: seq<Read>, k: nat, respond: Responder, o: ReadOutcome, rest: seq<byte>)
    requires k < |chunks| && Step(buffer, chunks[k], respond) == (o, rest)
    ensures o.Stopped? ==> Serve(buffer, chunks[k..], respond) == Session([], o.outcome)
    ensures o.Continued? ==> Serve(buffer, chunks[k..], respond) == Prepend(o.reply, Serve(rest, chunks[k + 1..], respond))
  {
    assert chunks[k..][0] == chunks[k] && chunks[k..][1..] == chunks[k + 1..];
    ServeUnfold(buffer, chunks[k..], respond);
  }

  /** A read that completes a frame answers its payload and keeps what follows. */
  lemma StepFrame(buffer: seq<byte>, d: seq<byte>, now: string, payload: seq<byte>, rest: seq<byte>, respond: Responder)
    requires |d| > 0 && Extract(buffer + d) == Extraction(Ok(Some(payload)), rest)
    ensures Step(buffer, Bytes(d, now), respond) == (Continued(respond(payload, now)), rest)
  {
  }

  /** A read's step depends only on what extraction finds in the buffer with the read appended. */
  lemma StepSameExtract(b1: seq<byte>, d1: seq<byte>, d2: seq<byte>, b2: seq<byte>, now: string, respond: Responder)
    requires |d1| > 0 && |d2| > 0 && Extract(b1 + d1) == Extract(b2 + d2)
    ensures Step(b1, Bytes(d1, now), respond) == Step(b2, Bytes(d2, now), respond)
  {
  }

  /** Two reads that leave the loop in the same state are followed by the same session. */
  lemma ServeSameStep(b1: seq<byte>, b2: seq<byte>, chunks1: seq<Read>, chunks2: seq<Read>, respond: Responder)
    requires |chunks1| > 0 && |chunks2| > 0 && chunks1[1..] == chunks2[1..]
    requires Step(b1, chunks1[0], respond) == Step(b2, chunks2[0], respond)
    ensures Serve(b1, chunks1, respond) == Serve(b2, chunks2, respond)
  {
    ServeUnfold(b1, chunks1, respond);
    ServeUnfold(b2, chunks2, respond);
  }

  /**
   * A client that sends one frame and closes gets exactly one answer, the
   * answer to the frame's payload (when the rule gives one).
   */
  lemma ServeOneFrame(payload: seq<byte>, now: string, later: string, respond: Responder)
    requires !HasEndMarker(payload)
    ensures Serve([], [Bytes(Frame(payload), now), Bytes([], later)], respond)
      == Prepend(respond(payload, now), Session([], Closed))
  {
    ExtractFrame(payload, []);
    assert [] + Frame(payload) == Frame(payload) + [];
    StepFrame([], Frame(payload), now, payload, [], respond);
    ServeFirstThenClose(Frame(payload), now, later, respond(payload, now), [], respond);
  }

  /**
   * The server end to end: a client that sends one framed message and closes
   * gets exactly one framed reply, the reply of the `Reply` rule.
   */
  lemma ServeOneMessage(text: string, handler: Message -> Result<Message, HL7Error>, now: string, later: string)
    requires FrameSafe(text)
    ensures Serve([], [Bytes(Frame(Utf8.Encode(text)), now), Bytes([], later)], FrameResponder(handler))
      == Session([Frame(Utf8.Encode(Reply(text, handler, now)))], Closed)
  {
    FrameSafeEncoding(text);
    ServeOneFrame(Utf8.Encode(text), now, later, FrameResponder(handler));
    assert HandleFrame(Utf8.Encode(text), handler, now) == Some(Frame(Utf8.Encode(Reply(text, handler, now))));
  }

  /**
   * Each read answers at most one frame: when one read delivers two frames,
   * only the first is answered, the second stays in the buffer, and a peer
   * that then closes never gets the second answer.
   */
  lemma {:induction false} OneFramePerRead(p: seq<byte>, q: seq<byte>, now: string, later: string, respond: Responder)
    requires !HasEndMarker(p) && !HasEndMarker(q)
    ensures var both := Frame(p) + Frame(q);
      && Step([], Bytes(both, now), respond) == (Continued(respond(p, now)), Frame(q))
      && Serve([], [Bytes(both, now), Bytes([], later)], respond) == Prepend(respond(p, now), Session([], Closed))
  {
    var both := Frame(p) + Frame(q);
    StepTwoFrames(p, q, now, respond);
    ServeFirstThenClose(both, now, later, respond(p, now), Frame(q), respond);
  }

  lemma StepTwoFrames(p: seq<byte>, q: seq<byte>, now: string, respond: Responder)
    requires !HasEndMarker(p) && !HasEndMarker(q)
    ensures Step([], Bytes(Frame(p) + Frame(q), now), respond) == (Continued(respond(p, now)), Frame(q))
  {
    var both := Frame(p) + Frame(q);
    ExtractFrame(p, Frame(q));
    assert [] + both == both;
    StepFrame([], both, now, p, Frame(q), respond);
  }

  /** A read answered with `reply`, followed by the peer closing. */
  lemma ServeFirstThenClose(d: seq<byte>, now: string, later: string, reply: Option<seq<byte>>, rest: seq<byte>, respond: Responder)
    requires Step([], Bytes(d, now), respond) == (Continued(reply), rest)
    ensures Serve([], [Bytes(d, now), Bytes([], later)], respond) == Prepend(reply, Session([], Closed))
  {
    var chunks := [Bytes(d, now), Bytes([], later)];
    ServeUnfold([], chunks, respond);
    assert chunks[1..] == [Bytes([], later)];
    ServeUnfold(rest, chunks[1..], respond);
  }

  /** A connection whose peer sends nothing and closes writes nothing. */
  lemma ServeSilent(now: string, respond: Responder)
    ensures Serve([], [Bytes([], now)], respond) == Session([], Closed)
  {
  }

  /**
   * Bytes split over two reads are answered as if they had arrived in one,
   * at the clock reading of the second read.
   */
  lemma ServeSplitRead(first: seq<byte>, t1: string, next: seq<byte>, t2: string, later: seq<Read>, respond: Responder)
    requires |first| > 0 && |next| > 0
    requires Extract(first).result == Ok(None)
    ensures Serve([], [Bytes(first, t1), Bytes(next, t2)] + later, respond)
      == Serve([], [Bytes(first + next, t2)] + later, respond)
  {
    var two := [Bytes(first, t1), Bytes(next, t2)] + later;
    var one := [Bytes(first + next, t2)] + later;
    FirstReadQuiet(first, t1, two, respond);
    SecondReadResumes(first, next, t2, two[1..], one, respond);
  }

  lemma FirstReadQuiet(first: seq<byte>, t1: string, chunks: seq<Read>, respond: Responder)
    requires |first| > 0 && Extract(first).result == Ok(None) && |chunks| > 0 && chunks[0] == Bytes(first, t1)
    ensures Serve([], chunks, respond) == Serve(Extract(first).rest, chunks[1..], respond)
  {
    assert [] + first == first;
    ServeUnfold([], chunks, respond);
    var s := Serve(Extract(first).rest, chunks[1..], respond);
    assert [] + s.replies == s.replies;
  }

  lemma SecondReadResumes(first: seq<byte>, next: seq<byte>, t2: string, chunks2: seq<Read>, chunks1: seq<Read>, respond: Responder)
    requires |next| > 0 && |first| > 0 && Extract(first).result == Ok(None)
    requires |chunks2| > 0 && |chunks1| > 0 && chunks2[0] == Bytes(next, t2) && chunks1[0] == Bytes(first + next, t2)
    requires chunks2[1..] == chunks1[1..]
    ensures Serve(Extract(first).rest, chunks2, respond) == Serve([], chunks1, respond)
  {
    ExtractResumes(first, next);
    assert [] + (first + next) == first + next;
    StepSameExtract(Extract(first).rest, next, first + next, [], t2, respond);
    ServeSameStep(Extract(first).rest, [], chunks2, chunks1, respond);
  }
}
