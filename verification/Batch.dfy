/** `sendRequests` of the Kotlin client (ProcessDataExchange.kt) against the `handler` loop of the Go
    receiver (golang-receiver/main.go): a batch is written between START_BUFFERING and STOP_BUFFERING, the
    receiver answers into a buffered writer, and only then does the client read. Both streams are modelled
    byte by byte. */
module Batch {
  import opened Wire
  import opened Framing
  import opened GoHandler
  import Messages

  // ---- The parties ---------------------------------------------------------------------------------------

  /** What is fixed during a run: the batch, the receiver's answer to each request, and the capacity of its
      writer. */
  datatype Config = Config(batch: seq<Message>, answer: Message -> Message, capacity: nat)

  /** Where `handler` is within a frame. */
  datatype Phase = ReadLength | ReadTag(length: nat) | ReadPayload(length: nat, tag: nat)

  datatype State = State(
    pos: nat,                // statements of `sendRequests` done
    clientBuffer: seq<byte>, // BufferedOutputStream
    toServer: seq<byte>,
    phase: Phase,
    got: seq<byte>,          // what `readNumBytes` has so far
    buffering: bool,
    serverBuffer: seq<byte>, // bufio.Writer
    toClient: seq<byte>,
    responses: seq<Message>,
    confused: bool,          // the client read a frame that is no response
    frames: nat              // frames the receiver has finished; a history variable
  )

  predicate Init(s: State) {
    s == State(0, [], [], ReadLength, [], false, [], [], [], false, 0)
  }

  /** The frames of a batch: START_BUFFERING, the requests, STOP_BUFFERING. */
  function FrameTag(c: Config, f: nat): nat {
    if f == 0 then START_BUFFERING else if f <= |c.batch| then REQUEST else STOP_BUFFERING
  }

  function FramePayload(c: Config, f: nat): Message {
    if 1 <= f <= |c.batch| then c.batch[f - 1] else []
  }

  function FrameAt(c: Config, f: nat): seq<byte> {
    Frame(FrameTag(c, f), FramePayload(c, f))
  }

  /** The statements of `sendRequests`, in order: write START, flush; write each request; write STOP, flush;
      read each response. */
  datatype Statement = Write(frame: nat) | Flush | Receive | Return

  function StatementAt(c: Config, pos: nat): Statement {
    var n := |c.batch|;
    if pos == 0 then Write(0)
    else if pos == 1 then Flush
    else if pos <= n + 2 then Write(pos - 1)
    else if pos == n + 3 then Flush
    else if pos < 2 * n + 4 then Receive
    else Return
  }

  function Need(p: Phase): nat {
    match p
    case ReadLength => 4
    case ReadTag(_) => 4
    case ReadPayload(length, _) => length
  }

  // ---- Steps ---------------------------------------------------------------------------------------------

  /** `Spill` is the client's stream writing some of its buffer early; `Take` hands the receiver any number
      of the bytes that have arrived; `Advance` goes on once `readNumBytes` has all it asked for. */
  datatype Step = Client | Spill(k: nat) | Take(k: nat) | Advance

  predicate Enabled(c: Config, s: State, step: Step) {
    match step
    case Client =>
      (match StatementAt(c, s.pos)
       case Write(_) => true
       case Flush => true
       case Receive => HasFrame(s.toClient)
       case Return => false)
    case Spill(k) => 1 <= k <= |s.clientBuffer|
    case Take(k) => 1 <= k <= |s.toServer| && |s.got| + k <= Need(s.phase)
    case Advance => |s.got| == Need(s.phase)
  }

  /** A whole frame has arrived. */
  predicate HasFrame(b: seq<byte>) {
    |b| >= 8 && |b| >= 8 + Number(b[..4])
  }

  /** What the receiver makes of a request. */
  function AnswerTo(c: Config, payload: seq<byte>): Message {
    if |payload| <= MAX_ARRAY then c.answer(payload) else []
  }

  function Answer(c: Config, payload: seq<byte>): seq<byte> {
    Frame(RESPONSE, AnswerTo(c, payload))
  }

  function After(c: Config, s: State, step: Step): State
    requires Enabled(c, s, step)
  {
    match step
    case Client =>
      var t := s.(pos := s.pos + 1);
      (match StatementAt(c, s.pos)
       case Write(f) => t.(clientBuffer := s.clientBuffer + FrameAt(c, f))
       case Flush => t.(toServer := s.toServer + s.clientBuffer, clientBuffer := [])
       case Receive =>
         var n := Number(s.toClient[..4]);
         var rest := s.toClient[8 + n..];
         var tag := Number(s.toClient[4..8]);
         if tag == CALLBACK_REQUEST || tag > LAST_TAG || n > MAX_ARRAY then
           t.(toClient := rest, confused := true)
         else
           t.(toClient := rest, responses := s.responses + [s.toClient[8..8 + n]])
       case Return => s)
    case Spill(k) =>
      s.(toServer := s.toServer + s.clientBuffer[..k], clientBuffer := s.clientBuffer[k..])
    case Take(k) =>
      s.(got := s.got + s.toServer[..k], toServer := s.toServer[k..])
    case Advance =>
      match s.phase
      case ReadLength => s.(phase := ReadTag(Number(s.got)), got := [])
      case ReadTag(length) =>
        var tag := Number(s.got);
        if tag == START_BUFFERING then
          s.(phase := ReadLength, got := [], buffering := true, frames := s.frames + 1)
        else if tag == STOP_BUFFERING then
          s.(phase := ReadLength, got := [], buffering := false, frames := s.frames + 1,
             toClient := s.toClient + s.serverBuffer, serverBuffer := [])
        else
          // any other tag is taken for a request
          s.(phase := ReadPayload(length, tag), got := [])
      case ReadPayload(_, _) =>
        var (out, held) := PutReply(c.capacity, s.serverBuffer, AnswerTo(c, s.got));
        var t := s.(phase := ReadLength, got := [], frames := s.frames + 1);
        if s.buffering then t.(toClient := s.toClient + out, serverBuffer := held)
        else t.(toClient := s.toClient + (out + held), serverBuffer := [])
  }

  /** A payload taken is replied to, whatever state the receiver is in: through the writer while buffering, at
      once and with all that the writer held back otherwise. */
  lemma {:induction false} RepliesByMode(c: Config, s: State)
    requires Enabled(c, s, Advance) && s.phase.ReadPayload?
    ensures var t := After(c, s, Advance);
      && t.toClient + t.serverBuffer == s.toClient + s.serverBuffer + Answer(c, s.got)
      && s.toClient <= t.toClient && t.buffering == s.buffering && t.phase == ReadLength && t.got == []
      && (!s.buffering ==> t.serverBuffer == [])
      && (s.buffering && |s.serverBuffer| <= c.capacity ==> |t.serverBuffer| <= c.capacity)
  {
    PutReplyKeeps(c.capacity, s.serverBuffer, AnswerTo(c, s.got));
    hide PutReply, Frame;
    var (out, held) := PutReply(c.capacity, s.serverBuffer, AnswerTo(c, s.got));
    Regroup(s.toClient, out, held);
    Regroup(s.toClient, s.serverBuffer, Answer(c, s.got));
    assert s.toClient + (out + held) + [] == s.toClient + (out + held);
  }

  ghost predicate Next(c: Config, s: State, t: State) {
    exists step :: Enabled(c, s, step) && t == After(c, s, step)
  }

  ghost predicate IsRun(c: Config, run: seq<State>) {
    && |run| > 0
    && Init(run[0])
    && forall i :: 0 < i < |run| ==> Next(c, run[i - 1], run[i])
  }

  // ---- The invariant -----------------------------------------------------------------------------------

  /** Frames written by the client so far. */
  function Sent(c: Config, pos: nat): nat {
    if pos == 0 then 0 else if pos <= 2 then 1 else if pos <= |c.batch| + 3 then pos - 1 else |c.batch| + 2
  }

  /** Responses read by the client so far. */
  function Received(c: Config, pos: nat): nat {
    if pos <= |c.batch| + 4 then 0 else pos - (|c.batch| + 4)
  }

  /** Requests the receiver has answered. */
  function Answered(c: Config, frames: nat): nat {
    if frames == 0 then 0 else if frames <= |c.batch| then frames - 1 else |c.batch|
  }

  /** The bytes of frames `f` to `g`. */
  function Bytes(c: Config, f: nat, g: nat): seq<byte>
    decreases g - f
  {
    if f >= g then [] else FrameAt(c, f) + Bytes(c, f + 1, g)
  }

  /** The bytes of the answers to requests `i` to `j`. */
  function AnswerBytes(c: Config, i: nat, j: nat): seq<byte>
    requires j <= |c.batch|
    decreases j - i
  {
    if i >= j then [] else Answer(c, c.batch[i]) + AnswerBytes(c, i + 1, j)
  }

  /** What the receiver's writer holds back of the first `j` answers. */
  function Held(c: Config, j: nat): seq<byte>
    requires j <= |c.batch|
  {
    if j == 0 then [] else PutReply(c.capacity, Held(c, j - 1), c.answer(c.batch[j - 1])).1
  }

  /** What the receiver has taken of the current frame. */
  function Partial(phase: Phase, got: seq<byte>): seq<byte> {
    match phase
    case ReadLength => got
    case ReadTag(length) => (if length < TWO_32 then LittleEndian(length) else []) + got
    case ReadPayload(length, tag) =>
      (if length < TWO_32 && tag < TWO_32 then LittleEndian(length) + LittleEndian(tag) else []) + got
  }

  predicate PhaseFits(c: Config, frames: nat, phase: Phase, got: seq<byte>) {
    && |got| <= Need(phase)
    && match phase
       case ReadLength => true
       case ReadTag(length) => frames < |c.batch| + 2 && length == |FramePayload(c, frames)|
       case ReadPayload(length, tag) =>
         1 <= frames <= |c.batch| && length == |FramePayload(c, frames)| && tag == REQUEST
  }

  /** Towards the receiver nothing is lost, reordered or made up: what it holds of the current frame, what
      has been sent and what the client still buffers are the frames written but not yet dealt with. */
  predicate Upstream(c: Config, sent: nat, frames: nat, phase: Phase, got: seq<byte>,
                     toServer: seq<byte>, clientBuffer: seq<byte>)
  {
    && frames <= sent
    && PhaseFits(c, frames, phase, got)
    && Partial(phase, got) + toServer + clientBuffer == Bytes(c, frames, sent)
  }

  predicate RightSoFar(c: Config, responses: seq<Message>)
    requires |responses| <= |c.batch|
  {
    forall i :: 0 <= i < |responses| ==> responses[i] == c.answer(c.batch[i])
  }

  /** Towards the client likewise: responses read are the answers in order, and the rest is under way. */
  predicate Downstream(c: Config, frames: nat, buffering: bool, serverBuffer: seq<byte>,
                       toClient: seq<byte>, responses: seq<Message>)
  {
    var n, done := |c.batch|, Answered(c, frames);
    && (buffering <==> 1 <= frames <= n + 1)
    && (!buffering ==> serverBuffer == [])
    && |responses| <= done
    && RightSoFar(c, responses)
    && toClient + serverBuffer == AnswerBytes(c, |responses|, done)
    && (buffering ==> serverBuffer == Held(c, done))
  }

  predicate Inv(c: Config, s: State) {
    && !s.confused
    && s.pos <= 2 * |c.batch| + 4
    && (s.pos >= |c.batch| + 4 ==> s.clientBuffer == [])
    && |s.responses| == Received(c, s.pos)
    && Upstream(c, Sent(c, s.pos), s.frames, s.phase, s.got, s.toServer, s.clientBuffer)
    && Downstream(c, s.frames, s.buffering, s.serverBuffer, s.toClient, s.responses)
  }

  // ---- Byte streams --------------------------------------------------------------------------------------

  lemma FrameParts(c: Config, f: nat)
    ensures var b := FrameAt(c, f);
      && |b| == 8 + |FramePayload(c, f)|
      && b[..4] == LittleEndian(|FramePayload(c, f)|) && b[4..8] == LittleEndian(FrameTag(c, f))
      && b[8..] == FramePayload(c, f)
  {
  }

  lemma {:induction false} BytesSnoc(c: Config, f: nat, g: nat)
    requires f <= g
    ensures Bytes(c, f, g + 1) == Bytes(c, f, g) + FrameAt(c, g)
    decreases g - f
  {
    hide FrameAt;
    if f < g {
      BytesSnoc(c, f + 1, g);
    } else {
      assert Bytes(c, g + 1, g + 1) == [];
    }
  }

  lemma NoAnswers(c: Config, k: nat)
    requires k <= |c.batch|
    ensures AnswerBytes(c, k, k) == []
  {
  }

  lemma {:induction false} AnswerBytesSnoc(c: Config, i: nat, j: nat)
    requires i <= j < |c.batch|
    ensures AnswerBytes(c, i, j + 1) == AnswerBytes(c, i, j) + Answer(c, c.batch[j])
    decreases j - i
  {
    hide Answer;
    if i < j {
      AnswerBytesSnoc(c, i + 1, j);
    } else {
      assert AnswerBytes(c, j + 1, j + 1) == [];
    }
  }

  /** Bytes taken from the front of a stream of frames are bytes of the first frame. */
  lemma {:induction false} FirstFrame(c: Config, a: seq<byte>, rest: seq<byte>, f: nat, g: nat)
    requires a + rest == Bytes(c, f, g) && a != []
    ensures f < g
    ensures |a| >= 4 ==> a[..4] == LittleEndian(|FramePayload(c, f)|)
    ensures |a| >= 8 ==> a[4..8] == LittleEndian(FrameTag(c, f))
    ensures |a| == 8 + |FramePayload(c, f)| ==> a[8..] == FramePayload(c, f) && rest == Bytes(c, f + 1, g)
  {
    FrameParts(c, f);
    hide FrameAt;
    var b, tail := FrameAt(c, f), Bytes(c, f + 1, g);
    assert f < g && a + rest == b + tail;
    if |a| >= 4 {
      assert a[..4] == (a + rest)[..4] == b[..4];
    }
    if |a| >= 8 {
      assert a[4..8] == (a + rest)[4..8] == b[4..8];
    }
    if |a| == |b| {
      assert a == (a + rest)[..|a|] == b;
      assert rest == (a + rest)[|a|..] == tail;
    }
  }

  lemma Regroupings(a: seq<byte>, b: seq<byte>, c: seq<byte>)
    ensures a + b + c == a + (b + c) && a + (b + c) + [] == a + b + c && [] + a + b == a + b
  {
  }

  // ---- Towards the receiver ------------------------------------------------------------------------------

  lemma {:induction false} WriteKeeps(c: Config, s: State)
    requires Inv(c, s) && StatementAt(c, s.pos).Write?
    ensures Inv(c, After(c, s, Client))
  {
    hide FrameAt, Bytes, Downstream, Partial, PhaseFits;
    var f := StatementAt(c, s.pos).frame;
    BytesSnoc(c, s.frames, f);
    Regroupings(Partial(s.phase, s.got) + s.toServer, s.clientBuffer, FrameAt(c, f));
  }

  lemma {:induction false} FlushKeeps(c: Config, s: State)
    requires Inv(c, s) && StatementAt(c, s.pos).Flush?
    ensures Inv(c, After(c, s, Client))
  {
    hide FrameAt, Bytes, Downstream, Partial, PhaseFits;
    Regroupings(Partial(s.phase, s.got), s.toServer, s.clientBuffer);
  }

  lemma {:induction false} SpillKeeps(c: Config, s: State, k: nat)
    requires Inv(c, s) && Enabled(c, s, Spill(k))
    ensures Inv(c, After(c, s, Spill(k)))
  {
    hide FrameAt, Bytes, Downstream, Partial, PhaseFits;
    var p, b := Partial(s.phase, s.got), s.clientBuffer;
    assert b == b[..k] + b[k..];
    Regroupings(p + s.toServer, b[..k], b[k..]);
    Regroupings(p, s.toServer, b[..k]);
  }

  lemma {:induction false} TakeKeeps(c: Config, s: State, k: nat)
    requires Inv(c, s) && Enabled(c, s, Take(k))
    ensures Inv(c, After(c, s, Take(k)))
  {
    hide FrameAt, Bytes, Downstream, LittleEndian;
    var b := s.toServer;
    assert Partial(s.phase, s.got + b[..k]) == Partial(s.phase, s.got) + b[..k];
    hide Partial;
    assert b == b[..k] + b[k..];
    Regroupings(Partial(s.phase, s.got), b[..k], b[k..]);
  }

  /** What the receiver holds of a frame is what was written of it; a whole frame leaves the frames after it. */
  lemma {:induction false} HeldIsWritten(c: Config, sent: nat, frames: nat, phase: Phase, got: seq<byte>,
                                         toServer: seq<byte>, clientBuffer: seq<byte>)
    requires Upstream(c, sent, frames, phase, got, toServer, clientBuffer)
    ensures var p := Partial(phase, got);
      && (p != [] ==> frames < sent)
      && (|p| >= 4 ==> p[..4] == LittleEndian(|FramePayload(c, frames)|))
      && (|p| >= 8 ==> p[4..8] == LittleEndian(FrameTag(c, frames)))
      && (|p| == 8 + |FramePayload(c, frames)| ==>
            p[8..] == FramePayload(c, frames) && toServer + clientBuffer == Bytes(c, frames + 1, sent))
  {
    hide Partial, Bytes, LittleEndian, PhaseFits;
    var p := Partial(phase, got);
    Regroupings(p, toServer, clientBuffer);
    if p != [] {
      FirstFrame(c, p, toServer + clientBuffer, frames, sent);
    }
  }

  lemma {:induction false} LengthRead(c: Config, sent: nat, frames: nat, got: seq<byte>,
                                      toServer: seq<byte>, clientBuffer: seq<byte>)
    requires Upstream(c, sent, frames, ReadLength, got, toServer, clientBuffer) && |got| == 4
    requires sent <= |c.batch| + 2
    ensures Upstream(c, sent, frames, ReadTag(Number(got)), [], toServer, clientBuffer)
  {
    HeldIsWritten(c, sent, frames, ReadLength, got, toServer, clientBuffer);
    NumberRoundTrip(|FramePayload(c, frames)|);
    hide Bytes, LittleEndian, Number;
    assert got == got[..4];
    assert Partial(ReadTag(Number(got)), []) == got;
  }

  lemma {:induction false} TagRead(c: Config, sent: nat, frames: nat, length: nat, got: seq<byte>,
                                   toServer: seq<byte>, clientBuffer: seq<byte>)
    requires Upstream(c, sent, frames, ReadTag(length), got, toServer, clientBuffer) && |got| == 4
    ensures Number(got) == FrameTag(c, frames) && frames < sent
    ensures FrameTag(c, frames) == REQUEST ==>
              Upstream(c, sent, frames, ReadPayload(length, REQUEST), [], toServer, clientBuffer)
    ensures FrameTag(c, frames) != REQUEST ==>
              Upstream(c, sent, frames + 1, ReadLength, [], toServer, clientBuffer)
  {
    HeldIsWritten(c, sent, frames, ReadTag(length), got, toServer, clientBuffer);
    NumberRoundTrip(FrameTag(c, frames));
    hide Bytes, LittleEndian, Number;
    var p := Partial(ReadTag(length), got);
    assert p == LittleEndian(length) + got && p[4..8] == got;
    assert Partial(ReadPayload(length, REQUEST), []) == LittleEndian(length) + LittleEndian(REQUEST);
    Regroupings(toServer, clientBuffer, []);
    assert Partial(ReadLength, []) == [];
  }

  lemma {:induction false} PayloadRead(c: Config, sent: nat, frames: nat, length: nat, tag: nat, got: seq<byte>,
                                       toServer: seq<byte>, clientBuffer: seq<byte>)
    requires Upstream(c, sent, frames, ReadPayload(length, tag), got, toServer, clientBuffer) && |got| == length
    ensures 1 <= frames <= |c.batch| && got == c.batch[frames - 1] && frames < sent
    ensures Upstream(c, sent, frames + 1, ReadLength, [], toServer, clientBuffer)
  {
    HeldIsWritten(c, sent, frames, ReadPayload(length, tag), got, toServer, clientBuffer);
    hide Bytes, LittleEndian;
    var p := Partial(ReadPayload(length, tag), got);
    assert |p| == 8 + length && p[8..] == got;
    Regroupings(toServer, clientBuffer, []);
    assert Partial(ReadLength, []) == [];
  }

  // ---- Towards the client ----------------------------------------------------------------------------------

  lemma {:induction false} ReceiveKeeps(c: Config, s: State)
    requires Inv(c, s) && StatementAt(c, s.pos).Receive? && HasFrame(s.toClient)
    ensures Inv(c, After(c, s, Client))
  {
    ResponseRead(c, s.frames, s.buffering, s.serverBuffer, s.toClient, s.responses);
    hide Upstream, Downstream, AnswerBytes, Number, HasFrame;
  }

  lemma {:induction false} ResponseRead(c: Config, frames: nat, buffering: bool, serverBuffer: seq<byte>,
                                        toClient: seq<byte>, responses: seq<Message>)
    requires Downstream(c, frames, buffering, serverBuffer, toClient, responses) && HasFrame(toClient)
    ensures var n := Number(toClient[..4]);
      && n <= MAX_ARRAY && Number(toClient[4..8]) == RESPONSE && 8 + n <= |toClient|
      && Downstream(c, frames, buffering, serverBuffer, toClient[8 + n..], responses + [toClient[8..8 + n]])
  {
    var k, j := |responses|, Answered(c, frames);
    NoAnswers(c, j);
    AnswerParts(c, k, j, toClient, serverBuffer);
    hide AnswerBytes, Number, HasFrame;
  }

  lemma {:induction false} AnswerParts(c: Config, k: nat, j: nat, arrived: seq<byte>, later: seq<byte>)
    requires k < j <= |c.batch| && arrived + later == AnswerBytes(c, k, j) && HasFrame(arrived)
    ensures var a := c.answer(c.batch[k]);
      && Number(arrived[..4]) == |a| && Number(arrived[4..8]) == RESPONSE
      && |arrived| >= 8 + |a| && arrived[8..8 + |a|] == a
      && arrived[8 + |a|..] + later == AnswerBytes(c, k + 1, j)
  {
    var a := c.answer(c.batch[k]);
    var b, tail := Answer(c, c.batch[k]), AnswerBytes(c, k + 1, j);
    assert b == LittleEndian(|a|) + LittleEndian(RESPONSE) + a;
    assert arrived + later == b + tail;
    NumberRoundTrip(|a|);
    NumberRoundTrip(RESPONSE);
    hide LittleEndian, Number, Answer, AnswerBytes;
    assert arrived[..4] == (arrived + later)[..4] == LittleEndian(|a|);
    assert |arrived| >= |b|;
    FrontIs(arrived, later, b, tail);
    assert arrived[4..8] == b[4..8] == LittleEndian(RESPONSE);
    assert arrived[8..8 + |a|] == b[8..] == a;
  }

  lemma {:induction false} FrontIs(arrived: seq<byte>, later: seq<byte>, b: seq<byte>, tail: seq<byte>)
    requires arrived + later == b + tail && |b| <= |arrived|
    ensures arrived[..|b|] == b && arrived[|b|..] + later == tail
    ensures forall i, j :: 0 <= i <= j <= |b| ==> arrived[i..j] == b[i..j]
  {
    assert arrived[..|b|] == (arrived + later)[..|b|] == b;
    assert arrived[|b|..] + later == (arrived + later)[|b|..] == tail;
    assert forall i, j :: 0 <= i <= j <= |b| ==> arrived[i..j] == arrived[..|b|][i..j];
  }

  lemma {:induction false} Joined(arrived: seq<byte>, buffer: seq<byte>, answer: seq<byte>,
                                  out: seq<byte>, held: seq<byte>)
    requires out + held == buffer + answer
    ensures arrived + out + held == arrived + buffer + answer
  {
    Regroup(arrived, out, held);
    Regroup(arrived, buffer, answer);
  }

  lemma {:induction false} AnswerKeeps(c: Config, s: State, got: Message)
    requires Downstream(c, s.frames, s.buffering, s.serverBuffer, s.toClient, s.responses)
    requires 1 <= s.frames <= |c.batch| && got == c.batch[s.frames - 1]
    ensures var (out, held) := PutReply(c.capacity, s.serverBuffer, AnswerTo(c, got));
            Downstream(c, s.frames + 1, s.buffering, held, s.toClient + out, s.responses)
  {
    var j, a := s.frames - 1, AnswerTo(c, got);
    assert a == c.answer(c.batch[j]) && Answer(c, got) == Frame(RESPONSE, a);
    hide AnswerBytes, PutReply, Held, Frame, AnswerTo, Answer, RightSoFar;
    AnswerBytesSnoc(c, |s.responses|, j);
    PutReplyKeeps(c.capacity, s.serverBuffer, a);
    HeldStep(c, j);
    var (out, held) := PutReply(c.capacity, s.serverBuffer, a);
    Joined(s.toClient, s.serverBuffer, Answer(c, got), out, held);
  }

  lemma HeldStep(c: Config, j: nat)
    requires j < |c.batch|
    ensures Held(c, j + 1) == PutReply(c.capacity, Held(c, j), c.answer(c.batch[j])).1 && Held(c, 0) == []
  {
  }

  lemma {:induction false} ControlKeeps(c: Config, s: State)
    requires Downstream(c, s.frames, s.buffering, s.serverBuffer, s.toClient, s.responses)
    ensures s.frames == 0 ==>
              Downstream(c, 1, true, s.serverBuffer, s.toClient, s.responses)
    ensures s.frames == |c.batch| + 1 ==>
              Downstream(c, s.frames + 1, false, [], s.toClient + s.serverBuffer, s.responses)
  {
    Regroupings(s.toClient, s.serverBuffer, []);
    assert Held(c, 0) == [];
    hide AnswerBytes, Held;
  }

  // ---- Every step keeps the invariant --------------------------------------------------------------------

  lemma {:induction false} AdvanceKeeps(c: Config, s: State)
    requires Inv(c, s) && Enabled(c, s, Advance)
    ensures Inv(c, After(c, s, Advance))
    ensures After(c, s, Advance).frames <= |c.batch| + 2
  {
    var sent := Sent(c, s.pos);
    assert s.frames <= sent <= |c.batch| + 2;
    match s.phase {
      case ReadLength =>
        LengthRead(c, sent, s.frames, s.got, s.toServer, s.clientBuffer);
        hide Upstream, Downstream, Number;
      case ReadTag(length) =>
        TagRead(c, sent, s.frames, length, s.got, s.toServer, s.clientBuffer);
        if s.frames == 0 || s.frames == |c.batch| + 1 {
          ControlKeeps(c, s);
        }
        hide Upstream, Downstream, Number;
      case ReadPayload(length, tag) =>
        hide Inv, After;
        RequestKeeps(c, s);
    }
  }

  lemma {:induction false} RequestKeeps(c: Config, s: State)
    requires Inv(c, s) && Enabled(c, s, Advance) && s.phase.ReadPayload?
    ensures Inv(c, After(c, s, Advance)) && After(c, s, Advance).frames <= |c.batch| + 2
  {
    PayloadRead(c, Sent(c, s.pos), s.frames, s.phase.length, s.phase.tag, s.got, s.toServer, s.clientBuffer);
    hide AnswerBytes, Held, AnswerTo, PutReply, Upstream;
    assert s.buffering;
    AnswerKeeps(c, s, s.got);
    hide Downstream, Sent;
  }

  lemma {:induction false} StepKeeps(c: Config, s: State, step: Step)
    requires Inv(c, s) && Enabled(c, s, step)
    ensures Inv(c, After(c, s, step))
  {
    hide Inv, After;
    match step {
      case Client =>
        match StatementAt(c, s.pos) {
          case Write(_) => WriteKeeps(c, s);
          case Flush => FlushKeeps(c, s);
          case Receive => ReceiveKeeps(c, s);
          case Return =>
        }
      case Spill(k) => SpillKeeps(c, s, k);
      case Take(k) => TakeKeeps(c, s, k);
      case Advance => AdvanceKeeps(c, s);
    }
  }

  lemma {:induction false} RunKeeps(c: Config, run: seq<State>, i: nat)
    requires IsRun(c, run) && i < |run|
    ensures Inv(c, run[i])
  {
    hide After;
    if i == 0 {
    } else {
      RunKeeps(c, run, i - 1);
      assert Next(c, run[i - 1], run[i]);
      var step :| Enabled(c, run[i - 1], step) && run[i] == After(c, run[i - 1], step);
      StepKeeps(c, run[i - 1], step);
    }
  }

  // ---- Safety ----------------------------------------------------------------------------------------------

  predicate Returned(c: Config, s: State) {
    s.pos == 2 * |c.batch| + 4
  }

  /** Nothing is left anywhere, and the receiver waits for a frame with buffering off. */
  predicate Quiescent(c: Config, s: State) {
    && Returned(c, s)
    && s.clientBuffer == [] && s.toServer == [] && s.serverBuffer == [] && s.toClient == []
    && s.phase == ReadLength && s.got == [] && !s.buffering
    && s.frames == |c.batch| + 2
  }

  /** In every state of every run, however the bytes are cut and whatever the two writers let through early,
      the i-th response read is the answer to the i-th request; when `sendRequests` returns there is one for
      each request. */
  lemma {:induction false} ResponsesAnswerRequests(c: Config, run: seq<State>, i: nat)
    requires IsRun(c, run) && i < |run|
    ensures var s := run[i];
      && !s.confused && |s.responses| <= |c.batch|
      && (forall k :: 0 <= k < |s.responses| ==> s.responses[k] == c.answer(c.batch[k]))
      && (Returned(c, s) ==> |s.responses| == |c.batch|)
  {
    hide Upstream, AnswerBytes;
    RunKeeps(c, run, i);
  }

  // ---- No deadlock -----------------------------------------------------------------------------------------

  ghost predicate Stuck(c: Config, s: State) {
    forall step :: !Enabled(c, s, step)
  }

  /** A receiver that has taken all that was written, and is not done with a read, is between frames. */
  lemma {:induction false} Drained(c: Config, sent: nat, frames: nat, phase: Phase, got: seq<byte>)
    requires Upstream(c, sent, frames, phase, got, [], []) && |got| < Need(phase)
    ensures frames == sent && phase == ReadLength && got == []
  {
    FrameParts(c, frames);
    hide FrameAt, LittleEndian;
    assert Partial(phase, got) + [] + [] == Partial(phase, got);
    assert frames < sent ==> |Bytes(c, frames, sent)| >= |FrameAt(c, frames)|;
  }

  /** If the receiver's writer holds nothing back, the next response is there to be read whole. */
  lemma {:induction false} ResponseArrived(c: Config, s: State)
    requires Downstream(c, s.frames, s.buffering, [], s.toClient, s.responses)
    requires |s.responses| < Answered(c, s.frames)
    ensures HasFrame(s.toClient)
  {
    var k, j := |s.responses|, Answered(c, s.frames);
    var a := c.answer(c.batch[k]);
    assert s.toClient + [] == s.toClient == Answer(c, c.batch[k]) + AnswerBytes(c, k + 1, j);
    NumberRoundTrip(|a|);
    hide LittleEndian, Number, AnswerBytes;
    assert s.toClient[..4] == LittleEndian(|a|);
  }

  /** Some step is possible in every state but the final one, and it need not be an early write of the
      client's stream. */
  lemma {:induction false} SomeStep(c: Config, s: State) returns (step: Step)
    requires Inv(c, s) && !Quiescent(c, s)
    ensures Enabled(c, s, step) && !step.Spill?
  {
    hide Bytes, AnswerBytes, Partial;
    if Enabled(c, s, Client) {
      return Client;
    }
    assert s.pos >= |c.batch| + 4;
    if |s.got| == Need(s.phase) {
      hide Upstream, Downstream;
      return Advance;
    }
    if s.toServer != [] {
      return Take(1);
    }
    Drained(c, Sent(c, s.pos), s.frames, s.phase, s.got);
    if !Returned(c, s) {
      ResponseArrived(c, s);
      assert false;
    }
    assert s.serverBuffer == [] && s.toClient + [] == AnswerBytes(c, |c.batch|, |c.batch|) == [] by {
      NoAnswers(c, |c.batch|);
    }
    assert false;
  }

  /** The system comes to rest in the final state only, and stays there. */
  lemma {:induction false} StuckIffQuiescent(c: Config, s: State)
    requires Inv(c, s)
    ensures Stuck(c, s) <==> Quiescent(c, s)
  {
    hide Inv;
    if !Quiescent(c, s) {
      var step := SomeStep(c, s);
    }
  }

  // ---- Termination -----------------------------------------------------------------------------------------

  function Rank(p: Phase): nat {
    match p case ReadLength => 2 case ReadTag(_) => 1 case ReadPayload(_, _) => 0
  }

  /** Statements left, bytes weighted by how far they still have to go, and the receiver's place. */
  function Measure(c: Config, s: State): nat
    requires s.pos <= 2 * |c.batch| + 4 && s.frames <= |c.batch| + 2
  {
    2 * |c.batch| + 4 - s.pos
    + 4 * |Bytes(c, Sent(c, s.pos), |c.batch| + 2)| + 3 * |s.clientBuffer| + 2 * |s.toServer| + |s.got|
    + 3 * (|c.batch| + 2 - s.frames) + Rank(s.phase)
  }

  lemma MeasureDefined(c: Config, s: State)
    requires Inv(c, s)
    ensures s.pos <= 2 * |c.batch| + 4 && s.frames <= |c.batch| + 2
  {
  }

  lemma {:induction false} WriteDecreases(c: Config, pos: nat)
    requires StatementAt(c, pos).Write?
    ensures var f, end := StatementAt(c, pos).frame, |c.batch| + 2;
      |Bytes(c, Sent(c, pos), end)| == |FrameAt(c, f)| + |Bytes(c, Sent(c, pos + 1), end)| > 0
  {
    FrameParts(c, StatementAt(c, pos).frame);
    hide FrameAt;
  }

  lemma {:induction false} ClientDecreases(c: Config, s: State)
    requires Enabled(c, s, Client) && s.pos < 2 * |c.batch| + 4 && s.frames <= |c.batch| + 2
    ensures var t := After(c, s, Client);
      t.pos == s.pos + 1 && t.frames == s.frames && Measure(c, t) < Measure(c, s)
  {
    hide Bytes, FrameAt, Number, HasFrame;
    if StatementAt(c, s.pos).Write? {
      WriteDecreases(c, s.pos);
    }
  }

  lemma {:induction false} AdvanceDecreases(c: Config, s: State)
    requires Enabled(c, s, Advance) && s.pos <= 2 * |c.batch| + 4 && s.frames <= |c.batch| + 2
    requires After(c, s, Advance).frames <= |c.batch| + 2
    ensures var t := After(c, s, Advance); t.pos == s.pos && Measure(c, t) < Measure(c, s)
  {
    hide Bytes, Number, AnswerTo, Sent, PutReply;
  }

  lemma {:induction false} StepDecreases(c: Config, s: State, step: Step)
    requires Inv(c, s) && Enabled(c, s, step)
    ensures Inv(c, After(c, s, step))
    ensures s.pos <= 2 * |c.batch| + 4 && s.frames <= |c.batch| + 2
    ensures var t := After(c, s, step); t.pos <= 2 * |c.batch| + 4 && t.frames <= |c.batch| + 2
    ensures Measure(c, After(c, s, step)) < Measure(c, s)
  {
    StepKeeps(c, s, step);
    MeasureDefined(c, s);
    MeasureDefined(c, After(c, s, step));
    hide Inv, Bytes, Number, HasFrame;
    match step {
      case Client =>
        ClientDecreases(c, s);
      case Spill(k) =>
        assert |s.clientBuffer[k..]| == |s.clientBuffer| - k;
      case Take(k) =>
        assert |s.toServer[k..]| == |s.toServer| - k;
      case Advance =>
        AdvanceDecreases(c, s);
    }
  }

  /** No run is longer than the first state's measure allows; with `StuckIffQuiescent`, every run that is
      continued while it can be ends in the final state. */
  lemma {:induction false} RunsAreBounded(c: Config, run: seq<State>)
    requires IsRun(c, run)
    ensures var last := run[|run| - 1];
      && Inv(c, last) && last.pos <= 2 * |c.batch| + 4 && last.frames <= |c.batch| + 2
      && |run| - 1 + Measure(c, last) <= Measure(c, run[0])
  {
    hide Measure, After, Inv, Next;
    var n := |run| - 1;
    RunKeeps(c, run, n);
    MeasureDefined(c, run[n]);
    if n == 0 {
    } else {
      RunsAreBounded(c, run[..n]);
      assert Next(c, run[n - 1], run[n]);
      var step := StepOf(c, run[n - 1], run[n]);
      StepDecreases(c, run[n - 1], step);
    }
  }

  lemma StepOf(c: Config, s: State, t: State) returns (step: Step)
    requires Next(c, s, t)
    ensures Enabled(c, s, step) && t == After(c, s, step)
  {
    step :| Enabled(c, s, step) && t == After(c, s, step);
  }

  /** A run that has come to rest has returned the answers, and left both channels and both writers empty
      and buffering off. */
  lemma {:induction false} BatchCompletes(c: Config, run: seq<State>)
    requires IsRun(c, run) && Stuck(c, run[|run| - 1])
    ensures var s := run[|run| - 1];
      && Quiescent(c, s)
      && |s.responses| == |c.batch|
      && forall k :: 0 <= k < |c.batch| ==> s.responses[k] == c.answer(c.batch[k])
  {
    hide Inv, Stuck;
    RunKeeps(c, run, |run| - 1);
    StuckIffQuiescent(c, run[|run| - 1]);
    ResponsesAnswerRequests(c, run, |run| - 1);
  }

  // ---- When the call returns -------------------------------------------------------------------------------

  /** The receiver may still be at work when `sendRequests` returns; not so if its writer still holds a byte of
      the answers, for then that byte comes with the flush at STOP_BUFFERING. */
  lemma {:induction false} QuietAtReturn(c: Config, s: State)
    requires Inv(c, s) && Returned(c, s) && Held(c, |c.batch|) != []
    ensures Quiescent(c, s)
  {
    var n := |c.batch|;
    assert n > 0 ==> s.frames >= n + 1;
    NoAnswers(c, n);
    assert Bytes(c, n + 2, n + 2) == [];
    hide FrameAt, LittleEndian, PutReply;
  }

  /** A run in which STOP_BUFFERING is never read. */
  lemma {:induction false} ReturnEarly(c: Config, run: seq<State>) returns (longer: seq<State>)
    requires Held(c, |c.batch|) == []
    requires IsRun(c, run)
    requires var s := run[|run| - 1]; Inv(c, s) && s.frames <= |c.batch| + 1
    ensures IsRun(c, longer)
    ensures var s := longer[|longer| - 1]; Returned(c, s) && !Quiescent(c, s)
    decreases var s := run[|run| - 1];
              if s.pos <= 2 * |c.batch| + 4 && s.frames <= |c.batch| + 2 then Measure(c, s) else 0
  {
    var s := run[|run| - 1];
    MeasureDefined(c, s);
    if Returned(c, s) {
      return run;
    }
    var step := EagerStep(c, s);
    StepDecreases(c, s, step);
    hide Inv, After, Enabled, Measure;
    Extended(c, run, step);
    longer := ReturnEarly(c, run + [After(c, s, step)]);
  }

  lemma {:induction false} Extended(c: Config, run: seq<State>, step: Step)
    requires IsRun(c, run) && Enabled(c, run[|run| - 1], step)
    ensures IsRun(c, run + [After(c, run[|run| - 1], step)])
  {
    hide After, Enabled;
    var longer := run + [After(c, run[|run| - 1], step)];
    forall i | 0 < i < |longer|
      ensures Next(c, longer[i - 1], longer[i])
    {
      if i < |run| {
        assert Next(c, run[i - 1], run[i]);
      }
    }
  }

  lemma {:induction false} EagerStep(c: Config, s: State) returns (step: Step)
    requires Held(c, |c.batch|) == []
    requires Inv(c, s) && !Returned(c, s) && s.frames <= |c.batch| + 1
    ensures Enabled(c, s, step)
    ensures After(c, s, step).frames <= |c.batch| + 1
  {
    hide Bytes, AnswerBytes, Partial, Held, PutReply;
    var n := |c.batch|;
    if Enabled(c, s, Client) {
      return Client;
    }
    if s.frames == n + 1 {
      ResponseArrived(c, s);
      assert false;
    }
    if |s.got| == Need(s.phase) {
      hide Upstream, Downstream, Number;
      return Advance;
    }
    if s.toServer == [] {
      Drained(c, Sent(c, s.pos), s.frames, s.phase, s.got);
      assert false;
    }
    return Take(1);
  }

  /** In every run the channel is at rest by the time `sendRequests` returns exactly when the receiver's writer
      holds back a byte of the batch's answers. */
  lemma {:induction false} RestAtReturn(c: Config)
    ensures (forall run | IsRun(c, run) && Returned(c, run[|run| - 1]) :: Quiescent(c, run[|run| - 1]))
            <==> Held(c, |c.batch|) != []
  {
    hide Inv, Quiescent, Returned, Held;
    if Held(c, |c.batch|) != [] {
      forall run | IsRun(c, run) && Returned(c, run[|run| - 1])
        ensures Quiescent(c, run[|run| - 1])
      {
        RunKeeps(c, run, |run| - 1);
        QuietAtReturn(c, run[|run| - 1]);
      }
    } else {
      var s := State(0, [], [], ReadLength, [], false, [], [], [], false, 0);
      RunKeeps(c, [s], 0);
      var longer := ReturnEarly(c, [s]);
    }
  }

  /** In terms of lengths, for a writer that is not smaller than a length: nothing is held back of an empty
      batch, and otherwise exactly if the last answer fills what the writer has left and is then longer than a
      whole buffer. */
  lemma {:induction false} HeldByLengths(c: Config)
    requires c.capacity >= 4
    ensures c.batch == [] ==> Held(c, |c.batch|) == []
    ensures c.batch != [] ==>
      var j := |c.batch| - 1;
      var a := c.answer(c.batch[j]);
      var before := Put(c.capacity, Put(c.capacity, Held(c, j), LittleEndian(|a|)).1, LittleEndian(RESPONSE)).1;
      && 1 <= |before| <= c.capacity
      && (Held(c, |c.batch|) == [] <==> |a| > 2 * c.capacity - |before|)
  {
    if c.batch != [] {
      var j := |c.batch| - 1;
      HeldFits(c, j);
      HeldStep(c, j);
      hide Held, Put, LittleEndian, PutReply;
      ReplyLeavesNothing(c.capacity, Held(c, j), c.answer(c.batch[j]));
    }
  }

  lemma {:induction false} HeldFits(c: Config, j: nat)
    requires j <= |c.batch|
    ensures |Held(c, j)| <= c.capacity
  {
    if j == 0 {
    } else {
      HeldFits(c, j - 1);
      PutReplyKeeps(c.capacity, Held(c, j - 1), c.answer(c.batch[j - 1]));
      hide PutReply;
    }
  }

  /** So it is enough that the batch has a request and its last answer is no longer than the buffer. */
  lemma {:induction false} ShortAnswersRest(c: Config)
    requires c.capacity >= 4 && c.batch != [] && |c.answer(c.batch[|c.batch| - 1])| <= c.capacity
    ensures forall run | IsRun(c, run) && Returned(c, run[|run| - 1]) :: Quiescent(c, run[|run| - 1])
  {
    HeldByLengths(c);
    hide Held, Put, LittleEndian, IsRun, Returned, Quiescent;
    RestAtReturn(c);
  }

  /** The response that `handler` builds: the integer 0. */
  const HANDLER_RESPONSE := Messages.EncodeResponse(
    Messages.NO_RESPONSE.(fields := Messages.ResponseFields(Messages.ReturnInt(0))))

  /** The handler as it stands, with its 16 KiB and its one response, leaves the channel at rest after any batch
      but the empty one. */
  lemma {:induction false} HandlerRests(c: Config)
    requires c.capacity == 16 * 1024 && forall m :: c.answer(m) == HANDLER_RESPONSE
    ensures (forall run | IsRun(c, run) && Returned(c, run[|run| - 1]) :: Quiescent(c, run[|run| - 1]))
            <==> c.batch != []
  {
    assert VarintBytes(0) == [0];
    assert |HANDLER_RESPONSE| == 2;
    HeldByLengths(c);
    hide Held, Put, LittleEndian, IsRun, Returned, Quiescent;
    RestAtReturn(c);
  }

  // ---- The streams are those of the two loops --------------------------------------------------------------

  lemma {:induction false} RequestBytesFrom(c: Config, j: nat)
    requires j <= |c.batch|
    ensures Bytes(c, 1, j + 1) == RequestBytes(c.batch[..j])
  {
    if j == 0 {
    } else {
      RequestBytesFrom(c, j - 1);
      BytesSnoc(c, 1, j);
      assert c.batch[..j][..j - 1] == c.batch[..j - 1];
    }
    hide Frame;
  }

  /** The bytes that the client of this model writes are those of `sendRequests`, and those that its receiver
      writes are those of `handler` for that input. */
  lemma {:induction false} SameStreams(c: Config)
    ensures var process: Process := payload => AnswerTo(c, payload);
      && Bytes(c, 0, |c.batch| + 2) == BatchBytes(c.batch)
      && AnswerBytes(c, 0, |c.batch|) == Handled(BatchBytes(c.batch), false, process).0
  {
    var n := |c.batch|;
    var process: Process := payload => AnswerTo(c, payload);
    RequestBytesFrom(c, n);
    BytesSnoc(c, 1, n + 1);
    assert c.batch[..n] == c.batch;
    HandledBatch(c.batch, process);
    AnswerBytesAre(c, n);
    hide Frame, Handled, RequestBytes;
    Regroup(Frame(START_BUFFERING, []), RequestBytes(c.batch), Frame(STOP_BUFFERING, []));
    assert Bytes(c, 0, n + 2) == FrameAt(c, 0) + Bytes(c, 1, n + 2);
  }

  lemma {:induction false} AnswerBytesAre(c: Config, j: nat)
    requires j <= |c.batch|
    ensures AnswerBytes(c, 0, j) == Replies(c.batch[..j], payload => AnswerTo(c, payload))
  {
    if j == 0 {
    } else {
      AnswerBytesAre(c, j - 1);
      AnswerBytesSnoc(c, 0, j - 1);
      assert c.batch[..j][..j - 1] == c.batch[..j - 1];
    }
    hide Frame;
  }
}
