/** Tagged frames, and `SimpleBinaryFraming` and `sendRequests` of the Kotlin client (ProcessDataExchange.kt). */
module Framing {
  import opened Wire

  const REQUEST := 0
  const RESPONSE := 1
  const CALLBACK_REQUEST := 2
  const CALLBACK_RESPONSE := 3
  const START_BUFFERING := 6
  const STOP_BUFFERING := 7

  /** The last code of the Kotlin enumeration `Tag`. */
  const LAST_TAG := 8

  /** The longest byte array of Kotlin. */
  const MAX_ARRAY := TWO_31 - 1

  type Message = m: seq<byte> | |m| <= MAX_ARRAY

  // ---- Bytes -----------------------------------------------------------------------------------------------

  /** `Int.toByteArray` and `PutUint32`: four bytes, least significant first. */
  function LittleEndian(n: nat): (b: seq<byte>)
    requires n < TWO_32
    ensures |b| == 4
  {
    [n % 256, n / 256 % 256, n / 0x1_0000 % 256, n / 0x100_0000]
  }

  /** `Uint32`, and `ByteArray.toInt` of a value that is not negative. */
  function Number(b: seq<byte>): nat
    requires |b| == 4
  {
    (b[0] as int) + 256 * (b[1] as int) + 0x1_0000 * (b[2] as int) + 0x100_0000 * (b[3] as int)
  }

  /** The number that bytes denote to the base 256, the first of them being the least. */
  function Base256(b: seq<byte>): nat {
    if b == [] then 0 else (b[0] as int) + 256 * Base256(b[1..])
  }

  lemma {:induction false} NumberIsBase256(b: seq<byte>)
    requires |b| == 4
    ensures Number(b) == Base256(b)
  {
    assert b[3..][1..] == [] && b[2..][1..] == b[3..] && b[1..][1..] == b[2..];
    assert Base256(b[3..]) == b[3];
    assert Base256(b[2..]) == (b[2] as int) + 256 * (b[3] as int);
    assert Base256(b[1..]) == (b[1] as int) + 256 * Base256(b[2..]);
  }

  /** So there is one way to write a number. */
  lemma {:induction false} LittleEndianExact(n: nat, b: seq<byte>)
    requires n < TWO_32 && |b| == 4
    ensures b == LittleEndian(n) <==> Base256(b) == n
  {
    NumberIsBase256(b);
    NumberRoundTrip(n);
    var x: int, y: int, z: int := b[1], b[2], b[3];
    assert Number(b) / 256 == x + 256 * y + 0x1_0000 * z;
    assert Number(b) / 0x1_0000 == y + 256 * z && Number(b) / 0x100_0000 == z;
  }

  lemma {:induction false} NumberRoundTrip(n: nat)
    requires n < TWO_32
    ensures Number(LittleEndian(n)) == n
  {
    var a, b := n / 256, n / 0x1_0000;
    assert b == a / 256 && n / 0x100_0000 == b / 256;
  }

  function Frame(tag: nat, payload: Message): (b: seq<byte>)
    requires tag <= LAST_TAG
    ensures |b| == 8 + |payload|
  {
    LittleEndian(|payload|) + LittleEndian(tag) + payload
  }

  /** `framing.read`: the first frame of the input and what follows it. It fails on a short input, on a length
      that is negative as an Int, and on an unknown tag. */
  function ReadFrame(input: seq<byte>): (r: Option<(nat, Message, seq<byte>)>)
    ensures r.Some? ==> |r.value.2| + 8 <= |input|
  {
    if |input| < 8 then None
    else
      var length, tag := Number(input[..4]), Number(input[4..8]);
      if length > MAX_ARRAY || tag > LAST_TAG || |input| < 8 + length then None
      else Some((tag, input[8..8 + length], input[8 + length..]))
  }

  lemma {:induction false} FrameRoundTrip(tag: nat, payload: Message, rest: seq<byte>)
    requires tag <= LAST_TAG
    ensures ReadFrame(Frame(tag, payload) + rest) == Some((tag, payload, rest))
  {
    var b := Frame(tag, payload);
    assert b == LittleEndian(|payload|) + LittleEndian(tag) + payload;
    NumberRoundTrip(|payload|);
    NumberRoundTrip(tag);
    hide LittleEndian, Number, Frame;
    var input := b + rest;
    assert input[..4] == LittleEndian(|payload|) && input[4..8] == LittleEndian(tag);
    assert input[8..8 + |payload|] == payload && input[8 + |payload|..] == rest;
  }

  /** And only a frame is read as one. */
  lemma {:induction false} ReadFrameExact(input: seq<byte>)
    requires ReadFrame(input).Some?
    ensures var (tag, payload, rest) := ReadFrame(input).value;
      tag <= LAST_TAG && input == Frame(tag, payload) + rest
  {
    var (tag, payload, rest) := ReadFrame(input).value;
    NumberIsBase256(input[..4]);
    NumberIsBase256(input[4..8]);
    LittleEndianExact(|payload|, input[..4]);
    LittleEndianExact(tag, input[4..8]);
    hide Number, LittleEndian, Base256;
    assert input == input[..4] + input[4..8] + payload + rest;
  }

  /** The bytes of the frames that the parties send. */
  lemma {:induction false} FrameBytes(m: Message, n: byte)
    requires |m| == n
    ensures Frame(REQUEST, m) == [n, 0, 0, 0, 0, 0, 0, 0] + m
    ensures Frame(RESPONSE, m) == [n, 0, 0, 0, 1, 0, 0, 0] + m
    ensures Frame(CALLBACK_REQUEST, m) == [n, 0, 0, 0, 2, 0, 0, 0] + m
    ensures Frame(CALLBACK_RESPONSE, m) == [n, 0, 0, 0, 3, 0, 0, 0] + m
    ensures Frame(START_BUFFERING, []) == [0, 0, 0, 0, 6, 0, 0, 0]
    ensures Frame(STOP_BUFFERING, []) == [0, 0, 0, 0, 7, 0, 0, 0]
  {
    assert forall k: byte :: LittleEndian(k) == [k, 0, 0, 0];
    hide LittleEndian;
  }

  /** The frames of requests, one after the other. */
  function RequestBytes(batch: seq<Message>): seq<byte> {
    if batch == [] then [] else RequestBytes(batch[..|batch| - 1]) + Frame(REQUEST, batch[|batch| - 1])
  }

  /** All that `sendRequests` writes. */
  function BatchBytes(batch: seq<Message>): seq<byte> {
    Frame(START_BUFFERING, []) + RequestBytes(batch) + Frame(STOP_BUFFERING, [])
  }

  /** All frames of an input that holds nothing else. */
  function ReadFrames(input: seq<byte>): Option<seq<(nat, Message)>>
    decreases |input|
  {
    if input == [] then Some([])
    else
      match ReadFrame(input)
      case None => None
      case Some((tag, payload, rest)) =>
        match ReadFrames(rest)
        case None => None
        case Some(frames) => Some([(tag, payload)] + frames)
  }

  function Prefixed(frames: seq<(nat, Message)>, later: Option<seq<(nat, Message)>>): Option<seq<(nat, Message)>> {
    match later
    case None => None
    case Some(more) => Some(frames + more)
  }

  lemma {:induction false} ReadsFirst(tag: nat, payload: Message, rest: seq<byte>)
    requires tag <= LAST_TAG
    ensures ReadFrames(Frame(tag, payload) + rest) == Prefixed([(tag, payload)], ReadFrames(rest))
  {
    FrameRoundTrip(tag, payload, rest);
    hide Frame, ReadFrame;
  }

  function RequestFrames(batch: seq<Message>): seq<(nat, Message)> {
    seq(|batch|, i requires 0 <= i < |batch| => (REQUEST, batch[i]))
  }

  lemma {:induction false} ReadsRequests(batch: seq<Message>, rest: seq<byte>)
    ensures ReadFrames(RequestBytes(batch) + rest) == Prefixed(RequestFrames(batch), ReadFrames(rest))
  {
    hide ReadFrames, Frame;
    if batch == [] {
      assert [] + rest == rest && RequestFrames(batch) == [];
      assert ReadFrames(rest).Some? ==> [] + ReadFrames(rest).value == ReadFrames(rest).value;
    } else {
      var n := |batch| - 1;
      Regroup(RequestBytes(batch[..n]), Frame(REQUEST, batch[n]), rest);
      ReadsRequests(batch[..n], Frame(REQUEST, batch[n]) + rest);
      ReadsFirst(REQUEST, batch[n], rest);
      assert RequestFrames(batch) == RequestFrames(batch[..n]) + [(REQUEST, batch[n])];
      if ReadFrames(rest).Some? {
        Regroup(RequestFrames(batch[..n]), [(REQUEST, batch[n])], ReadFrames(rest).value);
      }
    }
  }

  /** Read back, a batch is an announcement, the requests in order, and the end of it. */
  lemma {:induction false} BatchIsFrames(batch: seq<Message>)
    ensures ReadFrames(BatchBytes(batch))
            == Some([(START_BUFFERING, [])] + RequestFrames(batch) + [(STOP_BUFFERING, [])])
  {
    var start, stop := Frame(START_BUFFERING, []), Frame(STOP_BUFFERING, []);
    Regroup(start, RequestBytes(batch), stop);
    assert stop + [] == stop && ReadFrames([]) == Some([]);
    hide ReadFrames, Frame, RequestBytes, RequestFrames;
    ReadsFirst(START_BUFFERING, [], RequestBytes(batch) + stop);
    ReadsRequests(batch, stop);
    ReadsFirst(STOP_BUFFERING, [], []);
    var first: seq<(nat, Message)>, last: seq<(nat, Message)> := [(START_BUFFERING, [])], [(STOP_BUFFERING, [])];
    assert last + [] == last;
    assert ReadFrames(stop) == Some(last);
    assert ReadFrames(RequestBytes(batch) + stop) == Some(RequestFrames(batch) + last);
    Regroup(first, RequestFrames(batch), last);
  }

  // ---- The client ------------------------------------------------------------------------------------------

  type Handler = Message -> Message

  /** `readResponse`: callbacks are handled and answered until another frame comes. The result is its payload,
      the input that is left and the bytes written meanwhile. */
  function Response(input: seq<byte>, handle: Handler): (r: Option<(Message, seq<byte>, seq<byte>)>)
    ensures r.Some? ==> |r.value.1| < |input|
    decreases |input|
  {
    match ReadFrame(input)
    case None => None
    case Some((tag, payload, rest)) =>
      if tag == CALLBACK_REQUEST then
        match Response(rest, handle)
        case None => None
        case Some((response, left, written)) =>
          Some((response, left, Frame(CALLBACK_RESPONSE, handle(payload)) + written))
      else Some((payload, rest, []))
  }

  /** The frames of callbacks, or of their answers. */
  function FramesOf(tag: nat, messages: seq<Message>): seq<byte>
    requires tag <= LAST_TAG
  {
    if messages == [] then [] else Frame(tag, messages[0]) + FramesOf(tag, messages[1..])
  }

  function AllHandled(callbacks: seq<Message>, handle: Handler): (r: seq<Message>)
    ensures |r| == |callbacks| && forall i :: 0 <= i < |r| ==> r[i] == handle(callbacks[i])
  {
    seq(|callbacks|, i requires 0 <= i < |callbacks| => handle(callbacks[i]))
  }

  /** Any number of callbacks are answered in order, and the first other frame is the response. */
  lemma {:induction false} ResponseAfterCallbacks(callbacks: seq<Message>, tag: nat, payload: Message,
                                                  rest: seq<byte>, handle: Handler)
    requires tag <= LAST_TAG && tag != CALLBACK_REQUEST
    ensures Response(FramesOf(CALLBACK_REQUEST, callbacks) + (Frame(tag, payload) + rest), handle)
            == Some((payload, rest, FramesOf(CALLBACK_RESPONSE, AllHandled(callbacks, handle))))
    decreases |callbacks|
  {
    hide Frame, ReadFrame;
    if callbacks == [] {
      FrameRoundTrip(tag, payload, rest);
      assert [] + (Frame(tag, payload) + rest) == Frame(tag, payload) + rest;
    } else {
      var later := FramesOf(CALLBACK_REQUEST, callbacks[1..]) + (Frame(tag, payload) + rest);
      ResponseAfterCallbacks(callbacks[1..], tag, payload, rest, handle);
      Regroup(Frame(CALLBACK_REQUEST, callbacks[0]), FramesOf(CALLBACK_REQUEST, callbacks[1..]),
              Frame(tag, payload) + rest);
      FrameRoundTrip(CALLBACK_REQUEST, callbacks[0], later);
      assert AllHandled(callbacks, handle)[1..] == AllHandled(callbacks[1..], handle);
    }
  }

  type Read = Option<(Message, seq<byte>, seq<byte>)>

  /** The same with `written` written before. */
  function Having(written: seq<byte>, r: Read): Read {
    match r
    case None => None
    case Some((response, left, more)) => Some((response, left, written + more))
  }

  lemma {:induction false} HavingNothing(r: Read)
    ensures Having([], r) == r
  {
    if r.Some? {
      assert [] + r.value.2 == r.value.2;
    }
  }

  /** One turn of the loop. */
  lemma {:induction false} HavingAnswered(written: seq<byte>, input: seq<byte>, handle: Handler)
    ensures Having(written, Response(input, handle))
            == match ReadFrame(input)
               case None => None
               case Some((tag, payload, rest)) =>
                 if tag == CALLBACK_REQUEST then
                   Having(written + Frame(CALLBACK_RESPONSE, handle(payload)), Response(rest, handle))
                 else Some((payload, rest, written))
  {
    hide Frame, ReadFrame;
    assert written + [] == written;
    if ReadFrame(input).Some? {
      var (_, payload, rest) := ReadFrame(input).value;
      var reply := Frame(CALLBACK_RESPONSE, handle(payload));
      var later := Response(rest, handle);
      assert later.Some? ==> written + (reply + later.value.2) == written + reply + later.value.2;
    }
  }

  function Responses(input: seq<byte>, n: nat, handle: Handler): (r: Option<(seq<Message>, seq<byte>, seq<byte>)>)
    ensures r.Some? ==> |r.value.0| == n
  {
    if n == 0 then Some(([], input, []))
    else
      match Responses(input, n - 1, handle)
      case None => None
      case Some((before, rest, written)) =>
        match Response(rest, handle)
        case None => None
        case Some((response, left, more)) => Some((before + [response], left, written + more))
  }

  /** What the client has sent, and what it holds back, when it waits for a frame. */
  datatype Wait = Wait(output: seq<byte>, held: seq<byte>)

  /** The answers to the first `k` frames of the input, callbacks all of them. */
  function CallbackAnswers(input: seq<byte>, k: nat, handle: Handler): seq<byte> {
    if k == 0 then []
    else
      match ReadFrame(input)
      case None => []
      case Some((_, payload, rest)) => Frame(CALLBACK_RESPONSE, handle(payload)) + CallbackAnswers(rest, k - 1, handle)
  }

  /** With nothing held back and each callback answered, `before` having been sent at first. */
  predicate SentBefore(waits: seq<Wait>, before: seq<byte>, input: seq<byte>, handle: Handler) {
    forall k :: 0 <= k < |waits| ==> waits[k] == Wait(before + CallbackAnswers(input, k, handle), [])
  }

  class SimpleBinaryFraming {
    var input: seq<byte>
    var stream: seq<byte>  // in the BufferedOutputStream
    var output: seq<byte>  // passed on by it
    var buffering: bool
    ghost var waits: seq<Wait>

    constructor (input: seq<byte>)
      ensures this.input == input && stream == [] && output == [] && !buffering && waits == []
    {
      this.input, stream, output, buffering, waits := input, [], [], false, [];
    }

    /** `read`, which waits for the other party. */
    method Read() returns (frame: Option<(nat, Message, seq<byte>)>)
      modifies this`input, this`waits
      ensures frame == ReadFrame(old(input)) && input == if frame.Some? then frame.value.2 else old(input)
      ensures waits == old(waits) + [Wait(output, stream)]
    {
      waits := waits + [Wait(output, stream)];
      frame := ReadFrame(input);
      if frame.Some? {
        input := frame.value.2;
      }
    }

    /** `BufferedOutputStream.write`: how much it passes on at once is its own affair. */
    method Put(bytes: seq<byte>)
      modifies this`stream, this`output
      ensures output + stream == old(output + stream) + bytes
    {
      var all := stream + bytes;
      var k: nat :| k <= |all|;
      assert all == all[..k] + all[k..];
      output, stream := output + all[..k], all[k..];
    }

    method Flush()
      modifies this`stream, this`output
      ensures output == old(output + stream) && stream == []
    {
      output, stream := output + stream, [];
    }

    method Write(tag: nat, message: Message)
      requires tag <= LAST_TAG
      modifies this`stream, this`output
      ensures output + stream == old(output + stream) + Frame(tag, message)
      ensures !buffering ==> stream == []
    {
      Put(LittleEndian(|message|));
      Put(LittleEndian(tag));
      Put(message);
      Regroup4(old(output + stream), LittleEndian(|message|), LittleEndian(tag), message);
      if !buffering {
        Flush();
        assert output + stream == output;
      }
    }

    method SetBuffering(value: bool)
      modifies this`stream, this`output, this`buffering
      ensures buffering == value && stream == []
      ensures output == old(output + stream) + Frame(if value then START_BUFFERING else STOP_BUFFERING, [])
    {
      buffering := value;
      Write(if value then START_BUFFERING else STOP_BUFFERING, []);
      Flush();
    }

    method ReadResponse(handle: Handler) returns (response: Option<Message>)
      modifies this`input, this`stream, this`output, this`waits
      ensures old(waits) < waits
      ensures !buffering && old(stream) == [] ==> SentBefore(waits[|old(waits)|..], old(output), old(input), handle)
      ensures var r := Response(old(input), handle);
        && response.Some? == r.Some?
        && (r.Some? ==> response.value == r.value.0 && input == r.value.1
                        && output + stream == old(output + stream) + r.value.2)
      ensures !buffering && old(stream) == [] ==> stream == []
    {
      hide Frame, Response, ReadFrame, Having, CallbackAnswers, AnsweredSoFar, WaitedSince;
      ghost var written: seq<byte> := [];
      ghost var k, before, sent, start, direct := 0, waits, output, input, !buffering && stream == [];
      NothingAnswered(input, handle);
      NotWaited(waits, sent, start, direct, handle);
      assert output + stream + [] == output + stream;
      HavingNothing(Response(input, handle));
      while true
        invariant Response(old(input), handle) == Having(written, Response(input, handle))
        invariant output + stream == old(output + stream) + written
        invariant direct ==> stream == []
        invariant AnsweredSoFar(start, input, k, written, handle)
        invariant WaitedSince(before, waits, k, sent, start, direct, handle)
        decreases |input|
      {
        HavingAnswered(written, input, handle);
        OneMoreAnswered(start, input, k, written, handle);
        assert output + [] == output && sent + [] == sent;
        WaitedOnce(before, waits, k, sent, start, direct, Wait(output, stream), handle);
        var frame := Read();
        WaitedMeans(before, waits, k + 1, sent, start, direct, handle);
        if frame == None {
          return None;
        }
        var (tag, payload, rest) := frame.value;
        if tag != CALLBACK_REQUEST {
          return Some(payload);
        }
        Write(CALLBACK_RESPONSE, handle(payload));
        ghost var reply := Frame(CALLBACK_RESPONSE, handle(payload));
        Regroup(old(output + stream), written, reply);
        written, k := written + reply, k + 1;
      }
    }

    /** `sendRequest`: by the time it waits for the response, the request has been sent. */
    method SendRequest(message: Message, handle: Handler) returns (response: Option<Message>)
      requires !buffering && stream == []
      modifies this`input, this`stream, this`output, this`waits
      ensures old(waits) < waits
      ensures SentBefore(waits[|old(waits)|..], old(output) + Frame(REQUEST, message), old(input), handle)
      ensures var r := Response(old(input), handle);
        && response.Some? == r.Some?
        && (r.Some? ==> response.value == r.value.0 && input == r.value.1
                        && output == old(output) + Frame(REQUEST, message) + r.value.2)
      ensures stream == []
    {
      hide Frame, Response, CallbackAnswers;
      Write(REQUEST, message);
      assert old(output + stream) == old(output) && output + stream == output;
      ghost var sent := output;
      response := ReadResponse(handle);
      assert output + stream == output;
    }

    /** `sendRequests`: what it writes, and what it makes of what it reads. */
    method SendRequests(batch: seq<Message>, handle: Handler) returns (responses: Option<seq<Message>>)
      modifies this
      ensures var r := Responses(old(input), |batch|, handle);
        && responses.Some? == r.Some?
        && (r.Some? ==> responses.value == r.value.0 && input == r.value.1
                        && output == old(output + stream) + BatchBytes(batch) + r.value.2
                        && stream == [] && !buffering)
      ensures old(waits) <= waits && AllWaited(waits[|old(waits)|..], old(output + stream) + BatchBytes(batch))
    {
      hide Frame, Response, AllWaited;
      ghost var before := output + stream;
      SetBuffering(true);
      ghost var start := Frame(START_BUFFERING, []);
      assert output + stream == before + start + [];
      for i := 0 to |batch|
        invariant buffering && input == old(input) && waits == old(waits)
        invariant output + stream == before + start + RequestBytes(batch[..i])
      {
        assert batch[..i + 1][..i] == batch[..i];
        Write(REQUEST, batch[i]);
        Regroup(before + start, RequestBytes(batch[..i]), Frame(REQUEST, batch[i]));
      }
      assert batch[..|batch|] == batch;
      SetBuffering(false);
      Regroup4(before, start, RequestBytes(batch), Frame(STOP_BUFFERING, []));
      assert output == before + BatchBytes(batch);
      hide BatchBytes, RequestBytes;
      responses := ReadResponses(|batch|, handle);
    }

    /** The second loop of `sendRequests`. */
    method ReadResponses(n: nat, handle: Handler) returns (responses: Option<seq<Message>>)
      requires stream == [] && !buffering
      modifies this`input, this`stream, this`output, this`waits
      ensures var r := Responses(old(input), n, handle);
        && responses.Some? == r.Some?
        && (r.Some? ==> responses.value == r.value.0 && input == r.value.1 && output == old(output) + r.value.2)
      ensures stream == [] && old(waits) <= waits && AllWaited(waits[|old(waits)|..], old(output))
    {
      hide Frame, Response, AllWaited, SentBefore, CallbackAnswers;
      ghost var sent, written := output, [];
      NoWaits(sent);
      assert waits[|waits|..] == [];
      var list: seq<Message> := [];
      assert output == sent + written;
      for i := 0 to n
        invariant stream == [] && output == sent + written
        invariant Responses(old(input), i, handle) == Some((list, input, written))
        invariant old(waits) <= waits && AllWaited(waits[|old(waits)|..], sent)
      {
        ghost var waited, now := waits, input;
        var response := ReadResponse(handle);
        WaitedMore(waited[|old(waits)|..], waits[|waited|..], sent, sent + written, handle, now);
        assert waits[|old(waits)|..] == waited[|old(waits)|..] + waits[|waited|..];
        if response == None {
          RepliesMissing(old(input), i + 1, n, handle);
          return None;
        }
        list := list + [response.value];
        ghost var more := Response(now, handle).value.2;
        Regroup(sent, written, more);
        assert output + stream == output;
        written := written + more;
      }
      return Some(list);
    }
  }

  lemma NoWaits(sent: seq<byte>)
    ensures AllWaited([], sent)
  {
  }

  /** Whenever the client has waited, all of `sent` had been sent. */
  predicate AllWaited(waits: seq<Wait>, sent: seq<byte>) {
    forall w :: w in waits ==> w.held == [] && sent <= w.output
  }

  lemma WaitedMore(waits: seq<Wait>, more: seq<Wait>, sent: seq<byte>, before: seq<byte>, handle: Handler,
                   input: seq<byte>)
    requires AllWaited(waits, sent) && SentBefore(more, before, input, handle) && sent <= before
    ensures AllWaited(waits + more, sent)
  {
  }

  /** What `k` callbacks were answered is `written`, and so on with `input`. */
  ghost predicate AnsweredSoFar(start: seq<byte>, input: seq<byte>, k: nat, written: seq<byte>, handle: Handler) {
    forall j: nat :: CallbackAnswers(start, k + j, handle) == written + CallbackAnswers(input, j, handle)
  }

  /** `k` times the client has waited since `before`, with all it had to send having been sent, if it writes
      directly. */
  ghost predicate WaitedSince(before: seq<Wait>, now: seq<Wait>, k: nat, sent: seq<byte>, input: seq<byte>,
                              direct: bool, handle: Handler)
  {
    |now| == |before| + k && before <= now && (direct ==> SentBefore(now[|before|..], sent, input, handle))
  }

  lemma NotWaited(waits: seq<Wait>, sent: seq<byte>, input: seq<byte>, direct: bool, handle: Handler)
    ensures WaitedSince(waits, waits, 0, sent, input, direct, handle)
  {
  }

  lemma {:induction false} WaitedOnce(before: seq<Wait>, now: seq<Wait>, k: nat, sent: seq<byte>, input: seq<byte>,
                                      direct: bool, w: Wait, handle: Handler)
    requires WaitedSince(before, now, k, sent, input, direct, handle)
    requires direct ==> w == Wait(sent + CallbackAnswers(input, k, handle), [])
    ensures WaitedSince(before, now + [w], k + 1, sent, input, direct, handle)
  {
    assert (now + [w])[|before|..] == now[|before|..] + [w];
    hide CallbackAnswers;
  }

  lemma WaitedMeans(before: seq<Wait>, now: seq<Wait>, k: nat, sent: seq<byte>, input: seq<byte>, direct: bool,
                    handle: Handler)
    requires WaitedSince(before, now, k, sent, input, direct, handle) && k > 0
    ensures before < now && (direct ==> SentBefore(now[|before|..], sent, input, handle))
  {
  }

  lemma NothingAnswered(input: seq<byte>, handle: Handler)
    ensures AnsweredSoFar(input, input, 0, [], handle)
  {
  }

  lemma {:induction false} OneMoreAnswered(start: seq<byte>, input: seq<byte>, k: nat, written: seq<byte>,
                                           handle: Handler)
    requires AnsweredSoFar(start, input, k, written, handle)
    ensures CallbackAnswers(start, k, handle) == written
    ensures match ReadFrame(input)
            case None => true
            case Some((_, payload, rest)) =>
              AnsweredSoFar(start, rest, k + 1, written + Frame(CALLBACK_RESPONSE, handle(payload)), handle)
  {
    assert CallbackAnswers(input, 0, handle) == [] && written + [] == written;
    assert CallbackAnswers(start, k + 0, handle) == written;
    hide ReadFrame, Frame;
    if ReadFrame(input).Some? {
      var (_, payload, rest) := ReadFrame(input).value;
      forall j: nat
        ensures CallbackAnswers(start, k + 1 + j, handle)
                == written + Frame(CALLBACK_RESPONSE, handle(payload)) + CallbackAnswers(rest, j, handle)
      {
        assert CallbackAnswers(start, k + (j + 1), handle) == written + CallbackAnswers(input, j + 1, handle);
        Regroup(written, Frame(CALLBACK_RESPONSE, handle(payload)), CallbackAnswers(rest, j, handle));
      }
    }
  }

  lemma {:induction false} RepliesMissing(input: seq<byte>, m: nat, n: nat, handle: Handler)
    requires m <= n && Responses(input, m, handle) == None
    ensures Responses(input, n, handle) == None
    decreases n
  {
    if m >= n {
    } else {
      RepliesMissing(input, m, n - 1, handle);
    }
  }

  lemma Regroup4(a: seq<byte>, b: seq<byte>, c: seq<byte>, d: seq<byte>)
    ensures a + b + c + d == a + (b + c + d)
  {
  }
}
