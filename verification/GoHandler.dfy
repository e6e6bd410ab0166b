/** The `handler` loop of the Go receiver (golang-receiver/main.go). */
module GoHandler {
  import opened Wire
  import opened Framing
  import opened Reading

  type Process = seq<byte> -> Message

  /** What the handler writes for an input, and whether it ends up buffering. Only the first read of a frame
      looks at its error: a frame that is cut short is filled up with zeros. */
  function Handled(input: seq<byte>, buffering: bool, answer: Process): (seq<byte>, bool)
    decreases |input|
  {
    if |input| < 4 then ([], buffering)
    else
      var length, t := Number(input[..4]), input[4..];
      var tag, rest := Number(Filled(t, 4)), Rest(t, 4);
      if tag == START_BUFFERING then Handled(rest, true, answer)
      else if tag == STOP_BUFFERING then Handled(rest, false, answer)
      else
        // any other tag is taken for a request
        var (more, b) := Handled(Rest(rest, length), buffering, answer);
        (Frame(RESPONSE, answer(Filled(rest, length))) + more, b)
  }

  /** `bufio.Writer.Write` of `p` behind `buffer`: what it passes on, and what it holds back. It passes bytes on
      only when they do not fit, and then a full buffer at a time, or all at once what is longer than a buffer. */
  function Put(capacity: nat, buffer: seq<byte>, p: seq<byte>): (r: (seq<byte>, seq<byte>))
    decreases |buffer|
  {
    var available := if |buffer| <= capacity then capacity - |buffer| else 0;
    if |p| <= available then ([], buffer + p)
    else if buffer == [] then (p, [])
    else
      var (out, held) := Put(capacity, [], p[available..]);
      (buffer + p[..available] + out, held)
  }

  /** The three writes of a reply. */
  function PutReply(capacity: nat, buffer: seq<byte>, response: Message): (seq<byte>, seq<byte>) {
    var (a, b) := Put(capacity, buffer, LittleEndian(|response|));
    var (c, d) := Put(capacity, b, LittleEndian(RESPONSE));
    var (e, f) := Put(capacity, d, response);
    (a + c + e, f)
  }

  /** No byte is lost or moved. */
  lemma {:induction false} PutKeeps(capacity: nat, buffer: seq<byte>, p: seq<byte>)
    ensures Put(capacity, buffer, p).0 + Put(capacity, buffer, p).1 == buffer + p
    ensures |buffer| <= capacity ==> |Put(capacity, buffer, p).1| <= capacity
    decreases |buffer|
  {
    var available := if |buffer| <= capacity then capacity - |buffer| else 0;
    if |p| > available && buffer != [] {
      PutKeeps(capacity, [], p[available..]);
      var (out, held) := Put(capacity, [], p[available..]);
      assert [] + p[available..] == p[available..] && p[..available] + p[available..] == p;
      Regroup(buffer + p[..available], out, held);
      Regroup(buffer, p[..available], p[available..]);
    }
  }

  lemma {:induction false} PutReplyKeeps(capacity: nat, buffer: seq<byte>, response: Message)
    ensures var (out, held) := PutReply(capacity, buffer, response);
      out + held == buffer + Frame(RESPONSE, response) && (|buffer| <= capacity ==> |held| <= capacity)
  {
    var x, y := LittleEndian(|response|), LittleEndian(RESPONSE);
    var (a, b) := Put(capacity, buffer, x);
    var (c, d) := Put(capacity, b, y);
    var (e, f) := Put(capacity, d, response);
    PutKeeps(capacity, buffer, x);
    PutKeeps(capacity, b, y);
    PutKeeps(capacity, d, response);
    hide Put, LittleEndian;
    Regroup(a + c, e, f);
    Regroup(a + c, d, response);
    Regroup(a, c, d);
    Regroup(a, b, y);
    Regroup4(buffer, x, y, response);
  }

  /** When nothing is held back. */
  lemma HoldsNothing(capacity: nat, buffer: seq<byte>, p: seq<byte>)
    requires |buffer| <= capacity
    ensures Put(capacity, buffer, p).1 == [] <==>
            if buffer == [] then p == [] || |p| > capacity else |p| > 2 * capacity - |buffer|
  {
  }

  /** A writer with room for a length, as any but the smallest, is left with nothing exactly by a response that
      fills it and is then longer than a whole buffer. */
  lemma {:induction false} ReplyLeavesNothing(capacity: nat, buffer: seq<byte>, response: Message)
    requires |buffer| <= capacity && capacity >= 4
    ensures var held := Put(capacity, Put(capacity, buffer, LittleEndian(|response|)).1, LittleEndian(RESPONSE)).1;
      && 1 <= |held| <= capacity
      && (PutReply(capacity, buffer, response).1 == [] <==> |response| > 2 * capacity - |held|)
  {
    var x, y := LittleEndian(|response|), LittleEndian(RESPONSE);
    PutKeeps(capacity, buffer, x);
    var b := Put(capacity, buffer, x).1;
    HoldsNothing(capacity, buffer, x);
    PutKeeps(capacity, b, y);
    var d := Put(capacity, b, y).1;
    HoldsNothing(capacity, b, y);
    HoldsNothing(capacity, d, response);
    hide Put, LittleEndian;
  }

  /** `bufio.Writer`. */
  class Writer {
    const conn: Connection
    const capacity: nat
    var buffer: seq<byte>

    constructor (conn: Connection, capacity: nat)
      ensures this.conn == conn && this.capacity == capacity && buffer == []
    {
      this.conn, this.capacity, buffer := conn, capacity, [];
    }

    method Write(bytes: seq<byte>)
      modifies this`buffer, conn`sent
      ensures conn.sent == old(conn.sent) + Put(capacity, old(buffer), bytes).0
      ensures buffer == Put(capacity, old(buffer), bytes).1
    {
      var p := bytes;
      while |p| > (if |buffer| <= capacity then capacity - |buffer| else 0)
        invariant var (out, held) := Put(capacity, buffer, p);
          && conn.sent + out == old(conn.sent) + Put(capacity, old(buffer), bytes).0
          && held == Put(capacity, old(buffer), bytes).1
        decreases |p| + |buffer|
      {
        var available := if |buffer| <= capacity then capacity - |buffer| else 0;
        if buffer == [] {
          // a large write to an empty buffer goes straight through
          assert conn.sent + p + [] == conn.sent + p;
          conn.Write(p);
          p := [];
        } else {
          Regroup(conn.sent, buffer + p[..available], Put(capacity, [], p[available..]).0);
          conn.Write(buffer + p[..available]);
          buffer, p := [], p[available..];
        }
      }
      assert conn.sent + [] == conn.sent;
      buffer := buffer + p;
    }

    method Flush()
      modifies this`buffer, conn`sent
      ensures conn.sent == old(conn.sent + buffer) && buffer == []
    {
      conn.Write(buffer);
      buffer := [];
    }
  }

  method Reply(writer: Writer, response: Message)
    modifies writer`buffer, writer.conn`sent
    ensures writer.conn.sent == old(writer.conn.sent) + PutReply(writer.capacity, old(writer.buffer), response).0
    ensures writer.buffer == PutReply(writer.capacity, old(writer.buffer), response).1
    ensures writer.conn.sent + writer.buffer == old(writer.conn.sent + writer.buffer) + Frame(RESPONSE, response)
  {
    ghost var sent, buffer, capacity := writer.conn.sent, writer.buffer, writer.capacity;
    PutReplyKeeps(capacity, buffer, response);
    ghost var (out, held) := PutReply(capacity, buffer, response);
    hide Put, Frame, LittleEndian;
    ghost var a := Put(capacity, buffer, LittleEndian(|response|));
    ghost var b := Put(capacity, a.1, LittleEndian(RESPONSE));
    ghost var e := Put(capacity, b.1, response);
    assert out == a.0 + b.0 + e.0 && held == e.1;
    hide PutReply;
    writer.Write(LittleEndian(|response|));
    writer.Write(LittleEndian(RESPONSE));
    writer.Write(response);
    Regroup4(sent, a.0, b.0, e.0);
    Regroup(sent, out, held);
    Regroup(sent, buffer, Frame(RESPONSE, response));
  }

  /** Of the replies, the first bytes have been sent, and what a writer holds back is missing, while buffering. */
  predicate SentOf(sent: seq<byte>, replies: seq<byte>, buffering: bool, capacity: nat) {
    sent <= replies && |replies| - |sent| <= if buffering then capacity else 0
  }

  /** By the time it asks for what follows the first `a.taken` bytes, the handler has sent nothing but replies to
      the whole frames among them, in order, and all of these if they leave buffering off. */
  predicate Prompt(input: seq<byte>, a: Ask, capacity: nat, answer: Process) {
    && a.taken <= |input|
    && var (replies, buffering) := Handled(Whole(input[..a.taken]), false, answer);
      SentOf(a.sent, replies, buffering, capacity)
  }

  ghost predicate AllPrompt(input: seq<byte>, asks: seq<Ask>, capacity: nat, answer: Process) {
    forall a :: a in asks ==> Prompt(input, a, capacity, answer)
  }

  /** The first reads of a turn: the length and the tag of the next frame. */
  method ReadHeader(conn: Connection, ghost input: seq<byte>, ghost written: seq<byte>, ghost buffering: bool,
                    ghost capacity: nat, ghost answer: Process)
    returns (reqLen: nat, tag: nat, ok: bool)
    requires conn.Valid() && AllPrompt(input, conn.asks, capacity, answer)
    requires !conn.over ==> Taken(input, conn.taken, Joined(conn.pieces), written, buffering, answer)
    requires SentOf(conn.sent, written, buffering, capacity)
    modifies conn`pieces, conn`taken, conn`asks, conn`over
    ensures conn.Valid() && AllPrompt(input, conn.asks, capacity, answer)
    ensures var now := old(Joined(conn.pieces));
      && (ok <==> |now| >= 4)
      && (ok ==> reqLen == Number(Filled(now, 4)) && tag == Number(Filled(Rest(now, 4), 4))
                 && Joined(conn.pieces) == Rest(Rest(now, 4), 4))
      && (ok && !conn.over ==>
            && !old(conn.over) && |now| >= 8 && conn.taken == old(conn.taken) + 8
            && reqLen == Number(now[..4]) && tag == Number(now[4..8]) && Joined(conn.pieces) == now[8..])
  {
    hide Frame, Number, Taken, AskedSince, Prompt, Handled;
    ghost var now, from, asks, over := Joined(conn.pieces), conn.taken, conn.asks, conn.over;
    TakenFits(input, from, now, written, buffering, over, answer);
    var requestLengthBinary, enough := ReadNumBytes(conn, 4);
    AsksArePrompt(input, asks, conn.asks, from, from, 4, |now|, now, conn.sent, written, buffering, over, capacity,
                  answer);
    if !enough {
      return 0, 0, false;
    }
    assert Filled(now, 4) == now[..4] && Rest(now, 4) == now[4..];
    asks, over := conn.asks, conn.over;
    var tagBinary, _ := ReadNumBytes(conn, 4);
    AsksArePrompt(input, asks, conn.asks, from, from + 4, 4, |now| - 4, now, conn.sent, written, buffering, over,
                  capacity, answer);
    assert |now| >= 8 ==> now[4..][..4] == now[4..8] && now[4..][4..] == now[8..];
    return Number(requestLengthBinary[..]), Number(tagBinary[..]), true;
  }

  /** The last read of a turn: the payload of a request. */
  method ReadPayload(conn: Connection, reqLen: nat, ghost input: seq<byte>, ghost from: nat, ghost now: seq<byte>,
                     ghost written: seq<byte>, ghost buffering: bool, ghost capacity: nat, ghost answer: Process)
    returns (payload: array<byte>)
    requires conn.Valid() && AllPrompt(input, conn.asks, capacity, answer)
    requires !conn.over ==>
               && |now| >= 8 && Taken(input, from, now, written, buffering, answer) && conn.taken == from + 8
               && reqLen == Number(now[..4]) && !IsControl(Number(now[4..8])) && Joined(conn.pieces) == now[8..]
    requires SentOf(conn.sent, written, buffering, capacity)
    modifies conn`pieces, conn`taken, conn`asks, conn`over
    ensures conn.Valid() && AllPrompt(input, conn.asks, capacity, answer) && fresh(payload)
    ensures payload[..] == Filled(old(Joined(conn.pieces)), reqLen)
    ensures Joined(conn.pieces) == Rest(old(Joined(conn.pieces)), reqLen)
    ensures !conn.over ==>
              Taken(input, conn.taken, Joined(conn.pieces), written + Frame(RESPONSE, answer(payload[..])), buffering,
                    answer)
  {
    hide Frame, Number, Taken, AskedSince, Prompt, Handled, IsControl;
    ghost var rest, at, asks, over := Joined(conn.pieces), conn.taken, conn.asks, conn.over;
    TakenFits(input, from, now, written, buffering, over, answer);
    var enough;
    payload, enough := ReadNumBytes(conn, reqLen);
    AsksArePrompt(input, asks, conn.asks, from, at, reqLen, |rest|, now, conn.sent, written, buffering, over,
                  capacity, answer);
    if !conn.over {
      assert rest[..reqLen] == now[8..8 + reqLen] && rest[reqLen..] == now[8 + reqLen..];
      FrameTaken(input, from, now, written, buffering, answer, 8 + reqLen);
    }
  }

  /** The whole life of a connection: whenever it waits for input, it has replied to what it has taken; and until
      the end of the input all replies are written in order, and all of them are sent if it ends with buffering
      off. Else the writer takes to its grave what is left in it. */
  method Handle(conn: Connection, capacity: nat, answer: Process) returns (left: seq<byte>)
    requires conn.Valid() && conn.Fresh() && conn.sent == []
    modifies conn
    ensures AllPrompt(old(Joined(conn.pieces)), conn.asks, capacity, answer)
    ensures var (replies, buffering) := Handled(old(Joined(conn.pieces)), false, answer);
      conn.sent + left == replies && |left| <= if buffering then capacity else 0
  {
    hide Frame, Number, Filled, Rest, Prompt, Taken, PutReply;
    var bufferedWriter := new Writer(conn, capacity);
    var buffering := false;
    ghost var input, written: seq<byte> := Joined(conn.pieces), [];
    assert conn.sent + bufferedWriter.buffer == written;
    HandledAfterNothing(input, false, answer);
    StartTaken(input, answer);
    while true
      invariant conn.Valid() && fresh(bufferedWriter) && bufferedWriter.conn == conn
      invariant bufferedWriter.capacity == capacity
      invariant conn.sent + bufferedWriter.buffer == written
      invariant |bufferedWriter.buffer| <= if buffering then capacity else 0
      invariant Handled(input, false, answer) == HandledAfter(written, Joined(conn.pieces), buffering, answer)
      invariant !conn.over ==> Taken(input, conn.taken, Joined(conn.pieces), written, buffering, answer)
      invariant AllPrompt(input, conn.asks, capacity, answer)
      decreases |Joined(conn.pieces)|
    {
      ghost var now, from := Joined(conn.pieces), conn.taken;
      HandledOnce(written, now, buffering, answer);
      hide HandledAfter, Handled, AllPrompt;
      var reqLen, tag, ok := ReadHeader(conn, input, written, buffering, capacity, answer);
      if !ok {
        return bufferedWriter.buffer;
      }
      LengthTaken(now);
      if !conn.over && IsControl(tag) {
        FrameTaken(input, from, now, written, buffering, answer, 8);
      }
      if tag == START_BUFFERING {
        buffering := true;
        continue;
      } else if tag == STOP_BUFFERING {
        buffering := false;
        bufferedWriter.Flush();
        assert conn.sent + bufferedWriter.buffer == conn.sent;
        continue;
      }
      var payload :=
        ReadPayload(conn, reqLen, input, from, now, written, buffering, capacity, answer);
      PutReplyKeeps(capacity, bufferedWriter.buffer, answer(payload[..]));
      Reply(bufferedWriter, answer(payload[..]));
      written := written + Frame(RESPONSE, answer(payload[..]));
      if !buffering {
        bufferedWriter.Flush();
        assert conn.sent + bufferedWriter.buffer == conn.sent;
      }
    }
  }

  function HandledAfter(written: seq<byte>, input: seq<byte>, buffering: bool, answer: Process): (seq<byte>, bool) {
    var (more, b) := Handled(input, buffering, answer);
    (written + more, b)
  }

  lemma {:induction false} HandledAfterNothing(input: seq<byte>, buffering: bool, answer: Process)
    ensures HandledAfter([], input, buffering, answer) == Handled(input, buffering, answer)
  {
    assert [] + Handled(input, buffering, answer).0 == Handled(input, buffering, answer).0;
  }

  lemma LengthTaken(input: seq<byte>)
    requires |input| >= 4
    ensures Filled(input, 4) == input[..4] && Rest(input, 4) == input[4..]
    ensures |Rest(Rest(input, 4), 4)| < |input| && forall n :: |Rest(Rest(Rest(input, 4), 4), n)| < |input|
  {
  }

  /** One turn of the loop. */
  lemma {:induction false} HandledOnce(written: seq<byte>, input: seq<byte>, buffering: bool, answer: Process)
    ensures HandledAfter(written, input, buffering, answer)
            == if |input| < 4 then (written, buffering)
               else
                 var length, t := Number(Filled(input, 4)), Rest(input, 4);
                 var tag, rest := Number(Filled(t, 4)), Rest(t, 4);
                 if tag == START_BUFFERING then HandledAfter(written, rest, true, answer)
                 else if tag == STOP_BUFFERING then HandledAfter(written, rest, false, answer)
                 else HandledAfter(written + Frame(RESPONSE, answer(Filled(rest, length))), Rest(rest, length),
                                   buffering, answer)
  {
    if |input| < 4 {
      assert written + [] == written;
    } else {
      LengthTaken(input);
      hide Number, Frame, Filled, Rest;
      var length, rest := Number(input[..4]), Rest(input[4..], 4);
      Regroup(written, Frame(RESPONSE, answer(Filled(rest, length))),
               Handled(Rest(rest, length), buffering, answer).0);
    }
  }

  // ---- Client and handler, one after the other -----------------------------------------------------------

  function Replies(batch: seq<Message>, answer: Process): seq<byte> {
    if batch == [] then []
    else Replies(batch[..|batch| - 1], answer) + Frame(RESPONSE, answer(batch[|batch| - 1]))
  }

  function Answers(batch: seq<Message>, answer: Process): (r: seq<Message>)
    ensures |r| == |batch| && forall i :: 0 <= i < |r| ==> r[i] == answer(batch[i])
  {
    seq(|batch|, i requires 0 <= i < |batch| => answer(batch[i]))
  }

  /** A whole frame is handled by its tag. */
  lemma {:induction false} HandledFrame(tag: nat, payload: Message, rest: seq<byte>, buffering: bool, answer: Process)
    requires tag <= LAST_TAG && (tag == START_BUFFERING || tag == STOP_BUFFERING ==> payload == [])
    ensures Handled(Frame(tag, payload) + rest, buffering, answer)
            == if tag == START_BUFFERING then Handled(rest, true, answer)
               else if tag == STOP_BUFFERING then Handled(rest, false, answer)
               else
                 (Frame(RESPONSE, answer(payload)) + Handled(rest, buffering, answer).0,
                  Handled(rest, buffering, answer).1)
  {
    var b := Frame(tag, payload);
    assert b == LittleEndian(|payload|) + LittleEndian(tag) + payload;
    NumberRoundTrip(|payload|);
    NumberRoundTrip(tag);
    hide LittleEndian, Number, Frame;
    var input := b + rest;
    assert input[..4] == LittleEndian(|payload|);
    assert Filled(input[4..], 4) == LittleEndian(tag);
    assert Rest(input[4..], 4) == payload + rest;
    assert Filled(payload + rest, |payload|) == payload && Rest(payload + rest, |payload|) == rest;
    hide Filled, Rest;
  }

  lemma {:induction false} HandledRequests(batch: seq<Message>, rest: seq<byte>, buffering: bool, answer: Process)
    ensures var (replies, b) := Handled(rest, buffering, answer);
      Handled(RequestBytes(batch) + rest, buffering, answer) == (Replies(batch, answer) + replies, b)
  {
    hide Handled, Frame;
    if batch == [] {
      assert [] + rest == rest && [] + Handled(rest, buffering, answer).0 == Handled(rest, buffering, answer).0;
    } else {
      var n := |batch| - 1;
      var frame := Frame(REQUEST, batch[n]);
      HandledRequests(batch[..n], frame + rest, buffering, answer);
      HandledFrame(REQUEST, batch[n], rest, buffering, answer);
      Regroup(RequestBytes(batch[..n]), frame, rest);
      Regroup(Replies(batch[..n], answer), Frame(RESPONSE, answer(batch[n])), Handled(rest, buffering, answer).0);
    }
  }

  /** The handler answers a batch in order and ends with buffering off. */
  lemma {:induction false} HandledBatch(batch: seq<Message>, answer: Process)
    ensures Handled(BatchBytes(batch), false, answer) == (Replies(batch, answer), false)
  {
    var start, stop, requests := Frame(START_BUFFERING, []), Frame(STOP_BUFFERING, []), RequestBytes(batch);
    Regroup(start, requests, stop);
    assert stop + [] == stop && Replies(batch, answer) + [] == Replies(batch, answer);
    HandledFrame(START_BUFFERING, [], requests + stop, false, answer);
    HandledRequests(batch, stop, true, answer);
    HandledFrame(STOP_BUFFERING, [], [], true, answer);
    assert Handled([], false, answer) == ([], false);
    hide Handled, Frame;
  }

  lemma {:induction false} ResponsesOfReplies(batch: seq<Message>, rest: seq<byte>, answer: Process, handle: Handler)
    ensures Responses(Replies(batch, answer) + rest, |batch|, handle) == Some((Answers(batch, answer), rest, []))
  {
    hide Frame, ReadFrame;
    if batch == [] {
      assert [] + rest == rest;
    } else {
      var n := |batch| - 1;
      var a := answer(batch[n]);
      ResponsesOfReplies(batch[..n], Frame(RESPONSE, a) + rest, answer, handle);
      Regroup(Replies(batch[..n], answer), Frame(RESPONSE, a), rest);
      FrameRoundTrip(RESPONSE, a, rest);
      assert Response(Frame(RESPONSE, a) + rest, handle) == Some((a, rest, []));
      assert Answers(batch, answer) == Answers(batch[..n], answer) + [a];
    }
  }

  /** What `sendRequests` makes of what `handler` makes of what `sendRequests` writes is one answer for each
      request, in order, with nothing left over. */
  lemma {:induction false} BatchRoundTrip(batch: seq<Message>, answer: Process, handle: Handler)
    ensures Responses(Handled(BatchBytes(batch), false, answer).0, |batch|, handle)
            == Some((Answers(batch, answer), [], []))
  {
    HandledBatch(batch, answer);
    ResponsesOfReplies(batch, [], answer, handle);
    assert Replies(batch, answer) + [] == Replies(batch, answer);
  }

  // ---- Frames that are cut short -------------------------------------------------------------------------

  predicate IsControl(tag: nat) {
    tag == START_BUFFERING || tag == STOP_BUFFERING
  }

  /** What is left of an input after its last whole frame. A control frame is its eight bytes, for its length is
      not looked at. */
  function Tail(input: seq<byte>): (t: seq<byte>)
    ensures |t| <= |input|
  {
    if |input| < 8 then input
    else if IsControl(Number(input[4..8])) then Tail(input[8..])
    else
      var length := Number(input[..4]);
      if |input| < 8 + length then input else Tail(input[8 + length..])
  }

  /** The whole frames. */
  function Whole(input: seq<byte>): seq<byte> {
    input[..|input| - |Tail(input)|]
  }

  /** The tag that is read of a cut frame. */
  function CutTag(tail: seq<byte>): nat
    requires |tail| >= 4
  {
    Number(Filled(tail[4..], 4))
  }

  /** How long the first frame is, if it is whole. */
  lemma {:induction false} FirstWhole(input: seq<byte>) returns (n: nat)
    ensures n == 0 <==> Tail(input) == input
    ensures n > 0 ==> 8 <= n <= |input| && Tail(input) == Tail(input[n..])
    ensures n > 0 ==> Whole(input) == input[..n] + Whole(input[n..])
    ensures n > 0 ==> n == 8 + (if IsControl(Number(input[4..8])) then 0 else Number(input[..4]))
  {
    if |input| < 8 || (!IsControl(Number(input[4..8])) && |input| < 8 + Number(input[..4])) {
      return 0;
    }
    n := 8 + if IsControl(Number(input[4..8])) then 0 else Number(input[..4]);
    hide Number, IsControl;
    var rest := input[n..];
    assert Whole(input) == input[..n] + rest[..|rest| - |Tail(rest)|];
  }

  /** A whole frame is handled without regard to what follows it. */
  lemma {:induction false} HandledFirst(frame: seq<byte>, rest: seq<byte>, buffering: bool, answer: Process)
    requires |frame| >= 8
    requires |frame| == 8 + if IsControl(Number(frame[4..8])) then 0 else Number(frame[..4])
    ensures var tag := Number(frame[4..8]);
      Handled(frame + rest, buffering, answer)
      == if tag == START_BUFFERING then Handled(rest, true, answer)
         else if tag == STOP_BUFFERING then Handled(rest, false, answer)
         else
           (Frame(RESPONSE, answer(frame[8..])) + Handled(rest, buffering, answer).0,
            Handled(rest, buffering, answer).1)
  {
    var input := frame + rest;
    hide Number, Frame;
    assert input[..4] == frame[..4];
    assert Filled(input[4..], 4) == frame[4..8];
    assert Rest(input[4..], 4) == frame[8..] + rest;
    var length := |frame| - 8;
    assert Filled(frame[8..] + rest, length) == frame[8..] && Rest(frame[8..] + rest, length) == rest;
    assert Rest(frame[8..] + rest, 0) == frame[8..] + rest;
    if IsControl(Number(frame[4..8])) {
      assert frame[8..] == [] && [] + rest == rest;
    }
    hide Filled, Rest;
  }

  /** The whole frames are handled first, and then the rest. */
  lemma {:induction false} HandledSplit(input: seq<byte>, buffering: bool, answer: Process)
    ensures var (replies, b) := Handled(Whole(input), buffering, answer);
      var (more, c) := Handled(Tail(input), b, answer);
      Handled(input, buffering, answer) == (replies + more, c)
    decreases |input|
  {
    hide Handled, Number, Frame, Tail, Whole, IsControl;
    var n := FirstWhole(input);
    if n == 0 {
      NothingWhole(input, buffering, answer);
    } else {
      var frame, rest := input[..n], input[n..];
      assert frame + rest == input && frame[4..8] == input[4..8] && frame[..4] == input[..4];
      HandledFirst(frame, rest, buffering, answer);
      HandledFirst(frame, Whole(rest), buffering, answer);
      var tag := Number(frame[4..8]);
      var b := if tag == START_BUFFERING then true else if tag == STOP_BUFFERING then false else buffering;
      HandledSplit(rest, b, answer);
      var (replies, c) := Handled(Whole(rest), b, answer);
      Regroup(Frame(RESPONSE, answer(frame[8..])), replies, Handled(Tail(rest), c, answer).0);
    }
  }

  lemma NothingWhole(input: seq<byte>, buffering: bool, answer: Process)
    requires Tail(input) == input
    ensures Whole(input) == [] && Handled([], buffering, answer) == ([], buffering)
    ensures [] + Handled(input, buffering, answer).0 == Handled(input, buffering, answer).0
  {
  }

  lemma {:induction false} TailIsCut(input: seq<byte>)
    ensures Tail(Tail(input)) == Tail(input)
    decreases |input|
  {
    var n := FirstWhole(input);
    hide Tail;
    if n == 0 {
    } else {
      TailIsCut(input[n..]);
    }
  }

  /** What a cut frame does: nothing if its length is cut; otherwise its tag, filled up with zeros, may be taken
      for a control frame, and else it is answered like a request whose missing bytes are zeros. */
  lemma {:induction false} HandledCut(tail: seq<byte>, buffering: bool, answer: Process)
    requires Tail(tail) == tail
    ensures Handled(tail, buffering, answer)
      == if |tail| < 4 then ([], buffering)
         else if CutTag(tail) == START_BUFFERING then ([], true)
         else if CutTag(tail) == STOP_BUFFERING then ([], false)
         else (Frame(RESPONSE, answer(Filled(Rest(tail, 8), Number(tail[..4])))), buffering)
  {
    if |tail| >= 4 {
      CutRest(tail);
      hide Number, Frame, Tail;
      assert Handled([], true, answer) == ([], true) && Handled([], false, answer) == ([], false);
      var response := Frame(RESPONSE, answer(Filled(Rest(tail, 8), Number(tail[..4]))));
      assert response + [] == response;
      hide Filled, Rest;
    }
  }

  lemma {:induction false} CutRest(tail: seq<byte>)
    requires Tail(tail) == tail && |tail| >= 4
    ensures Rest(tail[4..], 4) == Rest(tail, 8)
    ensures IsControl(CutTag(tail)) ==> Rest(tail, 8) == []
    ensures !IsControl(CutTag(tail)) ==> Rest(Rest(tail, 8), Number(tail[..4])) == []
  {
    if |tail| >= 8 {
      assert tail[4..][..4] == tail[4..8] && tail[4..][4..] == tail[8..];
      var n := FirstWhole(tail);
    }
    hide Number;
  }

  /** The replies are those of the whole frames exactly if the cut frame after them is shorter than a length or
      is taken for a control frame; and buffering is as they leave it unless it is so taken. Whatever the answers
      are. */
  lemma {:induction false} CutFrameShows(input: seq<byte>, buffering: bool, answer: Process)
    ensures var (replies, b) := Handled(Whole(input), buffering, answer);
      var tail := Tail(input);
      && (Handled(input, buffering, answer).0 == replies <==> |tail| < 4 || IsControl(CutTag(tail)))
      && (Handled(input, buffering, answer).1
          == if |tail| < 4 || !IsControl(CutTag(tail)) then b else CutTag(tail) == START_BUFFERING)
  {
    HandledSplit(input, buffering, answer);
    TailIsCut(input);
    HandledCut(Tail(input), Handled(Whole(input), buffering, answer).1, answer);
    hide Handled, Tail, Whole, Number, Frame, CutTag;
  }

  /** A request cut anywhere behind its length is answered, its missing bytes being zeros. */
  lemma {:induction false} CutRequest(m: Message, k: nat, buffering: bool, answer: Process)
    requires 4 <= k < 8 + |m|
    ensures Handled(Frame(REQUEST, m)[..k], buffering, answer)
            == (Frame(RESPONSE, answer(Filled(if k < 8 then [] else m[..k - 8], |m|))), buffering)
  {
    var b := Frame(REQUEST, m);
    assert b == LittleEndian(|m|) + LittleEndian(REQUEST) + m;
    NumberRoundTrip(|m|);
    NumberRoundTrip(REQUEST);
    var zeros := LittleEndian(REQUEST);
    assert zeros == [0, 0, 0, 0];
    hide LittleEndian, Number, Frame;
    var t := b[..k];
    assert t[..4] == LittleEndian(|m|);
    assert Filled(t[4..], 4) == zeros;
    assert Rest(t, 8) == if k < 8 then [] else m[..k - 8];
    if k >= 8 {
      assert t[4..8] == zeros;
    }
    assert Tail(t) == t;
    HandledCut(t, buffering, answer);
  }

  // ---- What has been taken -------------------------------------------------------------------------------

  lemma {:induction false} TailConcat(a: seq<byte>, b: seq<byte>)
    requires Tail(a) == []
    ensures Tail(a + b) == Tail(b)
    decreases |a|
  {
    var n := FirstWhole(a);
    if n == 0 {
      assert a + b == b;
    } else {
      assert (a + b)[4..8] == a[4..8] && (a + b)[..4] == a[..4] && (a + b)[n..] == a[n..] + b;
      hide Number, IsControl;
      TailConcat(a[n..], b);
    }
  }

  /** Whole frames are handled without regard to what follows them. */
  lemma {:induction false} HandledConcat(a: seq<byte>, b: seq<byte>, buffering: bool, answer: Process)
    requires Tail(a) == []
    ensures var (replies, c) := Handled(a, buffering, answer);
      var (more, d) := Handled(b, c, answer);
      Handled(a + b, buffering, answer) == (replies + more, d)
    decreases |a|
  {
    hide Handled, Number, Frame, Tail, IsControl;
    var n := FirstWhole(a);
    if n == 0 {
      assert a + b == b && Handled(a, buffering, answer) == ([], buffering) by {
        NothingWhole([], buffering, answer);
      }
      assert [] + Handled(b, buffering, answer).0 == Handled(b, buffering, answer).0;
    } else {
      var frame, rest := a[..n], a[n..];
      assert frame + rest == a && frame[4..8] == a[4..8] && frame[..4] == a[..4];
      Regroup(frame, rest, b);
      HandledFirst(frame, rest, buffering, answer);
      HandledFirst(frame, rest + b, buffering, answer);
      var tag := Number(frame[4..8]);
      var c := if tag == START_BUFFERING then true else if tag == STOP_BUFFERING then false else buffering;
      HandledConcat(rest, b, c, answer);
      var (replies, d) := Handled(rest, c, answer);
      Regroup(Frame(RESPONSE, answer(frame[8..])), replies, Handled(b, d, answer).0);
    }
  }

  /** The first `from` bytes are whole frames, handled with this outcome, and `now` is what follows. */
  predicate Taken(input: seq<byte>, from: nat, now: seq<byte>, written: seq<byte>, buffering: bool,
                  answer: Process)
  {
    && from <= |input| && input[from..] == now
    && Tail(input[..from]) == [] && Handled(input[..from], false, answer) == (written, buffering)
  }

  lemma {:induction false} StartTaken(input: seq<byte>, answer: Process)
    ensures Taken(input, 0, input, [], false, answer)
  {
    assert Tail([]) == [] && Handled([], false, answer) == ([], false);
    assert input[..0] == [] && input[0..] == input;
    hide Tail, Handled;
  }

  /** Up to the end of the next frame there is no further whole one. */
  lemma {:induction false} PartTaken(input: seq<byte>, from: nat, now: seq<byte>, written: seq<byte>,
                                     buffering: bool, answer: Process, k: nat)
    requires Taken(input, from, now, written, buffering, answer) && from <= k <= |input|
    requires k < from + 8 || (!IsControl(Number(now[4..8])) && k < from + 8 + Number(now[..4]))
    ensures Whole(input[..k]) == input[..from]
  {
    var part := input[from..k];
    assert input[..k] == input[..from] + part && part == now[..k - from];
    hide Handled;
    TailConcat(input[..from], part);
    assert Tail(part) == part by {
      if k >= from + 8 {
        assert part[4..8] == now[4..8] && part[..4] == now[..4];
      }
    }
    hide Tail;
  }

  /** One whole frame and nothing else. */
  lemma {:induction false} HandledOne(frame: seq<byte>, buffering: bool, answer: Process)
    requires |frame| >= 8
    requires |frame| == 8 + if IsControl(Number(frame[4..8])) then 0 else Number(frame[..4])
    ensures Tail(frame) == []
    ensures var tag := Number(frame[4..8]);
      Handled(frame, buffering, answer)
      == if IsControl(tag) then ([], tag == START_BUFFERING)
         else (Frame(RESPONSE, answer(frame[8..])), buffering)
  {
    assert Tail(frame) == [] by {
      assert frame[|frame|..] == [];
    }
    assert frame + [] == frame;
    hide Number, Tail;
    HandledFirst(frame, [], buffering, answer);
    assert forall b :: Handled([], b, answer) == ([], b);
    hide Handled, Frame;
    var response := Frame(RESPONSE, answer(frame[8..]));
    assert response + [] == response;
  }

  lemma {:induction false} FrameTaken(input: seq<byte>, from: nat, now: seq<byte>, written: seq<byte>,
                                      buffering: bool, answer: Process, n: nat)
    requires Taken(input, from, now, written, buffering, answer) && 8 <= n <= |now|
    requires n == 8 + if IsControl(Number(now[4..8])) then 0 else Number(now[..4])
    ensures var tag := Number(now[4..8]);
      if IsControl(tag) then Taken(input, from + n, now[n..], written, tag == START_BUFFERING, answer)
      else Taken(input, from + n, now[n..], written + Frame(RESPONSE, answer(now[8..n])), buffering, answer)
  {
    hide Handled, Tail, Number, Frame, IsControl;
    var a, frame := input[..from], now[..n];
    assert input[..from + n] == a + frame && input[from + n..] == now[n..];
    assert frame[4..8] == now[4..8] && frame[..4] == now[..4] && frame[8..] == now[8..n];
    TailConcat(a, frame);
    HandledConcat(a, frame, false, answer);
    HandledOne(frame, buffering, answer);
    assert written + [] == written;
  }

  /** Asking for more of a frame: everything before it has been replied to. */
  lemma {:induction false} AsksArePrompt(input: seq<byte>, asks: seq<Ask>, more: seq<Ask>, from: nat, at: nat,
                                         num: nat, have: nat, now: seq<byte>, sent: seq<byte>, written: seq<byte>,
                                         buffering: bool, over: bool, capacity: nat, answer: Process)
    requires AskedSince(asks, more, over, at, num, have, sent)
    requires !over ==>
               && Taken(input, from, now, written, buffering, answer) && from <= at && at + have <= |input|
               && (at + num <= from + 8
                   || (|now| >= 8 && !IsControl(Number(now[4..8])) && at + num <= from + 8 + Number(now[..4])))
    requires SentOf(sent, written, buffering, capacity)
    requires AllPrompt(input, asks, capacity, answer)
    ensures AllPrompt(input, more, capacity, answer)
  {
    hide Handled, Tail, Whole, Number, IsControl;
    forall a | a in more
      ensures Prompt(input, a, capacity, answer)
    {
      if a !in asks {
        var k :| 0 <= k < |more| && more[k] == a;
        assert more[|asks|..][k - |asks|] == a;
        PartTaken(input, from, now, written, buffering, answer, a.taken);
      }
    }
  }

  /** So a plain request, which asks for no buffering, is answered before the handler waits for anything else. */
  lemma {:induction false} AnsweredAtOnce(m: Message, later: seq<byte>, a: Ask, capacity: nat, answer: Process)
    requires Prompt(Frame(REQUEST, m) + later, a, capacity, answer) && a.taken == 8 + |m|
    ensures a.sent == Frame(RESPONSE, answer(m))
  {
    var frame := Frame(REQUEST, m);
    assert frame == LittleEndian(|m|) + LittleEndian(REQUEST) + m;
    NumberRoundTrip(|m|);
    NumberRoundTrip(REQUEST);
    assert (frame + later)[..a.taken] == frame;
    assert frame[..4] == LittleEndian(|m|) && frame[4..8] == LittleEndian(REQUEST) && frame[8..] == m;
    hide LittleEndian, Number, Frame, Handled;
    HandledOne(frame, false, answer);
    hide Tail;
    assert Whole(frame) == frame;
  }

  lemma {:induction false} TakenFits(input: seq<byte>, from: nat, now: seq<byte>, written: seq<byte>,
                                     buffering: bool, over: bool, answer: Process)
    ensures !over && Taken(input, from, now, written, buffering, answer) ==> from + |now| == |input|
  {
    hide Handled, Tail;
  }
}
