/** One channel between the Kotlin client (`sendRequest`, `readResponse` in ProcessDataExchange.kt) and the
    Python receiver (`receive`, `callback_handler`, `process_request` in main.py), as a step relation.
    Either side may, while it works for the other, ask the other to work: requests and callbacks nest to
    any depth on two call stacks that only exchange tagged frames. */
module NestedRpc {
  import opened Wire

  /** Messages are opaque: only tags decide what happens. */
  type Payload = seq<byte>

  datatype Tag =
    | REQUEST
    | RESPONSE
    | CALLBACK_REQUEST
    | CALLBACK_RESPONSE
    | OPEN_CHANNEL
    | DELETE_FROM_PERSISTENCE
    | START_BUFFERING
    | STOP_BUFFERING
    | STOP_RECEIVER

  /** A frame on the wire. `about` says for which request or callback it was written; it is a history
      mark that no step below looks at. */
  datatype Frame = Frame(tag: Tag, payload: Payload, about: nat)

  /** Kotlin activations: a `sendRequest` inside `readResponse`, or `handleRequest` running user code on a
      payload. */
  datatype ClientCall = Sending(request: nat) | Handling(callback: nat, payload: Payload)

  /** Python activations: `process_request` of a payload, or `callback_handler` in its read loop. */
  datatype PythonCall = Processing(request: nat, payload: Payload) | Awaiting(callback: nat)

  /** An exchange being opened (a request or callback request written) or closed (its answer written). */
  datatype Exchange = Exchange(isCallback: bool, id: nat)
  datatype Event = Opened(e: Exchange) | Closed(e: Exchange)

  /** What a finished call handed back to its caller. */
  datatype Outcome = Outcome(e: Exchange, frame: Frame)

  datatype State = State(
    client: seq<ClientCall>,
    python: seq<PythonCall>,
    toPython: seq<Frame>,
    toClient: seq<Frame>,
    next: nat,                        // the next history mark
    produced: map<Exchange, Payload>,       // what was written as the answer of each closed exchange
    returned: seq<Outcome>,        // what each finished call gave its caller
    failed: bool,                     // the receiver raised on a frame it cannot process
    history: seq<Event>
  )

  predicate Init(s: State) {
    s == State([], [], [], [], 0, map[], [], false, [])
  }

  function Top<T>(stack: seq<T>): T
    requires stack != []
  {
    stack[|stack| - 1]
  }

  function Pop<T>(stack: seq<T>): seq<T>
    requires stack != []
  {
    stack[..|stack| - 1]
  }

  // ---- Who may move ------------------------------------------------------------------------------------

  /** User code of the client runs: outside any call, or inside a callback handler. */
  predicate ClientRuns(s: State) {
    s.client == [] || Top(s.client).Handling?
  }

  /** The library call of the innermost request runs. */
  predicate PythonRuns(s: State) {
    s.python != [] && Top(s.python).Processing? && !s.failed
  }

  // ---- Steps ---------------------------------------------------------------------------------------------

  datatype Step =
    | ClientSends(payload: Payload)
    | ClientReads
    | ClientAnswers(payload: Payload)
    | PythonReads
    | PythonCallsBack(payload: Payload)
    | PythonAnswers(payload: Payload)

  predicate ByClient(step: Step) {
    step.ClientSends? || step.ClientReads? || step.ClientAnswers?
  }

  predicate Enabled(s: State, step: Step) {
    match step
    case ClientSends(_) => ClientRuns(s)
    case ClientReads => !ClientRuns(s) && s.toClient != []
    case ClientAnswers(_) => s.client != [] && Top(s.client).Handling?
    case PythonReads => !PythonRuns(s) && !s.failed && s.toPython != []
    case PythonCallsBack(_) => PythonRuns(s)
    case PythonAnswers(_) => PythonRuns(s)
  }

  function After(s: State, step: Step): State
    requires Enabled(s, step)
  {
    match step
    case ClientSends(payload) =>
      // framing.write(Tag.REQUEST, requestMessage), then readResponse
      s.(client := s.client + [Sending(s.next)],
         toPython := s.toPython + [Frame(REQUEST, payload, s.next)],
         next := s.next + 1,
         history := s.history + [Opened(Exchange(false, s.next))])
    case ClientReads =>
      var f := s.toClient[0];
      if f.tag == CALLBACK_REQUEST then
        s.(client := s.client + [Handling(f.about, f.payload)], toClient := s.toClient[1..])
      else
        // any other tag ends readResponse with this payload
        s.(client := Pop(s.client), toClient := s.toClient[1..],
           returned := s.returned + [Outcome(Exchange(false, Top(s.client).request), f)])
    case ClientAnswers(payload) =>
      // handleRequest returned: framing.write(Tag.CALLBACK_RESPONSE, callbackResponse)
      var e := Exchange(true, Top(s.client).callback);
      s.(client := Pop(s.client),
         toPython := s.toPython + [Frame(CALLBACK_RESPONSE, payload, e.id)],
         produced := s.produced[e := payload],
         history := s.history + [Closed(e)])
    case PythonReads =>
      var f := s.toPython[0];
      var rest := s.(toPython := s.toPython[1..]);
      if s.python == [] then
        // receive: process_request raises on every tag but REQUEST
        if f.tag == REQUEST then rest.(python := [Processing(f.about, f.payload)]) else rest.(failed := true)
      else if f.tag == CALLBACK_RESPONSE then
        rest.(python := Pop(s.python),
              returned := s.returned + [Outcome(Exchange(true, Top(s.python).callback), f)])
      else if f.tag == REQUEST then
        rest.(python := s.python + [Processing(f.about, f.payload)])
      else
        rest  // the loop of callback_handler passes over any other tag
    case PythonCallsBack(payload) =>
      s.(python := s.python + [Awaiting(s.next)],
         toClient := s.toClient + [Frame(CALLBACK_REQUEST, payload, s.next)],
         next := s.next + 1,
         history := s.history + [Opened(Exchange(true, s.next))])
    case PythonAnswers(payload) =>
      var e := Exchange(false, Top(s.python).request);
      s.(python := Pop(s.python),
         toClient := s.toClient + [Frame(RESPONSE, payload, e.id)],
         produced := s.produced[e := payload],
         history := s.history + [Closed(e)])
  }

  ghost predicate Next(s: State, t: State) {
    exists step: Step :: Enabled(s, step) && t == After(s, step)
  }

  ghost predicate IsRun(run: seq<State>) {
    && |run| > 0
    && Init(run[0])
    && forall i :: 0 < i < |run| ==> Next(run[i - 1], run[i])
  }

  // ---- The invariant ---------------------------------------------------------------------------------

  function ClientOpen(stack: seq<ClientCall>): seq<Exchange> {
    seq(|stack|, i requires 0 <= i < |stack| =>
      match stack[i] case Sending(n) => Exchange(false, n) case Handling(n, _) => Exchange(true, n))
  }

  function PythonOpen(stack: seq<PythonCall>): seq<Exchange> {
    seq(|stack|, i requires 0 <= i < |stack| =>
      match stack[i] case Processing(n, _) => Exchange(false, n) case Awaiting(n) => Exchange(true, n))
  }

  /** Requests and callbacks take turns, starting with a request. */
  predicate Alternates(open: seq<Exchange>) {
    forall i :: 0 <= i < |open| ==> open[i].isCallback == (i % 2 == 1)
  }

  /** The two stacks agree but for the exchange whose frame is on the wire, and there is one such frame at
      most. */
  predicate Inv(s: State) {
    var c, p := ClientOpen(s.client), PythonOpen(s.python);
    && !s.failed
    && Alternates(c) && Alternates(p)
    && match (s.toPython, s.toClient)
       case (out, back) =>
         if out == [] && back == [] then c == p
         else if |out| == 1 && back == [] then
           var f := out[0];
           if f.tag == REQUEST then c == p + [Exchange(false, f.about)]
           else
             && f.tag == CALLBACK_RESPONSE && p == c + [Exchange(true, f.about)]
             && Exchange(true, f.about) in s.produced && s.produced[Exchange(true, f.about)] == f.payload
         else if out == [] && |back| == 1 then
           var f := back[0];
           if f.tag == CALLBACK_REQUEST then p == c + [Exchange(true, f.about)]
           else
             && f.tag == RESPONSE && c == p + [Exchange(false, f.about)]
             && Exchange(false, f.about) in s.produced && s.produced[Exchange(false, f.about)] == f.payload
         else false
  }

  /** All exchanges in progress: the stack of the party that knows more. */
  function InProgress(s: State): seq<Exchange> {
    if |s.client| >= |s.python| then ClientOpen(s.client) else PythonOpen(s.python)
  }

  predicate Answering(s: State) {
    || (s.toClient != [] && s.toClient[0].tag == RESPONSE)
    || (s.toPython != [] && s.toPython[0].tag == CALLBACK_RESPONSE)
  }

  /** Marks are used once: what is in progress or answered is older than the next one, and an exchange in
      progress has an answer only while that answer is on the wire. */
  predicate Marks(s: State) {
    var open := InProgress(s);
    && (forall i :: 0 <= i < |open| ==> open[i].id < s.next)
    && (forall i, j :: 0 <= i < j < |open| ==> open[i].id < open[j].id)
    && (forall e :: e in s.produced ==> e.id < s.next)
    && (forall i :: 0 <= i < |open| && open[i] in s.produced ==> i == |open| - 1 && Answering(s))
  }

  /** Each finished call handed back the frame that was written as the answer of its own exchange. */
  predicate OwnAnswers(s: State) {
    forall o :: o in s.returned ==>
      && o.frame.about == o.e.id
      && o.frame.tag == (if o.e.isCallback then CALLBACK_RESPONSE else RESPONSE)
      && o.e in s.produced && s.produced[o.e] == o.frame.payload
  }

  /** The exchanges that are open after a history in which each closing matches the latest opening. */
  function Outstanding(history: seq<Event>): Option<seq<Exchange>> {
    if history == [] then Some([])
    else
      match (Outstanding(history[..|history| - 1]), history[|history| - 1])
      case (Some(open), Opened(e)) => Some(open + [e])
      case (Some(open), Closed(e)) =>
        if open != [] && Top(open) == e then Some(Pop(open)) else None
      case (None, _) => None
  }

  predicate Bracketed(s: State) {
    Outstanding(s.history) == Some(if s.toClient == [] then ClientOpen(s.client) else PythonOpen(s.python))
  }

  // ---- Every step keeps it -----------------------------------------------------------------------------

  lemma ClientPush(stack: seq<ClientCall>, call: ClientCall)
    ensures ClientOpen(stack + [call]) == ClientOpen(stack) + ClientOpen([call])
  {
  }

  lemma PythonPush(stack: seq<PythonCall>, call: PythonCall)
    ensures PythonOpen(stack + [call]) == PythonOpen(stack) + PythonOpen([call])
  {
  }

  lemma ClientPop(stack: seq<ClientCall>)
    requires stack != []
    ensures ClientOpen(Pop(stack)) == Pop(ClientOpen(stack))
    ensures ClientOpen(stack) == ClientOpen(Pop(stack)) + ClientOpen([Top(stack)])
  {
  }

  lemma PythonPop(stack: seq<PythonCall>)
    requires stack != []
    ensures PythonOpen(Pop(stack)) == Pop(PythonOpen(stack))
    ensures PythonOpen(stack) == PythonOpen(Pop(stack)) + PythonOpen([Top(stack)])
  {
  }

  /** Which kind of activation is on top decides who runs, and tells how deep the stack is. */
  lemma {:induction false} LastKinds(s: State)
    requires Inv(s)
    ensures var c, p := ClientOpen(s.client), PythonOpen(s.python);
      && |c| == |s.client| && |p| == |s.python|
      && (ClientRuns(s) <==> |c| % 2 == 0) && (PythonRuns(s) <==> |p| % 2 == 1)
      && (c != [] ==> (Top(c).isCallback <==> |c| % 2 == 0))
      && (p != [] ==> (Top(p).isCallback <==> |p| % 2 == 0))
  {
    var c, p := ClientOpen(s.client), PythonOpen(s.python);
    if c != [] {
      assert c[|c| - 1].isCallback == ((|c| - 1) % 2 == 1);
    }
    if p != [] {
      assert p[|p| - 1].isCallback == ((|p| - 1) % 2 == 1);
    }
  }

  /** While a frame is on the wire both parties wait. */
  lemma {:induction false} FrameStopsBoth(s: State)
    requires Inv(s) && (s.toPython != [] || s.toClient != [])
    ensures !ClientRuns(s) && !PythonRuns(s)
  {
    var c, p := ClientOpen(s.client), PythonOpen(s.python);
    LastKinds(s);
    var f := if s.toPython != [] then s.toPython[0] else s.toClient[0];
    var e := Exchange(f.tag == CALLBACK_RESPONSE || f.tag == CALLBACK_REQUEST, f.about);
    if e.isCallback {
      assert Top(p) == e == (c + [e])[|c|];
    } else {
      assert Top(c) == e == (p + [e])[|p|];
    }
  }

  /** The party that runs is alone: nothing is on the wire, and both stacks agree. */
  lemma {:induction false} RunnerIsAlone(s: State)
    requires Inv(s) && (ClientRuns(s) || PythonRuns(s))
    ensures s.toClient == [] && s.toPython == []
    ensures ClientOpen(s.client) == PythonOpen(s.python) == InProgress(s)
    ensures ClientRuns(s) <==> !PythonRuns(s)
  {
    LastKinds(s);
    if s.toPython != [] || s.toClient != [] {
      FrameStopsBoth(s);
      assert false;
    }
  }

  /** All four properties. */
  predicate Good(s: State) {
    Inv(s) && Marks(s) && OwnAnswers(s) && Bracketed(s)
  }

  lemma {:induction false} ClientSendsKeeps(s: State, payload: Payload)
    requires Good(s) && ClientRuns(s)
    ensures Good(After(s, ClientSends(payload)))
  {
    hide Outstanding;
    RunnerIsAlone(s);
    LastKinds(s);
    var t := After(s, ClientSends(payload));
    var e := Exchange(false, s.next);
    ClientPush(s.client, Sending(s.next));
    assert ClientOpen(t.client) == ClientOpen(s.client) + [e];
    Opening(s.history, e);
    assert InProgress(t) == InProgress(s) + [e];
  }

  lemma {:induction false} Opening(history: seq<Event>, e: Exchange)
    requires Outstanding(history).Some?
    ensures Outstanding(history + [Opened(e)]) == Some(Outstanding(history).value + [e])
  {
    var h := history + [Opened(e)];
    assert h[..|h| - 1] == history;
  }

  lemma {:induction false} Closing(history: seq<Event>, e: Exchange)
    requires Outstanding(history).Some? && Outstanding(history).value != [] && Top(Outstanding(history).value) == e
    ensures Outstanding(history + [Closed(e)]) == Some(Pop(Outstanding(history).value))
  {
    var h := history + [Closed(e)];
    assert h[..|h| - 1] == history;
  }

  lemma {:induction false} PythonCallsBackKeeps(s: State, payload: Payload)
    requires Good(s) && PythonRuns(s)
    ensures Good(After(s, PythonCallsBack(payload)))
  {
    hide Outstanding;
    RunnerIsAlone(s);
    LastKinds(s);
    var t := After(s, PythonCallsBack(payload));
    var e := Exchange(true, s.next);
    PythonPush(s.python, Awaiting(s.next));
    assert PythonOpen(t.python) == PythonOpen(s.python) + [e];
    Opening(s.history, e);
    assert InProgress(t) == InProgress(s) + [e];
  }

  /** Writing the answer of the latest exchange. */
  lemma {:induction false} AnswerWritten(s: State, t: State, e: Exchange, payload: Payload)
    requires Marks(s) && OwnAnswers(s) && !Answering(s) && Answering(t)
    requires InProgress(s) != [] && Top(InProgress(s)) == e && InProgress(t) == InProgress(s)
    requires t.produced == s.produced[e := payload] && t.next == s.next && t.returned == s.returned
    ensures Marks(t) && OwnAnswers(t)
  {
    hide InProgress, Answering;
    assert e !in s.produced;
  }

  lemma {:induction false} ClientAnswersKeeps(s: State, payload: Payload)
    requires Good(s) && Enabled(s, ClientAnswers(payload))
    ensures Good(After(s, ClientAnswers(payload)))
  {
    hide Outstanding, Marks, OwnAnswers;
    RunnerIsAlone(s);
    LastKinds(s);
    var t := After(s, ClientAnswers(payload));
    var c := ClientOpen(s.client);
    ClientPop(s.client);
    assert Top(c) == Exchange(true, Top(s.client).callback);
    Closing(s.history, Top(c));
    assert InProgress(t) == InProgress(s);
    assert c == Pop(c) + [Top(c)];
    AnswerWritten(s, t, Top(c), payload);
  }

  lemma {:induction false} PythonAnswersKeeps(s: State, payload: Payload)
    requires Good(s) && PythonRuns(s)
    ensures Good(After(s, PythonAnswers(payload)))
  {
    hide Outstanding, Marks, OwnAnswers;
    RunnerIsAlone(s);
    LastKinds(s);
    var t := After(s, PythonAnswers(payload));
    var p := PythonOpen(s.python);
    PythonPop(s.python);
    assert Top(p) == Exchange(false, Top(s.python).request);
    Closing(s.history, Top(p));
    assert InProgress(t) == InProgress(s);
    assert p == Pop(p) + [Top(p)];
    AnswerWritten(s, t, Top(p), payload);
  }

  lemma {:induction false} ClientReadsKeeps(s: State)
    requires Good(s) && Enabled(s, ClientReads)
    ensures Good(After(s, ClientReads))
  {
    hide Outstanding, Marks, OwnAnswers, Alternates;
    Incoming(s);
    var t := After(s, ClientReads);
    if s.toClient[0].tag == CALLBACK_REQUEST {
      assert t == s.(client := s.client + [Handling(s.toClient[0].about, s.toClient[0].payload)], toClient := []);
      ReadKeeps(s, t);
    } else {
      assert t == s.(client := Pop(s.client), toClient := [],
                     returned := s.returned + [Outcome(Exchange(false, s.toClient[0].about), s.toClient[0])]);
      ReadKeeps(s, t);
    }
  }

  lemma {:induction false} PythonReadsKeeps(s: State)
    requires Good(s) && Enabled(s, PythonReads)
    ensures Good(After(s, PythonReads))
  {
    hide Outstanding, Marks, OwnAnswers, Alternates;
    Incoming(s);
    var t := After(s, PythonReads);
    if s.toPython[0].tag == CALLBACK_RESPONSE {
      assert t == s.(python := Pop(s.python), toPython := [],
                     returned := s.returned + [Outcome(Exchange(true, s.toPython[0].about), s.toPython[0])]);
      ReadKeeps(s, t);
    } else {
      assert t == s.(python := s.python + [Processing(s.toPython[0].about, s.toPython[0].payload)], toPython := []);
      ReadKeeps(s, t);
    }
  }

  /** What a frame on the wire says about the two stacks, and what reading it makes of the reader's. */
  lemma {:induction false} Incoming(s: State)
    requires Inv(s)
    ensures var c, p := ClientOpen(s.client), PythonOpen(s.python);
      && (s.toPython != [] ==>
            var f := s.toPython[0];
            && s.toPython == [f] && s.toClient == []
            && (if f.tag == CALLBACK_RESPONSE then
                  && s.python != [] && Top(s.python) == Awaiting(f.about)
                  && PythonOpen(Pop(s.python)) == c && InProgress(s) == p == c + [Exchange(true, f.about)]
                else
                  && f.tag == REQUEST && InProgress(s) == c
                  && PythonOpen(s.python + [Processing(f.about, f.payload)]) == c
                  && (s.python == [] || Top(s.python).Awaiting?)
                  && s.client != [] && Top(s.client) == Sending(f.about)))
      && (s.toClient != [] ==>
            var f := s.toClient[0];
            && s.toClient == [f] && s.toPython == []
            && s.client != [] && Top(s.client).Sending?
            && (if f.tag == CALLBACK_REQUEST then
                  ClientOpen(s.client + [Handling(f.about, f.payload)]) == p && InProgress(s) == p
                else
                  && f.tag == RESPONSE && Top(s.client) == Sending(f.about)
                  && ClientOpen(Pop(s.client)) == p && InProgress(s) == c == p + [Exchange(false, f.about)]))
  {
    LastKinds(s);
    var c, p := ClientOpen(s.client), PythonOpen(s.python);
    if s.toPython != [] {
      var f := s.toPython[0];
      if f.tag == CALLBACK_RESPONSE {
        assert p[|c|] == Exchange(true, f.about);
        PythonPop(s.python);
        assert Pop(p) == c;
      } else {
        assert c[|p|] == Exchange(false, f.about);
        PythonPush(s.python, Processing(f.about, f.payload));
        assert PythonOpen([Processing(f.about, f.payload)]) == [Exchange(false, f.about)];
      }
    }
    if s.toClient != [] {
      var f := s.toClient[0];
      if f.tag == CALLBACK_REQUEST {
        assert p[|c|] == Exchange(true, f.about);
        ClientPush(s.client, Handling(f.about, f.payload));
        assert ClientOpen([Handling(f.about, f.payload)]) == [Exchange(true, f.about)];
      } else {
        assert c[|p|] == Exchange(false, f.about);
        ClientPop(s.client);
        assert Pop(c) == p;
      }
    }
  }

  /** A party that takes in the frame on the wire brings the two stacks together again. */
  lemma {:induction false} ReadKeeps(s: State, t: State)
    requires Good(s) && t.toPython == [] && t.toClient == []
    requires t.next == s.next && t.produced == s.produced && t.history == s.history && !t.failed
    requires ClientOpen(t.client) == PythonOpen(t.python)
    requires ClientOpen(t.client) == if s.toClient == [] then ClientOpen(s.client) else PythonOpen(s.python)
    requires if Answering(s) then
               && InProgress(s) != [] && ClientOpen(t.client) == Pop(InProgress(s))
               && exists o :: t.returned == s.returned + [o] && IsAnswer(s, o)
             else ClientOpen(t.client) == InProgress(s) && t.returned == s.returned
    ensures Good(t)
  {
    hide Outstanding;
    var open := InProgress(s);
    assert InProgress(t) == ClientOpen(t.client);
    assert Marks(t) by {
      forall i | 0 <= i < |InProgress(t)|
        ensures InProgress(t)[i] == open[i] && InProgress(t)[i] !in t.produced
      {
        assert i == |open| - 1 ==> !Answering(s);
      }
    }
  }

  /** The frame on the wire is the answer of `o.e`. */
  predicate IsAnswer(s: State, o: Outcome) {
    && o.frame.about == o.e.id
    && o.frame.tag == (if o.e.isCallback then CALLBACK_RESPONSE else RESPONSE)
    && o.e in s.produced && s.produced[o.e] == o.frame.payload
  }

  lemma {:induction false} StepKeeps(s: State, step: Step)
    requires Good(s) && Enabled(s, step)
    ensures Good(After(s, step))
  {
    hide Good, After;
    match step {
      case ClientSends(payload) => ClientSendsKeeps(s, payload);
      case ClientReads => ClientReadsKeeps(s);
      case ClientAnswers(payload) => ClientAnswersKeeps(s, payload);
      case PythonReads => PythonReadsKeeps(s);
      case PythonCallsBack(payload) => PythonCallsBackKeeps(s, payload);
      case PythonAnswers(payload) => PythonAnswersKeeps(s, payload);
    }
  }

  lemma {:induction false} RunKeeps(run: seq<State>, i: nat)
    requires IsRun(run) && i < |run|
    ensures Good(run[i])
  {
    hide Outstanding;
    if i > 0 {
      RunKeeps(run, i - 1);
      assert Next(run[i - 1], run[i]);
      var step :| Enabled(run[i - 1], step) && run[i] == After(run[i - 1], step);
      StepKeeps(run[i - 1], step);
    } else {
      NothingOutstanding();
      assert ClientOpen([]) == [] == PythonOpen([]);
    }
  }

  lemma NothingOutstanding()
    ensures Outstanding([]) == Some([])
  {
  }

  // ---- The theorems ----------------------------------------------------------------------------------

  /** In every reachable state one frame at most is on the wire, the receiver has not failed, and the frame
      that a blocked party will read is one it expects: a receiver outside any callback gets a REQUEST, one
      inside a callback a REQUEST or the answer to that very callback, and a client inside `sendRequest` a
      CALLBACK_REQUEST or the response to that very request. */
  lemma {:induction false} NoUnexpectedFrame(run: seq<State>, i: nat)
    requires IsRun(run) && i < |run|
    ensures var s := run[i];
      && !s.failed && |s.toPython| + |s.toClient| <= 1
      && (s.toPython != [] ==>
            var f := s.toPython[0];
            if f.tag == CALLBACK_RESPONSE then s.python != [] && Top(s.python) == Awaiting(f.about)
            else f.tag == REQUEST && (s.python == [] || Top(s.python).Awaiting?)
                 && s.client != [] && Top(s.client) == Sending(f.about))
      && (s.toClient != [] ==>
            var f := s.toClient[0];
            && s.client != [] && Top(s.client).Sending?
            && (f.tag == CALLBACK_REQUEST || (f.tag == RESPONSE && Top(s.client) == Sending(f.about))))
  {
    hide Outstanding, Bracketed, Marks, OwnAnswers;
    RunKeeps(run, i);
    Incoming(run[i]);
  }

  /** Each finished `sendRequest` returned the RESPONSE written for its own request, and each finished
      callback the CALLBACK_RESPONSE written for itself, with the payload written then; and a later answer
      never replaces it. */
  lemma {:induction false} CallersGetTheirOwnAnswer(run: seq<State>, i: nat, o: Outcome)
    requires IsRun(run) && i < |run| && o in run[i].returned
    ensures o.frame.about == o.e.id
    ensures o.frame.tag == if o.e.isCallback then CALLBACK_RESPONSE else RESPONSE
    ensures forall j :: i <= j < |run| ==> o.e in run[j].produced && run[j].produced[o.e] == o.frame.payload
  {
    hide Outstanding;
    RunKeeps(run, i);
    forall j | i <= j < |run|
      ensures o.e in run[j].produced && run[j].produced[o.e] == o.frame.payload
    {
      ReturnedStays(run, i, j, o);
      RunKeeps(run, j);
    }
  }

  lemma {:induction false} ReturnedStays(run: seq<State>, i: nat, j: nat, o: Outcome)
    requires IsRun(run) && i <= j < |run| && o in run[i].returned
    ensures o in run[j].returned
    decreases j
  {
    if i >= j {
    } else {
      ReturnedStays(run, i, j - 1, o);
      assert Next(run[j - 1], run[j]);
    }
  }

  /** The REQUEST and CALLBACK_REQUEST frames not yet answered form one well-bracketed stack: every answer
      written so far closed the latest exchange that was open when it was written. */
  lemma {:induction false} WellBracketed(run: seq<State>, i: nat)
    requires IsRun(run) && i < |run|
    ensures var s := run[i];
      && Outstanding(s.history).Some?
      && Alternates(Outstanding(s.history).value)
      && (s.toClient == [] && s.toPython == [] ==>
            Outstanding(s.history).value == ClientOpen(s.client) == PythonOpen(s.python))
  {
    hide Outstanding;
    RunKeeps(run, i);
  }

  /** The channel never jams and never races: in every reachable state exactly one of the two parties can
      take a step. */
  lemma {:induction false} OnePartyMoves(run: seq<State>, i: nat)
    requires IsRun(run) && i < |run|
    ensures (exists step :: ByClient(step) && Enabled(run[i], step))
            <==> !(exists step :: !ByClient(step) && Enabled(run[i], step))
  {
    hide Outstanding, Bracketed, Marks, OwnAnswers;
    RunKeeps(run, i);
    var s := run[i];
    LastKinds(s);
    if ClientRuns(s) || PythonRuns(s) {
      RunnerIsAlone(s);
      assert ClientRuns(s) ==> ByClient(ClientSends([])) && Enabled(s, ClientSends([]));
      assert PythonRuns(s) ==> !ByClient(PythonAnswers([])) && Enabled(s, PythonAnswers([]));
    } else {
      assert s.toClient != [] ==> ByClient(ClientReads) && Enabled(s, ClientReads);
      assert s.toPython != [] ==> !ByClient(PythonReads) && Enabled(s, PythonReads);
    }
  }

  // ---- What is sent is what arrives --------------------------------------------------------------------

  /** A run together with the steps it takes. */
  ghost predicate Follows(run: seq<State>, steps: seq<Step>) {
    && |run| == |steps| + 1 && Init(run[0])
    && forall i :: 0 <= i < |steps| ==> Enabled(run[i], steps[i]) && run[i + 1] == After(run[i], steps[i])
  }

  lemma {:induction false} FollowsIsRun(run: seq<State>, steps: seq<Step>)
    requires Follows(run, steps)
    ensures IsRun(run)
  {
    hide After, Enabled, Init;
    forall i | 0 < i < |run|
      ensures Next(run[i - 1], run[i])
    {
      assert Enabled(run[i - 1], steps[i - 1]) && run[i - 1 + 1] == After(run[i - 1], steps[i - 1]);
    }
  }

  /** The step asks for the exchange `e`, with the payload `p`. */
  predicate Opens(s: State, step: Step, e: Exchange, p: Payload) {
    e.id == s.next && step == if e.isCallback then PythonCallsBack(p) else ClientSends(p)
  }

  /** The step answers the exchange `e`, which is what its party works on, with the payload `p`. */
  predicate Closes(s: State, step: Step, e: Exchange, p: Payload) {
    if e.isCallback then
      && step == ClientAnswers(p) && s.client != []
      && Top(s.client).Handling? && Top(s.client).callback == e.id
    else
      && step == PythonAnswers(p) && s.python != []
      && Top(s.python).Processing? && Top(s.python).request == e.id
  }

  type Ledger = set<(Exchange, Payload)>

  function JustOpened(s: State, step: Step): (l: Ledger)
    ensures forall e, p :: (e, p) in l <==> Opens(s, step, e, p)
  {
    match step
    case ClientSends(p) => {(Exchange(false, s.next), p)}
    case PythonCallsBack(p) => {(Exchange(true, s.next), p)}
    case _ => {}
  }

  function JustClosed(s: State, step: Step): (l: Ledger)
    requires Enabled(s, step)
    ensures forall e, p :: (e, p) in l <==> Closes(s, step, e, p)
  {
    match step
    case ClientAnswers(p) => {(Exchange(true, Top(s.client).callback), p)}
    case PythonAnswers(p) => {(Exchange(false, Top(s.python).request), p)}
    case _ => {}
  }

  /** All that the first `i` steps have asked for, by the steps alone. */
  ghost function OpenedBy(run: seq<State>, steps: seq<Step>, i: nat): (l: Ledger)
    requires Follows(run, steps) && i <= |steps|
    ensures forall e, p :: (e, p) in l <==> exists j :: 0 <= j < i && Opens(run[j], steps[j], e, p)
  {
    if i == 0 then {} else OpenedBy(run, steps, i - 1) + JustOpened(run[i - 1], steps[i - 1])
  }

  /** All that they have answered. */
  ghost function ClosedBy(run: seq<State>, steps: seq<Step>, i: nat): (l: Ledger)
    requires Follows(run, steps) && i <= |steps|
    ensures forall e, p :: (e, p) in l <==> exists j :: 0 <= j < i && Closes(run[j], steps[j], e, p)
  {
    if i == 0 then {} else ClosedBy(run, steps, i - 1) + JustClosed(run[i - 1], steps[i - 1])
  }

  /** No exchange has two payloads. */
  predicate OncePerExchange(l: Ledger) {
    forall x, y :: x in l && y in l && x.0 == y.0 ==> x.1 == y.1
  }

  /** What is on its way or being worked on is what was asked for. */
  predicate Carries(s: State, asked: Ledger) {
    && OncePerExchange(asked) && (forall x :: x in asked ==> x.0.id < s.next)
    && (forall f :: f in s.toPython && f.tag == REQUEST ==> (Exchange(false, f.about), f.payload) in asked)
    && (forall f :: f in s.toClient && f.tag == CALLBACK_REQUEST ==> (Exchange(true, f.about), f.payload) in asked)
    && (forall c :: c in s.python && c.Processing? ==> (Exchange(false, c.request), c.payload) in asked)
    && (forall c :: c in s.client && c.Handling? ==> (Exchange(true, c.callback), c.payload) in asked)
  }

  /** The answers recorded are those that were given. */
  predicate Records(s: State, closed: Ledger) {
    && (forall e :: e in s.produced ==> (e, s.produced[e]) in closed)
    && (forall x :: x in closed ==> x.0 in s.produced && s.produced[x.0] == x.1)
  }

  lemma {:induction false} CarriesOn(s: State, step: Step, asked: Ledger)
    requires Enabled(s, step) && Carries(s, asked)
    ensures Carries(After(s, step), asked + JustOpened(s, step))
  {
  }

  lemma {:induction false} RecordsOn(s: State, step: Step, closed: Ledger)
    requires Good(s) && Enabled(s, step) && Records(s, closed)
    ensures Records(After(s, step), closed + JustClosed(s, step))
  {
    hide Outstanding, OwnAnswers, Bracketed;
    if step.ClientAnswers? || step.PythonAnswers? {
      RunnerIsAlone(s);
      var open := InProgress(s);
      var e := if step.ClientAnswers? then Exchange(true, Top(s.client).callback)
               else Exchange(false, Top(s.python).request);
      assert open[|open| - 1] == e;
      hide Inv, InProgress;
    }
  }

  lemma {:induction false} RunCarries(run: seq<State>, steps: seq<Step>, i: nat)
    requires Follows(run, steps) && i <= |steps|
    ensures Carries(run[i], OpenedBy(run, steps, i)) && Records(run[i], ClosedBy(run, steps, i))
  {
    hide After, Enabled, Good, JustOpened, JustClosed;
    if i == 0 {
    } else {
      RunCarries(run, steps, i - 1);
      FollowsIsRun(run, steps);
      RunKeeps(run, i - 1);
      hide Carries, Records;
      CarriesOn(run[i - 1], steps[i - 1], OpenedBy(run, steps, i - 1));
      RecordsOn(run[i - 1], steps[i - 1], ClosedBy(run, steps, i - 1));
    }
  }

  /** What a call returned is what the other party gave as the answer, to this very request or callback, at an
      earlier step; and no step ever gives another answer to it. */
  lemma {:induction false} AnswersArrive(run: seq<State>, steps: seq<Step>, i: nat, o: Outcome)
    requires Follows(run, steps) && i <= |steps| && o in run[i].returned
    ensures exists j :: 0 <= j < i && Closes(run[j], steps[j], o.e, o.frame.payload)
    ensures forall j, p :: 0 <= j < |steps| && Closes(run[j], steps[j], o.e, p) ==> p == o.frame.payload
  {
    hide After, Enabled, Closes, JustClosed, Carries;
    FollowsIsRun(run, steps);
    CallersGetTheirOwnAnswer(run, i, o);
    RunCarries(run, steps, i);
    RunCarries(run, steps, |steps|);
    assert (o.e, o.frame.payload) in ClosedBy(run, steps, i);
    forall j, p | 0 <= j < |steps| && Closes(run[j], steps[j], o.e, p)
      ensures p == o.frame.payload
    {
      assert (o.e, p) in ClosedBy(run, steps, |steps|);
    }
  }

  /** What a party works on is what the other asked for: by the one step that opened the exchange. */
  lemma {:induction false} RequestsArrive(run: seq<State>, steps: seq<Step>, i: nat, e: Exchange, p: Payload)
    requires Follows(run, steps) && i <= |steps|
    requires if e.isCallback then Handling(e.id, p) in run[i].client else Processing(e.id, p) in run[i].python
    ensures exists j :: 0 <= j < i && Opens(run[j], steps[j], e, p)
    ensures forall j, q :: 0 <= j < |steps| && Opens(run[j], steps[j], e, q) ==> q == p
  {
    hide After, Enabled, Opens, JustOpened, Records;
    RunCarries(run, steps, i);
    RunCarries(run, steps, |steps|);
    assert (e, p) in OpenedBy(run, steps, i);
    var j :| 0 <= j < i && Opens(run[j], steps[j], e, p);
    assert (e, p) in OpenedBy(run, steps, |steps|);
    forall j, q | 0 <= j < |steps| && Opens(run[j], steps[j], e, q)
      ensures q == p
    {
      assert (e, q) in OpenedBy(run, steps, |steps|);
    }
  }
}
