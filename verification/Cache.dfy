/** `CachingProcessDataExchange` (ProcessDataExchange.kt): ask the backend for several requests at once when
    the cache manager foresees them, and hand out the responses as the requests come. */
module Cache {
  import opened Wire

  /** Requests are data classes: their equality leaves out the assigned id, which is a property of the
      superclass. */
  datatype Request = Request(call: nat, assignedId: string)

  predicate Same(a: Request, b: Request) {
    a.call == b.call
  }

  type Response = string

  /** What the backend does with a request in a state. */
  type Step<!S> = (S, Request) -> (S, Response)

  /** What the manager foresees when it is asked for the `k`-th time. */
  type Manager = (nat, Request) -> seq<Request>

  /** The bare backend, request by request. */
  function Perform<S>(step: Step<S>, s: S, rs: seq<Request>): (r: (S, seq<Response>))
    ensures |r.1| == |rs|
  {
    if rs == [] then (s, [])
    else
      var (t, before) := Perform(step, s, rs[..|rs| - 1]);
      var (u, last) := step(t, rs[|rs| - 1]);
      (u, before + [last])
  }

  datatype Entry = Entry(request: Request, response: Response)

  /** The backend's state and log, `currentSequence`, and how often the manager has been asked. */
  datatype Caching<S> = Caching(state: S, log: seq<Request>, queue: seq<Entry>, asked: nat)

  predicate Hit<S>(s: Caching<S>, r: Request) {
    s.queue != [] && Same(s.queue[0].request, r)
  }

  function Zip(rs: seq<Request>, responses: seq<Response>): (es: seq<Entry>)
    requires |rs| == |responses|
    ensures |es| == |rs| && forall i :: 0 <= i < |rs| ==> es[i] == Entry(rs[i], responses[i])
  {
    seq(|rs|, i requires 0 <= i < |rs| => Entry(rs[i], responses[i]))
  }

  /** `makeRequest`: the new state and the response. */
  function Serve<S>(step: Step<S>, manager: Manager, s: Caching<S>, r: Request): (Caching<S>, Response) {
    if Hit(s, r) then (s.(queue := s.queue[1..]), s.queue[0].response)
    else
      var list := manager(s.asked, r);
      if list == [] then
        var (t, response) := step(s.state, r);
        (Caching(t, s.log + [r], [], s.asked + 1), response)
      else
        var (t, responses) := Perform(step, s.state, list);
        (Caching(t, s.log + list, Zip(list, responses)[1..], s.asked + 1), responses[0])
  }

  function ServeAll<S>(step: Step<S>, manager: Manager, s: Caching<S>, rs: seq<Request>)
    : (r: (Caching<S>, seq<Response>))
    ensures |r.1| == |rs|
  {
    if rs == [] then (s, [])
    else
      var (t, before) := ServeAll(step, manager, s, rs[..|rs| - 1]);
      var (u, last) := Serve(step, manager, t, rs[|rs| - 1]);
      (u, before + [last])
  }

  // ---- The code --------------------------------------------------------------------------------------------

  class Backend<S> {
    const step: Step<S>
    var state: S
    var log: seq<Request>

    constructor (step: Step<S>, state: S)
      ensures this.step == step && this.state == state && log == []
    {
      this.step, this.state, log := step, state, [];
    }

    method MakeRequest(r: Request) returns (response: Response)
      modifies this
      ensures (state, response) == step(old(state), r) && log == old(log) + [r]
    {
      var (t, answer) := step(state, r);
      state, log, response := t, log + [r], answer;
    }

    /** One for one, in order. */
    method MakeRequests(list: seq<Request>) returns (responses: seq<Response>)
      modifies this
      ensures (state, responses) == Perform(step, old(state), list) && log == old(log) + list
    {
      responses := [];
      for i := 0 to |list|
        invariant (state, responses) == Perform(step, old(state), list[..i]) && log == old(log) + list[..i]
      {
        assert list[..i + 1][..i] == list[..i];
        var response := MakeRequest(list[i]);
        responses := responses + [response];
      }
      assert list[..|list|] == list;
    }
  }

  class CachingExchange<S> {
    const backend: Backend<S>
    const cacheManager: Manager
    var asked: nat
    var currentSequence: seq<Entry>

    ghost function View(): Caching<S>
      reads this, backend
    {
      Caching(backend.state, backend.log, currentSequence, asked)
    }

    constructor (backend: Backend<S>, cacheManager: Manager)
      ensures this.backend == backend && this.cacheManager == cacheManager
      ensures currentSequence == [] && asked == 0
    {
      this.backend, this.cacheManager, currentSequence, asked := backend, cacheManager, [], 0;
    }

    /** `ArrayDeque.poll`. */
    method Poll() returns (head: seq<Entry>)
      modifies this`currentSequence
      ensures old(currentSequence) == head + currentSequence
      ensures |head| == if old(currentSequence) == [] then 0 else 1
    {
      if currentSequence == [] {
        return [];
      }
      head := currentSequence[..1];
      currentSequence := currentSequence[1..];
    }

    method MakeRequest(request: Request) returns (response: Response)
      modifies this`currentSequence, this`asked, backend
      ensures (View(), response) == Serve(backend.step, cacheManager, old(View()), request)
    {
      hide Perform;
      var cached := Poll();
      if cached != [] && Same(cached[0].request, request) {
        return cached[0].response;
      }
      if currentSequence != [] {
        currentSequence := [];
      }
      var list := cacheManager(asked, request);
      asked := asked + 1;
      if list == [] {
        response := backend.MakeRequest(request);
      } else {
        var newElements := backend.MakeRequests(list);
        currentSequence := Zip(list, newElements);
        var first := Poll();
        response := first[0].response;
      }
    }
  }

  // ---- What a prefetched list saves ----------------------------------------------------------------------

  /** Requests that come as foreseen, from the front of what is queued, ask nothing of the backend. */
  lemma {:induction false} QueueServes<S>(step: Step<S>, manager: Manager, s: Caching<S>, rs: seq<Request>)
    requires |rs| <= |s.queue| && forall i :: 0 <= i < |rs| ==> Same(s.queue[i].request, rs[i])
    ensures var (t, responses) := ServeAll(step, manager, s, rs);
      && t == s.(queue := s.queue[|rs|..])
      && forall i :: 0 <= i < |rs| ==> responses[i] == s.queue[i].response
    decreases |rs|
  {
    if rs == [] {
      assert s.queue[0..] == s.queue;
    } else {
      var n := |rs| - 1;
      QueueServes(step, manager, s, rs[..n]);
      assert s.queue[n..][0] == s.queue[n] && s.queue[n..][1..] == s.queue[n + 1..];
    }
  }

  lemma {:induction false} ServeAllFrom<S(!new)>(step: Step<S>, manager: Manager, s: Caching<S>, r: Request,
                                                 rs: seq<Request>)
    ensures var (t, first) := Serve(step, manager, s, r);
      var (u, later) := ServeAll(step, manager, t, rs);
      ServeAll(step, manager, s, [r] + rs) == (u, [first] + later)
    decreases |rs|
  {
    hide Serve;
    var all := [r] + rs;
    if rs == [] {
      assert all == [r] && [r][..0] == [] && ServeAll(step, manager, s, []) == (s, []);
      var first := Serve(step, manager, s, r).1;
      assert [] + [first] == [first] + [];
    } else {
      var n := |rs| - 1;
      ServeAllFrom(step, manager, s, r, rs[..n]);
      assert all[..|all| - 1] == [r] + rs[..n] && all[|all| - 1] == rs[n];
      var t := Serve(step, manager, s, r).0;
      var (u, later) := ServeAll(step, manager, t, rs[..n]);
      var last := Serve(step, manager, u, rs[n]).1;
      Regroup([Serve(step, manager, s, r).1], later, [last]);
    }
  }

  /** A list that is foreseen goes to the backend once, and answers as many requests as come as foreseen. */
  lemma {:induction false} OneBatch<S(!new)>(step: Step<S>, manager: Manager, s: Caching<S>, rs: seq<Request>)
    requires rs != [] && !Hit(s, rs[0])
    requires var list := manager(s.asked, rs[0]);
      |rs| <= |list| && forall i :: 1 <= i < |rs| ==> Same(list[i], rs[i])
    ensures var list := manager(s.asked, rs[0]);
      var (t, responses) := Perform(step, s.state, list);
      ServeAll(step, manager, s, rs)
      == (Caching(t, s.log + list, Zip(list, responses)[|rs|..], s.asked + 1), responses[..|rs|])
  {
    var list, rest := manager(s.asked, rs[0]), rs[1..];
    var (t, responses) := Perform(step, s.state, list);
    assert rs == [rs[0]] + rest;
    ServeAllFrom(step, manager, s, rs[0], rest);
    var u := Serve(step, manager, s, rs[0]).0;
    assert u == Caching(t, s.log + list, Zip(list, responses)[1..], s.asked + 1);
    hide Perform, Serve;
    QueueServes(step, manager, u, rest);
    assert u.queue[|rest|..] == Zip(list, responses)[|rs|..];
    assert responses[..|rs|] == [responses[0]] + responses[1..|rs|];
    assert ServeAll(step, manager, u, rest).1 == responses[1..|rs|];
  }

  /** A request that does not come as foreseen is served as if nothing were queued, and so are all after it. */
  lemma {:induction false} MissForgets<S(!new)>(step: Step<S>, manager: Manager, s: Caching<S>, r: Request,
                                                rs: seq<Request>)
    requires !Hit(s, r)
    ensures ServeAll(step, manager, s, [r] + rs) == ServeAll(step, manager, s.(queue := []), [r] + rs)
  {
    ServeAllFrom(step, manager, s, r, rs);
    ServeAllFrom(step, manager, s.(queue := []), r, rs);
    assert Serve(step, manager, s, r) == Serve(step, manager, s.(queue := []), r);
  }

  // ---- What stands in for a request ----------------------------------------------------------------------

  /** The queue of requests and the number of questions so far: all that decides what is asked of the backend,
      whatever it answers. */
  datatype Plan = Plan(queue: seq<Request>, asked: nat)

  predicate Expected(p: Plan, r: Request) {
    p.queue != [] && Same(p.queue[0], r)
  }

  /** What a miss sends to the backend: the request alone, or the list that is foreseen. */
  function Sent(manager: Manager, asked: nat, r: Request): (list: seq<Request>)
    ensures list != []
  {
    if manager(asked, r) == [] then [r] else manager(asked, r)
  }

  /** The request whose response is handed out for `r`. */
  function StandIn(manager: Manager, p: Plan, r: Request): Request {
    if Expected(p, r) then p.queue[0] else Sent(manager, p.asked, r)[0]
  }

  function Next(manager: Manager, p: Plan, r: Request): Plan {
    if Expected(p, r) then Plan(p.queue[1..], p.asked)
    else Plan(Sent(manager, p.asked, r)[1..], p.asked + 1)
  }

  function Follow(manager: Manager, p: Plan, rs: seq<Request>): Plan {
    if rs == [] then p else Next(manager, Follow(manager, p, rs[..|rs| - 1]), rs[|rs| - 1])
  }

  function StandIns(manager: Manager, p: Plan, rs: seq<Request>): (r: seq<Request>)
    ensures |r| == |rs|
  {
    if rs == [] then []
    else
      var n := |rs| - 1;
      StandIns(manager, p, rs[..n]) + [StandIn(manager, Follow(manager, p, rs[..n]), rs[n])]
  }

  /** Queued requests that are thrown away because something else comes. */
  function Dropped(manager: Manager, p: Plan, rs: seq<Request>): nat {
    if rs == [] then 0
    else
      var n := |rs| - 1;
      var q := Follow(manager, p, rs[..n]);
      Dropped(manager, p, rs[..n]) + if Expected(q, rs[n]) then 0 else |q.queue|
  }

  function Requests(queue: seq<Entry>): (rs: seq<Request>)
    ensures |rs| == |queue| && forall i :: 0 <= i < |rs| ==> rs[i] == queue[i].request
  {
    seq(|queue|, i requires 0 <= i < |queue| => queue[i].request)
  }

  function Responses(queue: seq<Entry>): (rs: seq<Response>)
    ensures |rs| == |queue| && forall i :: 0 <= i < |rs| ==> rs[i] == queue[i].response
  {
    seq(|queue|, i requires 0 <= i < |queue| => queue[i].response)
  }

  function PlanOf<S>(s: Caching<S>): Plan {
    Plan(Requests(s.queue), s.asked)
  }

  lemma {:induction false} ServeFollows<S>(step: Step<S>, manager: Manager, s: Caching<S>, r: Request)
    ensures PlanOf(Serve(step, manager, s, r).0) == Next(manager, PlanOf(s), r)
    ensures Hit(s, r) <==> Expected(PlanOf(s), r)
  {
    hide Perform;
    assert Hit(s, r) ==> Requests(s.queue)[1..] == Requests(s.queue[1..]);
    var t := Serve(step, manager, s, r).0;
    if !Hit(s, r) {
      assert Requests(t.queue) == Sent(manager, s.asked, r)[1..];
    }
  }

  lemma {:induction false} ServeAllFollows<S>(step: Step<S>, manager: Manager, s: Caching<S>, rs: seq<Request>)
    ensures PlanOf(ServeAll(step, manager, s, rs).0) == Follow(manager, PlanOf(s), rs)
  {
    if rs == [] {
    } else {
      var n := |rs| - 1;
      ServeAllFollows(step, manager, s, rs[..n]);
      ServeFollows(step, manager, ServeAll(step, manager, s, rs[..n]).0, rs[n]);
    }
    hide Serve, Next;
  }

  // ---- Reading ahead -------------------------------------------------------------------------------------

  ghost predicate ReadOnly<S(!new)>(step: Step<S>, r: Request) {
    forall s :: step(s, r).0 == s
  }

  /** All that is prefetched beyond the first request of a list only reads. */
  ghost predicate PrefetchesReads<S(!new)>(step: Step<S>, manager: Manager) {
    forall k, r, i :: 1 <= i < |manager(k, r)| ==> ReadOnly(step, manager(k, r)[i])
  }

  /** What is queued only reads, and is what the backend would still answer. */
  ghost predicate Current<S(!new)>(step: Step<S>, s: Caching<S>) {
    forall i :: 0 <= i < |s.queue| ==>
      ReadOnly(step, s.queue[i].request) && s.queue[i].response == step(s.state, s.queue[i].request).1
  }

  lemma {:induction false} PerformReads<S(!new)>(step: Step<S>, s: S, rs: seq<Request>)
    requires rs != [] && forall i :: 1 <= i < |rs| ==> ReadOnly(step, rs[i])
    ensures var (t, responses) := Perform(step, s, rs);
      && (t, responses[0]) == step(s, rs[0])
      && forall i :: 1 <= i < |rs| ==> responses[i] == step(t, rs[i]).1
  {
    var n := |rs| - 1;
    if n > 0 {
      PerformReads(step, s, rs[..n]);
    } else {
      assert Perform(step, s, rs[..0]) == (s, []);
    }
  }

  lemma {:induction false} ServeReads<S(!new)>(step: Step<S>, manager: Manager, s: Caching<S>, r: Request)
    requires PrefetchesReads(step, manager) && Current(step, s)
    ensures var (t, response) := Serve(step, manager, s, r);
      Current(step, t) && (t.state, response) == step(s.state, StandIn(manager, PlanOf(s), r))
  {
    var list := manager(s.asked, r);
    if !Hit(s, r) && list != [] {
      PerformReads(step, s.state, list);
    }
    hide Perform;
  }

  /** With read-only prefetching the client gets, in every run, what the bare backend would answer to the
      requests that stand in for its own, and leaves it in that state. */
  lemma {:induction false} ReadingAhead<S(!new)>(step: Step<S>, manager: Manager, s: Caching<S>, rs: seq<Request>)
    requires PrefetchesReads(step, manager) && Current(step, s)
    ensures var (t, responses) := ServeAll(step, manager, s, rs);
      Current(step, t) && (t.state, responses) == Perform(step, s.state, StandIns(manager, PlanOf(s), rs))
  {
    if rs == [] {
    } else {
      var n := |rs| - 1;
      ReadingAhead(step, manager, s, rs[..n]);
      var t := ServeAll(step, manager, s, rs[..n]).0;
      ServeAllFollows(step, manager, s, rs[..n]);
      ServeReads(step, manager, t, rs[n]);
      PerformSnoc(step, s.state, StandIns(manager, PlanOf(s), rs[..n]), StandIn(manager, PlanOf(t), rs[n]));
    }
    hide PrefetchesReads, Current, Serve, Perform, Follow, PlanOf, StandIn;
  }

  lemma {:induction false} PerformSnoc<S>(step: Step<S>, s: S, rs: seq<Request>, r: Request)
    ensures var (t, before) := Perform(step, s, rs);
      Perform(step, s, rs + [r]) == (step(t, r).0, before + [step(t, r).1])
  {
    var all := rs + [r];
    assert all[..|all| - 1] == rs;
  }

  /** A backend that only reads, and whose response spells out the request. */
  function Spelled(r: Request): Response {
    seq(r.call, _ => '1') + "0" + r.assignedId
  }

  function Echo<S>(s: S, r: Request): (S, Response) {
    (s, Spelled(r))
  }

  lemma {:induction false} SpelledInjective(a: Request, b: Request)
    requires Spelled(a) == Spelled(b)
    ensures a == b
  {
    var t := Spelled(a);
    assert t[a.call] == '0' && forall i :: 0 <= i < a.call ==> t[i] == '1';
    assert t[b.call] == '0' && forall i :: 0 <= i < b.call ==> t[i] == '1';
    assert t[a.call + 1..] == a.assignedId && t[b.call + 1..] == b.assignedId;
  }

  lemma {:induction false} EchoResponses<S>(s: S, rs: seq<Request>)
    ensures var (t, responses) := Perform(Echo, s, rs);
      t == s && forall i :: 0 <= i < |rs| ==> responses[i] == Spelled(rs[i])
  {
    if rs == [] {
    } else {
      EchoResponses(s, rs[..|rs| - 1]);
    }
    hide Spelled;
  }

  lemma {:induction false} EchoTells<S>(s: S, a: seq<Request>, b: seq<Request>)
    requires Perform(Echo, s, a).1 == Perform(Echo, s, b).1
    ensures a == b
  {
    EchoResponses(s, a);
    EchoResponses(s, b);
    hide Perform, Spelled;
    forall i | 0 <= i < |a|
      ensures a[i] == b[i]
    {
      SpelledInjective(a[i], b[i]);
    }
  }

  /** For a manager and a run: every backend, of any state, for which the prefetched requests only read gives
      the client what it would give without the cache, exactly if each request is stood in for by itself, its
      assigned id included. Whether predictions fail does not matter. */
  lemma {:induction false} ReadingAheadIsTransparent<S(!new)>(manager: Manager, rs: seq<Request>, some: S)
    ensures (forall step: Step<S>, start: S | PrefetchesReads(step, manager) ::
               ServeAll(step, manager, Caching(start, [], [], 0), rs).1 == Perform(step, start, rs).1)
            <==> StandIns(manager, Plan([], 0), rs) == rs
  {
    hide Perform, ServeAll, StandIns;
    forall step: Step<S>, start: S | PrefetchesReads(step, manager)
      ensures ServeAll(step, manager, Caching(start, [], [], 0), rs).1
              == Perform(step, start, StandIns(manager, Plan([], 0), rs)).1
    {
      ReadingAhead(step, manager, Caching(start, [], [], 0), rs);
      assert PlanOf(Caching(start, [], [], 0)) == Plan([], 0);
    }
    if forall step: Step<S>, start: S | PrefetchesReads(step, manager) ::
         ServeAll(step, manager, Caching(start, [], [], 0), rs).1 == Perform(step, start, rs).1 {
      var echo: Step<S> := Echo;
      assert PrefetchesReads(echo, manager) by {
        assert forall r :: ReadOnly(echo, r);
      }
      EchoTells(some, StandIns(manager, Plan([], 0), rs), rs);
    }
  }

  // ---- Predictions that come true --------------------------------------------------------------------------

  lemma {:induction false} PerformAppend<S(!new)>(step: Step<S>, s: S, a: seq<Request>, b: seq<Request>)
    ensures var (t, first) := Perform(step, s, a);
      var (u, second) := Perform(step, t, b);
      Perform(step, s, a + b) == (u, first + second)
  {
    if b == [] {
      var (t, first) := Perform(step, s, a);
      assert a + b == a && first + [] == first && Perform(step, t, b) == (t, []);
    } else {
      var n := |b| - 1;
      PerformAppend(step, s, a, b[..n]);
      var all := a + b;
      assert all[..|all| - 1] == a + b[..n] && all[|all| - 1] == b[n];
      var (t, first) := Perform(step, s, a);
      var (u, second) := Perform(step, t, b[..n]);
      var (v, last) := step(u, b[n]);
      assert first + second + [last] == first + (second + [last]);
    }
  }

  /** Where the backend's log stands when nothing has been thrown away: it is what stood in for the client's
      requests, and then what is still queued; and the responses are those of this log. */
  ghost predicate Ahead<S(!new)>(step: Step<S>, start: S, s: Caching<S>, stoodIn: seq<Request>, got: seq<Response>) {
    && s.log == stoodIn + Requests(s.queue)
    && Perform(step, start, s.log) == (s.state, got + Responses(s.queue))
  }

  lemma {:induction false} HitStaysAhead<S(!new)>(step: Step<S>, manager: Manager, start: S, s: Caching<S>,
                                                  r: Request, stoodIn: seq<Request>, got: seq<Response>)
    requires Ahead(step, start, s, stoodIn, got) && Hit(s, r)
    ensures var (t, response) := Serve(step, manager, s, r);
      Ahead(step, start, t, stoodIn + [StandIn(manager, PlanOf(s), r)], got + [response])
  {
    var (t, response) := Serve(step, manager, s, r);
    assert t == s.(queue := s.queue[1..]) && response == s.queue[0].response;
    assert StandIn(manager, PlanOf(s), r) == s.queue[0].request;
    FirstQueued(stoodIn, got, s.queue);
    hide Perform, Serve, Requests, Responses, StandIn;
  }

  lemma {:induction false} FirstQueued(stoodIn: seq<Request>, got: seq<Response>, queue: seq<Entry>)
    requires queue != []
    ensures stoodIn + Requests(queue) == stoodIn + [queue[0].request] + Requests(queue[1..])
    ensures got + Responses(queue) == got + [queue[0].response] + Responses(queue[1..])
  {
    var rs, responses := Requests(queue), Responses(queue);
    assert Requests(queue[1..]) == rs[1..] && Responses(queue[1..]) == responses[1..];
    assert rs[0] == queue[0].request && responses[0] == queue[0].response;
    hide Requests, Responses;
    HeadAndTail(stoodIn, rs);
    HeadAndTail(got, responses);
  }

  lemma HeadAndTail<T>(a: seq<T>, b: seq<T>)
    requires b != []
    ensures a + b == a + [b[0]] + b[1..] && [b[0]] + b[1..] == b
  {
  }

  /** A list and its responses: the first goes to the client, the others are queued. */
  lemma {:induction false} FirstAndQueue(list: seq<Request>, responses: seq<Response>)
    requires |list| == |responses| > 0
    ensures var queue := Zip(list, responses)[1..];
      [responses[0]] + Responses(queue) == responses && [list[0]] + Requests(queue) == list
  {
    var queue := Zip(list, responses)[1..];
    assert Requests(queue) == list[1..] && Responses(queue) == responses[1..];
    hide Requests, Responses, Zip;
    HeadAndTail([], list);
    HeadAndTail([], responses);
  }

  lemma {:induction false} PerformOne<S(!new)>(step: Step<S>, s: S, r: Request)
    ensures Perform(step, s, [r]) == (step(s, r).0, [step(s, r).1])
  {
    var one := [r];
    assert one[..|one| - 1] == [] && Perform(step, s, []) == (s, []);
    assert Perform(step, s, one).1 == [step(s, r).1];
  }

  lemma {:induction false} MissSends<S(!new)>(step: Step<S>, manager: Manager, s: Caching<S>, r: Request)
    requires !Hit(s, r)
    ensures var more := Sent(manager, s.asked, r);
      var (t, response) := Serve(step, manager, s, r);
      && t.log == s.log + more
      && Perform(step, s.state, more) == (t.state, [response] + Responses(t.queue))
      && more == [StandIn(manager, PlanOf(s), r)] + Requests(t.queue)
  {
    PerformOne(step, s.state, r);
    ServeFollows(step, manager, s, r);
    var more := Sent(manager, s.asked, r);
    FirstAndQueue(more, Perform(step, s.state, more).1);
    hide Perform, Zip, Requests, Responses;
    assert Zip([r], [step(s.state, r).1])[1..] == [];
  }

  lemma {:induction false} MissStaysAhead<S(!new)>(step: Step<S>, manager: Manager, start: S, s: Caching<S>,
                                                   r: Request, stoodIn: seq<Request>, got: seq<Response>)
    requires Ahead(step, start, s, stoodIn, got) && !Hit(s, r) && s.queue == []
    ensures var (t, response) := Serve(step, manager, s, r);
      Ahead(step, start, t, stoodIn + [StandIn(manager, PlanOf(s), r)], got + [response])
  {
    var more := Sent(manager, s.asked, r);
    var (t, response) := Serve(step, manager, s, r);
    MissSends(step, manager, s, r);
    hide Serve, Sent;
    assert stoodIn + Requests(s.queue) == stoodIn && got + Responses(s.queue) == got;
    PerformAppend(step, start, s.log, more);
    hide Perform, Requests, Responses, StandIn;
    Regroup(stoodIn, [StandIn(manager, PlanOf(s), r)], Requests(t.queue));
    Regroup(got, [response], Responses(t.queue));
  }

  lemma {:induction false} StartsAhead<S(!new)>(step: Step<S>, start: S)
    ensures Ahead(step, start, Caching(start, [], [], 0), [], [])
  {
    assert Perform(step, start, []) == (start, []);
  }

  lemma {:induction false} StaysAhead<S(!new)>(step: Step<S>, manager: Manager, start: S, rs: seq<Request>)
    requires Dropped(manager, Plan([], 0), rs) == 0
    ensures var (t, responses) := ServeAll(step, manager, Caching(start, [], [], 0), rs);
      Ahead(step, start, t, StandIns(manager, Plan([], 0), rs), responses)
  {
    hide Ahead, Perform, Serve, StandIn;
    var s := Caching(start, [], [], 0);
    if rs == [] {
      StartsAhead(step, start);
    } else {
      var n := |rs| - 1;
      StaysAhead(step, manager, start, rs[..n]);
      FollowsFromStart(step, manager, start, rs[..n]);
      var (t, before) := ServeAll(step, manager, s, rs[..n]);
      ServeFollows(step, manager, t, rs[n]);
      var stoodIn := StandIns(manager, Plan([], 0), rs[..n]);
      if Hit(t, rs[n]) {
        HitStaysAhead(step, manager, start, t, rs[n], stoodIn, before);
      } else {
        MissStaysAhead(step, manager, start, t, rs[n], stoodIn, before);
      }
    }
  }

  lemma {:induction false} FollowsFromStart<S>(step: Step<S>, manager: Manager, start: S, rs: seq<Request>)
    ensures PlanOf(ServeAll(step, manager, Caching(start, [], [], 0), rs).0) == Follow(manager, Plan([], 0), rs)
  {
    ServeAllFollows(step, manager, Caching(start, [], [], 0), rs);
    assert PlanOf(Caching(start, [], [], 0)) == Plan([], 0);
  }

  /** Each dropped request shows in the length of the log. */
  lemma {:induction false} LogLength<S(!new)>(step: Step<S>, manager: Manager, start: S, rs: seq<Request>)
    ensures var t := ServeAll(step, manager, Caching(start, [], [], 0), rs).0;
      |t.log| == |rs| + |t.queue| + Dropped(manager, Plan([], 0), rs)
  {
    if rs == [] {
    } else {
      var n := |rs| - 1;
      LogLength(step, manager, start, rs[..n]);
      FollowsFromStart(step, manager, start, rs[..n]);
      var t := ServeAll(step, manager, Caching(start, [], [], 0), rs[..n]).0;
      ServeFollows(step, manager, t, rs[n]);
      hide Perform, Follow;
    }
  }

  /** For any backend, also one that changes: its log is what stood in for the client's requests followed by
      those still queued exactly when no prediction failed. */
  lemma {:induction false} LogIsAhead<S(!new)>(step: Step<S>, manager: Manager, start: S, rs: seq<Request>)
    ensures var t := ServeAll(step, manager, Caching(start, [], [], 0), rs).0;
      t.log == StandIns(manager, Plan([], 0), rs) + Requests(t.queue) <==> Dropped(manager, Plan([], 0), rs) == 0
  {
    LogLength(step, manager, start, rs);
    if Dropped(manager, Plan([], 0), rs) == 0 {
      StaysAhead(step, manager, start, rs);
    }
    hide ServeAll, Dropped, StandIns;
  }

  lemma {:induction false} Following<S(!new)>(step: Step<S>, manager: Manager, start: S, rs: seq<Request>)
    requires Dropped(manager, Plan([], 0), rs) == 0
    ensures ServeAll(step, manager, Caching(start, [], [], 0), rs).1
            == Perform(step, start, StandIns(manager, Plan([], 0), rs)).1
  {
    StaysAhead(step, manager, start, rs);
    hide ServeAll, Dropped, StandIns;
    var (t, responses) := ServeAll(step, manager, Caching(start, [], [], 0), rs);
    var stoodIn := StandIns(manager, Plan([], 0), rs);
    PerformAppend(step, start, stoodIn, Requests(t.queue));
    hide Perform;
    var ahead := Perform(step, start, t.log).1;
    assert responses == ahead[..|rs|] == Perform(step, start, stoodIn).1;
  }

  /** A backend that answers with the number of requests it has had. */
  function Tally(s: nat, r: Request): (nat, Response) {
    (s + 1, seq(s, _ => '1'))
  }

  lemma {:induction false} TallyCounts(s: nat, rs: seq<Request>)
    ensures var (t, responses) := Perform<nat>(Tally, s, rs);
      t == s + |rs| && forall i :: 0 <= i < |rs| ==> |responses[i]| == s + i
  {
    if rs == [] {
    } else {
      TallyCounts(s, rs[..|rs| - 1]);
    }
  }

  lemma {:induction false} TallyIsLog(manager: Manager, rs: seq<Request>)
    ensures var t := ServeAll<nat>(Tally, manager, Caching(0, [], [], 0), rs).0; t.state == |t.log|
  {
    if rs == [] {
    } else {
      var n := |rs| - 1;
      TallyIsLog(manager, rs[..n]);
      var t := ServeAll<nat>(Tally, manager, Caching(0, [], [], 0), rs[..n]).0;
      TallyCounts(t.state, Sent(manager, t.asked, rs[n]));
      PerformOne<nat>(Tally, t.state, rs[n]);
      hide Perform;
    }
  }

  /** That backend lets the client notice the first prediction that fails. */
  lemma {:induction false} TallyTells(manager: Manager, rs: seq<Request>)
    requires Dropped(manager, Plan([], 0), rs) > 0
    ensures ServeAll<nat>(Tally, manager, Caching(0, [], [], 0), rs).1 != Perform<nat>(Tally, 0, rs).1
  {
    var n := |rs| - 1;
    if Dropped(manager, Plan([], 0), rs[..n]) > 0 {
      TallyTells(manager, rs[..n]);
      FrontDiffers(manager, rs);
    } else {
      var t: Caching<nat> := ServeAll<nat>(Tally, manager, Caching(0, [], [], 0), rs[..n]).0;
      LogLength<nat>(Tally, manager, 0, rs[..n]);
      TallyIsLog(manager, rs[..n]);
      FollowsFromStart<nat>(Tally, manager, 0, rs[..n]);
      ServeFollows<nat>(Tally, manager, t, rs[n]);
      assert t.state > n;
      TallyCounts(0, rs);
      TallyServes(manager, t, rs[n]);
      hide Perform, Follow, Serve, Tally;
      assert |ServeAll<nat>(Tally, manager, Caching(0, [], [], 0), rs).1[n]| == t.state;
    }
  }

  lemma {:induction false} TallyServes(manager: Manager, t: Caching<nat>, r: Request)
    requires !Hit(t, r)
    ensures |Serve<nat>(Tally, manager, t, r).1| == t.state
  {
    TallyCounts(t.state, Sent(manager, t.asked, r));
    hide Perform;
  }

  lemma {:induction false} FrontDiffers(manager: Manager, rs: seq<Request>)
    requires rs != []
    requires var front := rs[..|rs| - 1];
      ServeAll<nat>(Tally, manager, Caching(0, [], [], 0), front).1 != Perform<nat>(Tally, 0, front).1
    ensures ServeAll<nat>(Tally, manager, Caching(0, [], [], 0), rs).1 != Perform<nat>(Tally, 0, rs).1
  {
    hide Serve, Tally;
    var n := |rs| - 1;
    var a, b := ServeAll<nat>(Tally, manager, Caching(0, [], [], 0), rs).1, Perform<nat>(Tally, 0, rs).1;
    assert a[..n] == ServeAll<nat>(Tally, manager, Caching(0, [], [], 0), rs[..n]).1;
    assert b[..n] == Perform<nat>(Tally, 0, rs[..n]).1;
  }

  /** For a manager and a run: every backend, whatever its requests change, gives the client what it would give
      without the cache exactly if each request is stood in for by itself and no prediction fails. That is enough
      for states of any type; that it is needed shows in backends whose states are numbers. */
  lemma {:induction false} FollowingIsTransparent<S(!new)>(manager: Manager, rs: seq<Request>)
    ensures StandIns(manager, Plan([], 0), rs) == rs && Dropped(manager, Plan([], 0), rs) == 0 ==>
              forall step: Step<S>, start: S ::
                ServeAll(step, manager, Caching(start, [], [], 0), rs).1 == Perform(step, start, rs).1
    ensures (forall step: Step<nat>, start: nat ::
               ServeAll(step, manager, Caching(start, [], [], 0), rs).1 == Perform(step, start, rs).1)
            <==> StandIns(manager, Plan([], 0), rs) == rs && Dropped(manager, Plan([], 0), rs) == 0
  {
    hide Perform, ServeAll, StandIns, Dropped;
    var p := Plan([], 0);
    if Dropped(manager, p, rs) > 0 {
      TallyTells(manager, rs);
      var step: Step<nat>, start: nat := Tally, 0;
      assert ServeAll(step, manager, Caching(start, [], [], 0), rs).1 != Perform(step, start, rs).1;
    } else if StandIns(manager, p, rs) == rs {
      forall step: Step<S>, start: S
        ensures ServeAll(step, manager, Caching(start, [], [], 0), rs).1 == Perform(step, start, rs).1
      {
        Following(step, manager, start, rs);
      }
      forall step: Step<nat>, start: nat
        ensures ServeAll(step, manager, Caching(start, [], [], 0), rs).1 == Perform(step, start, rs).1
      {
        Following(step, manager, start, rs);
      }
    } else {
      ReadingAheadIsTransparent<nat>(manager, rs, 0);
      var step: Step<nat>, start: nat :| PrefetchesReads(step, manager)
        && ServeAll(step, manager, Caching(start, [], [], 0), rs).1 != Perform(step, start, rs).1;
    }
  }

  // ---- Backends that ignore ids ----------------------------------------------------------------------------

  /** The manager returns nothing, or a list headed by the request. */
  ghost predicate HeadedByRequest(manager: Manager) {
    forall k, r :: manager(k, r) == [] || Same(manager(k, r)[0], r)
  }

  predicate SameCalls(a: seq<Request>, b: seq<Request>) {
    |a| == |b| && forall i :: 0 <= i < |a| ==> Same(a[i], b[i])
  }

  /** With such a manager nothing but the assigned id can differ from the request. */
  lemma {:induction false} OnlyIdsDiffer(manager: Manager, p: Plan, rs: seq<Request>)
    requires HeadedByRequest(manager)
    ensures SameCalls(StandIns(manager, p, rs), rs)
  {
    if rs == [] {
    } else {
      OnlyIdsDiffer(manager, p, rs[..|rs| - 1]);
    }
    hide Follow;
  }

  /** The backend makes nothing of the assigned id. */
  ghost predicate IgnoresIds<S(!new)>(step: Step<S>) {
    forall s, x, y :: Same(x, y) ==> step(s, x) == step(s, y)
  }

  /** And a backend that cannot tell such requests apart answers both alike. */
  lemma {:induction false} PerformSame<S(!new)>(step: Step<S>, s: S, a: seq<Request>, b: seq<Request>)
    requires SameCalls(a, b) && IgnoresIds(step)
    ensures Perform(step, s, a) == Perform(step, s, b)
  {
    if a == [] {
    } else {
      PerformSame(step, s, a[..|a| - 1], b[..|b| - 1]);
    }
  }

  lemma {:induction false} StandInsAnswer<S(!new)>(step: Step<S>, manager: Manager, start: S, rs: seq<Request>)
    requires HeadedByRequest(manager) && IgnoresIds(step)
    ensures Perform(step, start, StandIns(manager, Plan([], 0), rs)) == Perform(step, start, rs)
  {
    OnlyIdsDiffer(manager, Plan([], 0), rs);
    PerformSame(step, start, StandIns(manager, Plan([], 0), rs), rs);
    hide HeadedByRequest, SameCalls, Perform, StandIns;
  }

  /** So with a manager whose lists are headed by the request, and read-only prefetching, the client gets what
      such a backend would give it without the cache, in every run, and leaves it in that state. */
  lemma {:induction false} ReadingAheadByCall<S(!new)>(step: Step<S>, manager: Manager, start: S, rs: seq<Request>)
    requires HeadedByRequest(manager) && PrefetchesReads(step, manager) && IgnoresIds(step)
    ensures var (t, responses) := ServeAll(step, manager, Caching(start, [], [], 0), rs);
      (t.state, responses) == Perform(step, start, rs)
  {
    ReadingAhead(step, manager, Caching(start, [], [], 0), rs);
    assert PlanOf(Caching(start, [], [], 0)) == Plan([], 0);
    StandInsAnswer(step, manager, start, rs);
    hide HeadedByRequest, IgnoresIds, PrefetchesReads, Perform, StandIns, ServeAll;
  }

  lemma {:induction false} FollowingByCall<S(!new)>(step: Step<S>, manager: Manager, start: S, rs: seq<Request>)
    requires HeadedByRequest(manager) && IgnoresIds(step) && Dropped(manager, Plan([], 0), rs) == 0
    ensures ServeAll(step, manager, Caching(start, [], [], 0), rs).1 == Perform(step, start, rs).1
  {
    Following(step, manager, start, rs);
    StandInsAnswer(step, manager, start, rs);
    hide HeadedByRequest, IgnoresIds, Perform, StandIns, ServeAll, Dropped;
  }

  lemma TallyIgnoresIds()
    ensures IgnoresIds<nat>(Tally)
  {
  }

  /** And if the requests may change its state, exactly in the runs in which no prediction fails. */
  lemma {:induction false} FollowingByCallIsTransparent(manager: Manager, rs: seq<Request>)
    requires HeadedByRequest(manager)
    ensures (forall step: Step<nat>, start: nat | IgnoresIds(step) ::
               ServeAll(step, manager, Caching(start, [], [], 0), rs).1 == Perform(step, start, rs).1)
            <==> Dropped(manager, Plan([], 0), rs) == 0
  {
    hide HeadedByRequest, IgnoresIds, Perform, ServeAll, Dropped;
    if Dropped(manager, Plan([], 0), rs) == 0 {
      forall step: Step<nat>, start: nat | IgnoresIds(step)
        ensures ServeAll(step, manager, Caching(start, [], [], 0), rs).1 == Perform(step, start, rs).1
      {
        FollowingByCall(step, manager, start, rs);
      }
    } else {
      TallyTells(manager, rs);
      TallyIgnoresIds();
      var step: Step<nat>, start: nat := Tally, 0;
      assert ServeAll(step, manager, Caching(start, [], [], 0), rs).1 != Perform(step, start, rs).1;
    }
  }

  // ---- Two runs --------------------------------------------------------------------------------------------

  /** After call 0, call 1 is foreseen. */
  function Foresee(k: nat, r: Request): seq<Request> {
    if r.call == 0 then [r, Request(1, "")] else []
  }

  lemma {:induction false} TwoRequests(r: Request, q: Request)
    requires r.call == 0
    ensures HeadedByRequest(Foresee)
    ensures StandIns(Foresee, Plan([], 0), [r, q]) == [r, if q.call == 1 then Request(1, "") else q]
    ensures Dropped(Foresee, Plan([], 0), [r, q]) == if q.call == 1 then 0 else 1
  {
    var p := Plan([], 0);
    var rs, one := [r, q], [r];
    assert rs[..|rs| - 1] == one && one[..|one| - 1] == [];
    assert Follow(Foresee, p, []) == p && StandIns(Foresee, p, []) == [] && Dropped(Foresee, p, []) == 0;
    var s := Follow(Foresee, p, one);
    assert s == Plan([Request(1, "")], 1);
    assert StandIns(Foresee, p, one) == one && Dropped(Foresee, p, one) == 0;
  }

  /** A prediction that fails: something other than call 1 comes. */
  lemma {:induction false} FailedPrediction(r: Request, q: Request)
    requires r.call == 0 && q.call != 1
    ensures StandIns(Foresee, Plan([], 0), [r, q]) == [r, q] && Dropped(Foresee, Plan([], 0), [r, q]) == 1
    ensures !forall step: Step<nat>, start: nat ::
              ServeAll(step, Foresee, Caching(start, [], [], 0), [r, q]).1 == Perform(step, start, [r, q]).1
  {
    TwoRequests(r, q);
    FollowingIsTransparent<nat>(Foresee, [r, q]);
    hide ServeAll, Perform, StandIns, Dropped;
  }

  /** A prediction that comes true but for the assigned id: the cache takes it for the same request. */
  lemma {:induction false} OtherId(r: Request, id: string)
    requires r.call == 0 && id != ""
    ensures Dropped(Foresee, Plan([], 0), [r, Request(1, id)]) == 0
    ensures !forall step: Step<nat>, start: nat | PrefetchesReads(step, Foresee) ::
              ServeAll(step, Foresee, Caching(start, [], [], 0), [r, Request(1, id)]).1
              == Perform(step, start, [r, Request(1, id)]).1
  {
    var q := Request(1, id);
    TwoRequests(r, q);
    ReadingAheadIsTransparent(Foresee, [r, q], 0 as nat);
    assert [r, Request(1, "")][1] != [r, q][1];
    hide ServeAll, Perform, StandIns, Dropped;
  }
}
