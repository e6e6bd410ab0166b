/** `checkSmall` of the Z3 example (benchmarks/z3javajni/.../JavaExample.java): bring several 32-bit terms
    down to a minimum, by bisection, with a solver that only answers whether its assertions can be met. */
module CheckSmall {
  import opened Wire

  const MAX_VALUE := TWO_31 - 1

  /** Values of the terms to minimize, as unsigned 32-bit numbers. */
  type Model = seq<nat>

  /** The assertion `mkBVULE(to_minimize[term], mkBV(value, 32))`. */
  datatype Bound = Bound(term: nat, value: int)

  /** A 32-bit numeral made from a Java int. */
  function Unsigned(x: int): nat {
    x % TWO_32
  }

  predicate Holds(m: Model, b: Bound) {
    b.term < |m| ==> m[b.term] <= Unsigned(b.value)
  }

  predicate HoldAll(m: Model, bounds: seq<Bound>) {
    forall b :: b in bounds ==> Holds(m, b)
  }

  /** The solver: what its own constraints allow the terms to be, and what its `k`-th check answers for
      the bounds asserted on top of them. */
  datatype Oracle = Oracle(n: nat, feasible: Model -> bool, check: (nat, seq<Bound>) -> Option<Model>)

  predicate Allowed(o: Oracle, bounds: seq<Bound>, m: Model) {
    && |m| == o.n
    && (forall i :: 0 <= i < |m| ==> m[i] < TWO_32)
    && o.feasible(m)
    && HoldAll(m, bounds)
  }

  /** A model that is found is one. A check that fails may be undecided; the code does not tell it from one
      that has no model. */
  ghost predicate Honest(o: Oracle) {
    forall k, bounds :: o.check(k, bounds).Some? ==> Allowed(o, bounds, o.check(k, bounds).value)
  }

  /** Every check is decided, and decided rightly; which model it finds is left open. */
  ghost predicate Sound(o: Oracle) {
    forall k, bounds ::
      match o.check(k, bounds)
      case Some(m) => Allowed(o, bounds, m)
      case None => forall m: Model :: !Allowed(o, bounds, m)
  }

  predicate AtMost(m: seq<int>, u: seq<int>) {
    |m| == |u| && forall i :: 0 <= i < |m| ==> m[i] <= u[i]
  }

  /** A model with every term at most `most`. */
  predicate FeasibleUpTo(o: Oracle, base: seq<Bound>, m: Model, most: nat) {
    Allowed(o, base, m) && forall i :: 0 <= i < |m| ==> m[i] <= most
  }

  // ---- One check and what follows it ---------------------------------------------------------------------

  /** The variables of `checkSmall` before a check; `added` are the assertions made since the last push. */
  datatype State = State(
    upper: seq<int>,
    lower: seq<int>,
    lastIndex: int,
    lastUpper: int,
    added: seq<Bound>,
    checks: nat,
    someWork: bool
  )

  function Start(n: nat, checks: nat): State {
    State(seq(n, _ => MAX_VALUE), seq(n, _ => 0), -1, 0, [], checks, true)
  }

  function Uppers(upper: seq<int>): (bounds: seq<Bound>)
    ensures |bounds| == |upper| && forall i :: 0 <= i < |upper| ==> bounds[i] == Bound(i, upper[i])
  {
    seq(|upper|, i requires 0 <= i < |upper| => Bound(i, upper[i]))
  }

  function Narrowed(upper: seq<int>, m: Model): (u: seq<int>)
    ensures |u| == |upper|
  {
    seq(|upper|, i requires 0 <= i < |upper| => if i < |m| && m[i] < upper[i] then m[i] else upper[i])
  }

  /** The first term whose bounds have not met, or the number of terms. */
  function FirstOpen(lower: seq<int>, upper: seq<int>, from: nat): (i: nat)
    requires |lower| == |upper| && from <= |upper|
    ensures from <= i <= |upper|
    ensures forall j :: from <= j < i ==> lower[j] >= upper[j]
    ensures i < |upper| ==> lower[i] < upper[i]
    decreases |upper| - from
  {
    if from == |upper| || lower[from] < upper[from] then from else FirstOpen(lower, upper, from + 1)
  }

  /** Java's `(upper + lower) / 2`: a sum that may wrap, and a quotient rounded towards zero. */
  function Half(upper: int, lower: int): int {
    var sum: int := ToInt32((upper + lower) % TWO_32);
    if sum >= 0 then sum / 2 else -(-sum / 2)
  }

  predicate WellFormed(n: nat, s: State) {
    && |s.upper| == |s.lower| == n
    && (if s.someWork then -1 <= s.lastIndex < n else s.added == [])
  }

  function Turn(o: Oracle, base: seq<Bound>, s: State): (t: State)
    requires WellFormed(o.n, s) && s.someWork
    ensures WellFormed(o.n, t)
  {
    var added := s.added + Uppers(s.upper);
    match o.check(s.checks, base + added)
    case None =>
      var lower := if s.lastIndex != -1 then s.lower[s.lastIndex := s.lastUpper + 1] else s.lower;
      s.(lower := lower, added := [], checks := s.checks + 1)
    case Some(m) =>
      var upper := Narrowed(s.upper, m);
      var i := FirstOpen(s.lower, upper, 0);
      if i < o.n then
        var half := Half(upper[i], s.lower[i]);
        State(upper, s.lower, i, half, added + [Bound(i, half)], s.checks + 1, true)
      else
        State(upper, s.lower, 0, s.lastUpper, [], s.checks + 1, false)
  }

  /** The variables after `turns` checks, or on exit if that comes first. */
  function Reach(o: Oracle, base: seq<Bound>, checks: nat, turns: nat): (s: State)
    ensures WellFormed(o.n, s)
  {
    if turns == 0 then Start(o.n, checks)
    else
      var s := Reach(o, base, checks, turns - 1);
      if s.someWork then Turn(o, base, s) else s
  }

  // ---- The invariant -----------------------------------------------------------------------------------

  /** A bisection bound is asserted and has not been answered yet. */
  predicate Pending(s: State) {
    s.added != []
  }

  /** No model up to `upper` lies below `lower` anywhere. */
  ghost predicate Floor(o: Oracle, base: seq<Bound>, lower: seq<int>, upper: seq<int>) {
    forall m: Model :: Allowed(o, base, m) && AtMost(m, upper) ==> AtMost(lower, m)
  }

  /** What has been asserted says nothing about models up to `upper`, but for the bound `pending`. */
  predicate Answered(upper: seq<int>, added: seq<Bound>, pending: Bound) {
    forall b :: b in added ==> b.term < |upper| && (upper[b.term] <= Unsigned(b.value) || b == pending)
  }

  /** `upper` is the last model, and what has been asserted since the push leaves out no model up to it but for
      the pending bound. */
  ghost predicate Attained(o: Oracle, base: seq<Bound>, s: State) {
    && WellFormed(o.n, s)
    && (forall i :: 0 <= i < o.n ==> 0 <= s.upper[i] <= MAX_VALUE)
    && (if s.someWork && s.lastIndex == -1 then s.upper == Start(o.n, 0).upper && !Pending(s)
        else Allowed(o, base, s.upper))
    && (Pending(s) ==>
          && s.lastUpper <= MAX_VALUE
          && Bound(s.lastIndex, s.lastUpper) in s.added
          && Answered(s.upper, s.added, Bound(s.lastIndex, s.lastUpper)))
  }

  /** And `lower` is the floor of what is left. */
  ghost predicate Inv(o: Oracle, base: seq<Bound>, s: State) {
    && Attained(o, base, s)
    && (forall i :: 0 <= i < o.n ==> 0 <= s.lower[i] <= s.upper[i])
    && Floor(o, base, s.lower, s.upper)
    && (s.someWork && s.lastIndex == -1 ==> s.lower == Start(o.n, 0).lower)
    && (Pending(s) ==>
          && s.lower[s.lastIndex] < s.upper[s.lastIndex]
          && s.lastUpper == Half(s.upper[s.lastIndex], s.lower[s.lastIndex]))
    && (!s.someWork ==> s.lower == s.upper)
  }

  /** The midpoint of two Java ints lies between them exactly when their sum does not wrap; a sum that does
      wrap gives a bound above every model that is left. */
  lemma HalfBetween(lower: int, upper: int)
    requires 0 <= lower < upper <= MAX_VALUE
    ensures lower <= Half(upper, lower) < upper <==> lower + upper <= MAX_VALUE
    ensures lower + upper > MAX_VALUE ==> Half(upper, lower) < 0 && Unsigned(Half(upper, lower)) > MAX_VALUE
    ensures Half(upper, lower) < TWO_31 / 2
  {
  }

  lemma HalfIsSmall(upper: int, lower: int)
    ensures Half(upper, lower) < TWO_31 / 2
  {
  }

  lemma {:induction false} UppersHold(m: Model, upper: seq<int>)
    requires |m| == |upper| && forall i :: 0 <= i < |upper| ==> 0 <= upper[i] <= MAX_VALUE
    ensures HoldAll(m, Uppers(upper)) <==> AtMost(m, upper)
  {
    if HoldAll(m, Uppers(upper)) {
      forall i | 0 <= i < |m|
        ensures m[i] <= upper[i]
      {
        assert Uppers(upper)[i] in Uppers(upper) && Holds(m, Uppers(upper)[i]);
      }
    }
  }

  lemma {:induction false} HoldBoth(m: Model, a: seq<Bound>, b: seq<Bound>)
    ensures HoldAll(m, a + b) <==> HoldAll(m, a) && HoldAll(m, b)
  {
    if HoldAll(m, a + b) {
      assert forall x :: x in a ==> x in a + b;
      assert forall x :: x in b ==> x in a + b;
    }
  }

  /** What a check asks, in terms of the models that are no larger than the last one. */
  lemma {:induction false} Asked(o: Oracle, base: seq<Bound>, s: State, m: Model)
    requires Attained(o, base, s)
    ensures Allowed(o, base + (s.added + Uppers(s.upper)), m) <==>
              && Allowed(o, base, m) && AtMost(m, s.upper)
              && (Pending(s) ==> m[s.lastIndex] <= Unsigned(s.lastUpper))
  {
    HoldBoth(m, base, s.added + Uppers(s.upper));
    HoldBoth(m, s.added, Uppers(s.upper));
    if |m| == o.n {
      UppersHold(m, s.upper);
      if Pending(s) {
        var p := Bound(s.lastIndex, s.lastUpper);
        if HoldAll(m, s.added) {
          assert Holds(m, p);
        }
        if AtMost(m, s.upper) && m[p.term] <= Unsigned(p.value) {
          forall b | b in s.added
            ensures Holds(m, b)
          {
          }
        }
      }
    }
  }

  /** A check that succeeds: the model is no larger than the last one, and below the pending bound. */
  lemma {:induction false} Found(o: Oracle, base: seq<Bound>, s: State, m: Model)
    requires Honest(o) && Attained(o, base, s) && s.someWork
    requires o.check(s.checks, base + (s.added + Uppers(s.upper))) == Some(m)
    ensures Allowed(o, base, m) && AtMost(m, s.upper) && Narrowed(s.upper, m) == m
    ensures Pending(s) ==> m[s.lastIndex] <= Unsigned(s.lastUpper)
  {
    Asked(o, base, s, m);
  }

  lemma {:induction false} SoundIsHonest(o: Oracle)
    requires Sound(o)
    ensures Honest(o)
  {
    hide Allowed;
  }

  /** And it is above the floor. */
  lemma {:induction false} Satisfiable(o: Oracle, base: seq<Bound>, s: State, m: Model)
    requires Sound(o) && Inv(o, base, s) && s.someWork
    requires o.check(s.checks, base + (s.added + Uppers(s.upper))) == Some(m)
    ensures Allowed(o, base, m) && AtMost(m, s.upper) && Narrowed(s.upper, m) == m
    ensures Pending(s) ==> m[s.lastIndex] <= Unsigned(s.lastUpper)
    ensures AtMost(s.lower, m)
  {
    SoundIsHonest(o);
    Found(o, base, s, m);
    hide Sound, Honest, Allowed, Narrowed;
  }

  /** A check that fails: either nothing is feasible, or the pending bound was too low. In particular the
      first check after a push succeeds once a model has been found. */
  lemma {:induction false} Unsatisfiable(o: Oracle, base: seq<Bound>, s: State)
    requires Sound(o) && Inv(o, base, s) && s.someWork
    requires o.check(s.checks, base + (s.added + Uppers(s.upper))) == None
    ensures s.lastIndex == -1 ==> forall m: Model :: !FeasibleUpTo(o, base, m, MAX_VALUE)
    ensures s.lastIndex != -1 ==>
              && Pending(s) && s.lower[s.lastIndex] <= s.lastUpper < s.upper[s.lastIndex]
              && forall m: Model :: Allowed(o, base, m) && AtMost(m, s.upper) ==> m[s.lastIndex] > s.lastUpper
  {
    forall m: Model | Allowed(o, base, m) && AtMost(m, s.upper)
      ensures Pending(s) && m[s.lastIndex] > Unsigned(s.lastUpper)
    {
      Asked(o, base, s, m);
    }
    if s.lastIndex == -1 {
      forall m: Model
        ensures !FeasibleUpTo(o, base, m, MAX_VALUE)
      {
        if FeasibleUpTo(o, base, m, MAX_VALUE) {
          assert AtMost(m, s.upper);
        }
      }
    } else {
      assert AtMost(s.upper, s.upper);
      HalfBetween(s.lower[s.lastIndex], s.upper[s.lastIndex]);
    }
  }

  lemma {:induction false} FailureKeeps(o: Oracle, base: seq<Bound>, s: State)
    requires Sound(o) && Inv(o, base, s) && s.someWork
    requires o.check(s.checks, base + (s.added + Uppers(s.upper))) == None
    ensures Inv(o, base, Turn(o, base, s))
  {
    Unsatisfiable(o, base, s);
    hide Allowed, Half, Sound, Uppers, Unsigned;
    var t := Turn(o, base, s);
    assert t.upper == s.upper;
    if s.lastIndex != -1 {
      assert t.lower == s.lower[s.lastIndex := s.lastUpper + 1];
    }
  }

  /** A model found answers every bound asserted so far, which leaves the new one. */
  lemma ModelAnswers(upper: seq<int>, added: seq<Bound>, pending: Bound, m: Model, next: Bound)
    requires Answered(upper, added, pending) && AtMost(m, upper)
    requires pending in added ==> m[pending.term] <= Unsigned(pending.value)
    requires forall i :: 0 <= i < |upper| ==> upper[i] <= MAX_VALUE
    requires next.term < |m|
    ensures Answered(m, added + Uppers(upper) + [next], next)
  {
  }

  lemma {:induction false} FloorStays(o: Oracle, base: seq<Bound>, lower: seq<int>, upper: seq<int>, m: Model)
    requires Floor(o, base, lower, upper) && AtMost(m, upper)
    ensures Floor(o, base, lower, m)
  {
    assert forall x: Model :: AtMost(x, m) ==> AtMost(x, upper);
  }

  lemma {:induction false} TurnAttains(o: Oracle, base: seq<Bound>, s: State)
    requires Honest(o) && Attained(o, base, s) && s.someWork
    ensures Attained(o, base, Turn(o, base, s)) && AtMost(Turn(o, base, s).upper, s.upper)
  {
    var t := Turn(o, base, s);
    match o.check(s.checks, base + (s.added + Uppers(s.upper)))
    case None =>
    case Some(m) =>
      Found(o, base, s, m);
      hide Allowed, Half, Honest, Narrowed, FirstOpen, Uppers, Unsigned, Answered;
      assert t.upper == m;
      if t.someWork {
        HalfIsSmall(t.upper[t.lastIndex], t.lower[t.lastIndex]);
        ModelAnswers(s.upper, s.added, Bound(if Pending(s) then s.lastIndex else 0, s.lastUpper), m,
                     Bound(t.lastIndex, t.lastUpper));
      }
  }

  lemma {:induction false} ReachAttains(o: Oracle, base: seq<Bound>, checks: nat, turns: nat)
    requires Honest(o)
    ensures Attained(o, base, Reach(o, base, checks, turns))
  {
    hide Honest, Turn;
    if turns > 0 {
      ReachAttains(o, base, checks, turns - 1);
      var s := Reach(o, base, checks, turns - 1);
      hide Attained;
      if s.someWork {
        TurnAttains(o, base, s);
      }
    } else {
      hide Allowed;
    }
  }

  lemma {:induction false} SuccessKeeps(o: Oracle, base: seq<Bound>, s: State, m: Model)
    requires Sound(o) && Inv(o, base, s) && s.someWork
    requires o.check(s.checks, base + (s.added + Uppers(s.upper))) == Some(m)
    ensures Inv(o, base, Turn(o, base, s))
  {
    SoundIsHonest(o);
    TurnAttains(o, base, s);
    Satisfiable(o, base, s, m);
    FloorStays(o, base, s.lower, s.upper, m);
    var t := Turn(o, base, s);
    assert t.upper == m && t.lower == s.lower;
    hide Allowed, Half, Sound, Honest, Narrowed, FirstOpen, Uppers, Unsigned, Floor, Answered;
  }

  lemma {:induction false} TurnKeeps(o: Oracle, base: seq<Bound>, s: State)
    requires Sound(o) && Inv(o, base, s) && s.someWork
    ensures Inv(o, base, Turn(o, base, s))
  {
    hide Inv, Sound;
    match o.check(s.checks, base + (s.added + Uppers(s.upper)))
    case None =>
      FailureKeeps(o, base, s);
    case Some(m) =>
      SuccessKeeps(o, base, s, m);
  }

  lemma {:induction false} ReachKeeps(o: Oracle, base: seq<Bound>, checks: nat, turns: nat)
    requires Sound(o)
    ensures Inv(o, base, Reach(o, base, checks, turns))
  {
    hide Sound, Turn;
    if turns > 0 {
      ReachKeeps(o, base, checks, turns - 1);
      hide Inv;
      var s := Reach(o, base, checks, turns - 1);
      if s.someWork {
        TurnKeeps(o, base, s);
      }
    } else {
      hide Allowed;
    }
  }

  // ---- What comes out --------------------------------------------------------------------------------------

  /** Whatever the solver's constraints, the number of terms and the models it happens to find: on exit the
      bounds have met in a model, and no other model is as small in every term. */
  lemma {:induction false} ExitIsMinimal(o: Oracle, base: seq<Bound>, checks: nat, turns: nat)
    requires Sound(o)
    ensures var s := Reach(o, base, checks, turns);
      !s.someWork ==>
        && s.lower == s.upper
        && (forall i :: 0 <= i < o.n ==> 0 <= s.upper[i])
        && Allowed(o, base, s.upper)
        && forall m: Model :: Allowed(o, base, m) && AtMost(m, s.upper) ==> m == s.upper
  {
    hide Allowed, Answered, Sound, Turn, Reach;
    ReachKeeps(o, base, checks, turns);
    var s := Reach(o, base, checks, turns);
    if !s.someWork {
      forall m: Model | Allowed(o, base, m) && AtMost(m, s.upper)
        ensures m == s.upper
      {
        assert AtMost(s.lower, m);
      }
    }
  }

  // ---- Undecided checks ------------------------------------------------------------------------------------

  /** With a solver that may leave checks undecided, `upper` is still a model on exit, and no more than that. */
  lemma {:induction false} ExitIsModel(o: Oracle, base: seq<Bound>, checks: nat, turns: nat)
    requires Honest(o) && !Reach(o, base, checks, turns).someWork
    ensures var u := Reach(o, base, checks, turns).upper;
      (forall i :: 0 <= i < |u| ==> 0 <= u[i] <= MAX_VALUE) && Allowed(o, base, u)
  {
    ReachAttains(o, base, checks, turns);
    hide Honest, Allowed, Reach;
  }

  /** The check in state `s` fails although `m` meets all that is asserted. */
  ghost predicate Missed(o: Oracle, base: seq<Bound>, s: State, m: Model) {
    && s.someWork && o.check(s.checks, base + (s.added + Uppers(s.upper))) == None
    && Allowed(o, base + (s.added + Uppers(s.upper)), m)
  }

  ghost predicate MissedBefore(o: Oracle, base: seq<Bound>, checks: nat, turns: nat, m: Model) {
    exists t: nat :: t < turns && Missed(o, base, Reach(o, base, checks, t), m)
  }

  /** A check that fails raises the floor above a model that is left only if it missed that model. */
  lemma {:induction false} RaisedIsMissed(o: Oracle, base: seq<Bound>, s: State, m: Model)
    requires Honest(o) && Attained(o, base, s) && s.someWork && Allowed(o, base, m)
    requires AtMost(m, Turn(o, base, s).upper) && AtMost(s.lower, m)
    ensures AtMost(m, s.upper) && (AtMost(Turn(o, base, s).lower, m) || Missed(o, base, s, m))
  {
    TurnAttains(o, base, s);
    Asked(o, base, s, m);
    hide Allowed, Honest, Half, Narrowed, FirstOpen, Uppers, Answered;
    var t := Turn(o, base, s);
    if o.check(s.checks, base + (s.added + Uppers(s.upper))) == None && s.lastIndex != -1 {
      assert t.lower == s.lower[s.lastIndex := s.lastUpper + 1];
    }
  }

  lemma {:induction false} FloorOrMissed(o: Oracle, base: seq<Bound>, checks: nat, turns: nat, m: Model)
    requires Honest(o) && Allowed(o, base, m) && AtMost(m, Reach(o, base, checks, turns).upper)
    ensures AtMost(Reach(o, base, checks, turns).lower, m) || MissedBefore(o, base, checks, turns, m)
  {
    hide Honest, Allowed, Turn, Attained, Missed;
    if turns == 0 {
    } else {
      var s := Reach(o, base, checks, turns - 1);
      if s.someWork {
        ReachAttains(o, base, checks, turns - 1);
        TurnAttains(o, base, s);
        FloorOrMissed(o, base, checks, turns - 1, m);
        if AtMost(s.lower, m) {
          RaisedIsMissed(o, base, s, m);
        }
      } else {
        FloorOrMissed(o, base, checks, turns - 1, m);
      }
    }
  }

  /** On exit a smaller model is one that a failed check has missed: only undecided checks, never the models
      found, keep the result from being minimal. */
  lemma {:induction false} SmallerIsMissed(o: Oracle, base: seq<Bound>, checks: nat, turns: nat, m: Model)
    requires Honest(o) && !Reach(o, base, checks, turns).someWork
    requires AtMost(m, Reach(o, base, checks, turns).upper) && m != Reach(o, base, checks, turns).upper
    ensures Allowed(o, base, m) <==> MissedBefore(o, base, checks, turns, m)
  {
    if Allowed(o, base, m) {
      FloorOrMissed(o, base, checks, turns, m);
      MetOnExit(o, base, checks, turns);
    } else {
      forall t: nat
        ensures !Missed(o, base, Reach(o, base, checks, t), m)
      {
        ReachAttains(o, base, checks, t);
        Asked(o, base, Reach(o, base, checks, t), m);
        hide Attained, Allowed, Reach;
      }
    }
    hide Honest, Allowed, Reach, Missed;
  }

  lemma {:induction false} MetOnExit(o: Oracle, base: seq<Bound>, checks: nat, turns: nat)
    requires !Reach(o, base, checks, turns).someWork
    ensures var s := Reach(o, base, checks, turns); AtMost(s.upper, s.lower)
  {
    hide FirstOpen, Narrowed, Uppers, Half;
    if turns > 0 && !Reach(o, base, checks, turns - 1).someWork {
      MetOnExit(o, base, checks, turns - 1);
    }
  }

  /** A solver for one term that may be 0 or 1: it finds 1 where it can and leaves its second check undecided. */
  const HESITANT := Oracle(1, (m: Model) => m == [0] || m == [1],
                           (k: nat, bounds: seq<Bound>) =>
                             if k != 1 && HoldAll([1], bounds) then Some([1]) else None)

  lemma HesitantIsHonest()
    ensures Honest(HESITANT) && Allowed(HESITANT, [], [0])
  {
  }

  lemma {:induction false} HesitantTurns(s: State, t: State)
    requires s == State([1], [0], 0, 0, Uppers([MAX_VALUE]) + [Bound(0, 0)], 1, true)
    requires t == State([1], [1], 0, 0, [], 2, true)
    ensures Turn(HESITANT, [], Start(1, 0)) == s && Turn(HESITANT, [], s) == t
  {
    assert Start(1, 0) == State([MAX_VALUE], [0], -1, 0, [], 0, true);
    assert [] + ([] + Uppers([MAX_VALUE])) == Uppers([MAX_VALUE]);
    UppersHold([1], [MAX_VALUE]);
    assert HESITANT.check(0, Uppers([MAX_VALUE])) == Some([1]);
    assert HESITANT.check(1, [] + (s.added + Uppers([1]))) == None;
    assert Narrowed([MAX_VALUE], [1]) == [1];
    hide Uppers, Narrowed, HoldAll;
  }

  lemma {:induction false} HesitantEnds(t: State)
    requires t == State([1], [1], 0, 0, [], 2, true)
    ensures var u := Turn(HESITANT, [], t); !u.someWork && u.upper == [1]
  {
    assert [] + ([] + Uppers([1])) == Uppers([1]);
    UppersHold([1], [1]);
    assert HESITANT.check(2, Uppers([1])) == Some([1]);
    assert Narrowed([1], [1]) == [1];
    hide Uppers, Narrowed, HoldAll;
  }

  /** The search with it ends in 1, although 0 will do. */
  lemma {:induction false} UndecidedMisses()
    ensures Honest(HESITANT) && Allowed(HESITANT, [], [0])
    ensures var s := Reach(HESITANT, [], 0, 3); !s.someWork && s.upper == [1]
  {
    HesitantIsHonest();
    hide Turn, Uppers, Narrowed, Honest, Allowed;
    var s := State([1], [0], 0, 0, Uppers([MAX_VALUE]) + [Bound(0, 0)], 1, true);
    var t := State([1], [1], 0, 0, [], 2, true);
    HesitantTurns(s, t);
    HesitantEnds(t);
    assert Reach(HESITANT, [], 0, 0) == Start(1, 0);
    assert Reach(HESITANT, [], 0, 1) == s;
    assert Reach(HESITANT, [], 0, 2) == t;
  }

  lemma {:induction false} ReachStays(o: Oracle, base: seq<Bound>, checks: nat, turns: nat, more: nat)
    requires turns <= more && !Reach(o, base, checks, turns).someWork
    ensures Reach(o, base, checks, more) == Reach(o, base, checks, turns)
    decreases more
  {
    hide Sound, Turn;
    if turns >= more {
    } else {
      ReachStays(o, base, checks, turns, more - 1);
    }
  }

  // ---- The code --------------------------------------------------------------------------------------------

  /** The part of a Z3 solver that `checkSmall` uses. */
  class Solver {
    const oracle: Oracle
    var assertions: seq<Bound>
    var scopes: seq<nat>
    var checks: nat
    var model: Option<Model>

    ghost predicate Valid()
      reads this
    {
      Honest(oracle) && forall k :: 0 <= k < |scopes| ==> scopes[k] <= |assertions|
    }

    constructor (oracle: Oracle)
      requires Honest(oracle)
      ensures Valid() && this.oracle == oracle && assertions == [] && scopes == []
    {
      this.oracle, assertions, scopes, checks, model := oracle, [], [], 0, None;
    }

    method Push()
      requires Valid()
      modifies this`scopes
      ensures Valid() && scopes == old(scopes) + [|assertions|]
    {
      scopes := scopes + [|assertions|];
    }

    method Pop()
      requires Valid() && scopes != [] && forall k :: 0 <= k < |scopes| ==> scopes[k] <= scopes[|scopes| - 1]
      modifies this`scopes, this`assertions
      ensures Valid() && scopes == old(scopes[..|scopes| - 1])
      ensures assertions == old(assertions[..scopes[|scopes| - 1]])
    {
      assertions := assertions[..scopes[|scopes| - 1]];
      scopes := scopes[..|scopes| - 1];
    }

    method Add(b: Bound)
      requires Valid()
      modifies this`assertions
      ensures Valid() && assertions == old(assertions) + [b]
    {
      assertions := assertions + [b];
    }

    method Check() returns (sat: bool)
      requires Valid()
      modifies this`checks, this`model
      ensures Valid() && checks == old(checks) + 1
      ensures model == oracle.check(old(checks), assertions) && sat == model.Some?
    {
      model := oracle.check(checks, assertions);
      checks := checks + 1;
      sat := model.Some?;
    }
  }

  /** Assert all feasible bounds. */
  method AddUppers(solver: Solver, upper: array<int>)
    requires solver.Valid()
    modifies solver`assertions
    ensures solver.Valid() && solver.assertions == old(solver.assertions) + Uppers(upper[..])
  {
    hide Honest;
    for i := 0 to upper.Length
      invariant solver.Valid() && solver.assertions == old(solver.assertions) + Uppers(upper[..])[..i]
    {
      solver.Add(Bound(i, upper[i]));
    }
  }

  /** Narrow the bounds to the current model; each value fits a Java int, so that `getInt` does not throw. */
  method Narrow(m: Model, upper: array<int>)
    requires |m| == upper.Length && forall i :: 0 <= i < |m| ==> m[i] <= MAX_VALUE
    modifies upper
    ensures upper[..] == Narrowed(old(upper[..]), m)
  {
    for i := 0 to upper.Length
      invariant forall k :: 0 <= k < i ==> upper[k] == Narrowed(old(upper[..]), m)[k]
      invariant forall k :: i <= k < upper.Length ==> upper[k] == old(upper[k])
    {
      var ui: int32 := m[i];
      if ui < upper[i] {
        upper[i] := ui;
      }
    }
  }

  /** Find a new bound to add: the first term whose bounds have not met. */
  method NextBound(solver: Solver, upper: array<int>, lower: array<int>, lastUpper0: int)
    returns (lastIndex: int, lastUpper: int, someWork: bool)
    requires solver.Valid() && upper.Length == lower.Length
    modifies solver`assertions
    ensures var i := FirstOpen(lower[..], upper[..], 0);
      && someWork == (i < upper.Length)
      && lastIndex == (if someWork then i else 0)
      && lastUpper == (if someWork then Half(upper[i], lower[i]) else lastUpper0)
      && solver.assertions == old(solver.assertions) + (if someWork then [Bound(i, lastUpper)] else [])
      && solver.Valid()
  {
    hide Honest, Half;
    lastIndex, lastUpper, someWork := 0, lastUpper0, false;
    var i := 0;
    while i < upper.Length
      invariant 0 <= i <= upper.Length && !someWork
      invariant lastIndex == 0 && lastUpper == lastUpper0
      invariant FirstOpen(lower[..], upper[..], 0) == FirstOpen(lower[..], upper[..], i)
      invariant solver.Valid() && solver.assertions == old(solver.assertions)
    {
      if lower[i] < upper[i] {
        lastUpper := Half(upper[i], lower[i]);
        lastIndex := i;
        solver.Add(Bound(i, lastUpper));
        someWork := true;
        break;
      }
      i := i + 1;
    }
  }

  /** What a turn does to the variables, for each outcome of its check. */
  lemma {:induction false} TurnFails(o: Oracle, base: seq<Bound>, s: State, now: seq<Bound>)
    requires WellFormed(o.n, s) && s.someWork
    requires now == base + (s.added + Uppers(s.upper)) && o.check(s.checks, now) == None
    ensures var t := Turn(o, base, s);
      && t.upper == s.upper && t.added == [] && t.checks == s.checks + 1 && t.someWork
      && t.lower == (if s.lastIndex != -1 then s.lower[s.lastIndex := s.lastUpper + 1] else s.lower)
      && t.lastIndex == s.lastIndex && t.lastUpper == s.lastUpper
  {
    hide Honest, Uppers, Narrowed, FirstOpen;
  }

  lemma {:induction false} TurnSucceeds(o: Oracle, base: seq<Bound>, s: State, now: seq<Bound>, m: Model)
    requires WellFormed(o.n, s) && s.someWork
    requires now == base + (s.added + Uppers(s.upper)) && o.check(s.checks, now) == Some(m)
    ensures var t := Turn(o, base, s);
      var i := FirstOpen(s.lower, t.upper, 0);
      && t.upper == Narrowed(s.upper, m) && t.lower == s.lower && t.checks == s.checks + 1
      && t.someWork == (i < o.n)
      && t.lastIndex == (if t.someWork then i else 0)
      && t.lastUpper == (if t.someWork then Half(t.upper[i], t.lower[i]) else s.lastUpper)
      && (if t.someWork then base + t.added == now + [Bound(i, t.lastUpper)] else t.added == [])
  {
    hide Uppers, Narrowed, FirstOpen, Half;
  }

  /** The variables of `checkSmall` hold the state `s`. */
  ghost predicate Holding(upper: array<int>, lower: array<int>, lastIndex: int, lastUpper: int, solver: Solver,
                          s: State)
    reads upper, lower, solver
  {
    && upper[..] == s.upper && lower[..] == s.lower && s.checks == solver.checks
    && (s.someWork ==> s.lastIndex == lastIndex && s.lastUpper == lastUpper)
  }

  /** The body of the inner loop. */
  method CheckOnce(solver: Solver, upper: array<int>, lower: array<int>, lastIndex0: int, lastUpper0: int,
                   ghost base: seq<Bound>, ghost s: State)
    returns (checkIsSat: bool, lastIndex: int, lastUpper: int, someWork: bool)
    requires solver.Valid() && Attained(solver.oracle, base, s) && s.someWork && upper != lower
    requires Holding(upper, lower, lastIndex0, lastUpper0, solver, s) && solver.assertions == base + s.added
    modifies upper, lower, solver`assertions, solver`checks, solver`model
    ensures solver.Valid() && base <= solver.assertions
    ensures var t := Turn(solver.oracle, base, s);
      && Holding(upper, lower, lastIndex, lastUpper, solver, t) && someWork == t.someWork
      && (if checkIsSat && someWork then solver.assertions == base + t.added else t.added == [])
  {
    hide Honest, Turn, FirstOpen, Uppers, Narrowed, Half, Floor, Allowed, Answered;
    lastIndex, lastUpper, someWork := lastIndex0, lastUpper0, true;
    AddUppers(solver, upper);
    assert solver.assertions == base + (s.added + Uppers(s.upper));
    ghost var now := solver.assertions;
    checkIsSat := solver.Check();
    if !checkIsSat {
      TurnFails(solver.oracle, base, s, now);
      if lastIndex != -1 {
        lower[lastIndex] := lastUpper + 1;
      }
      return;
    }
    var m := solver.model.value;
    Found(solver.oracle, base, s, m);
    TurnSucceeds(solver.oracle, base, s, now, m);
    Narrow(m, upper);
    lastIndex, lastUpper, someWork := NextBound(solver, upper, lower, lastUpper);
  }

  /** `checkSmall`, stopped after at most `turns` checks; it goes through the states of `Reach`, whether or not
      the solver decides each check. If it comes to its end by itself, the solver's assertions and scopes are
      those on entry. */
  method CheckSmall(solver: Solver, turns: nat)
    returns (upper: array<int>, lower: array<int>, finished: bool)
    requires solver.Valid()
    modifies solver
    ensures var s := Reach(solver.oracle, old(solver.assertions), old(solver.checks), turns);
      && upper[..] == s.upper && lower[..] == s.lower && finished == !s.someWork
    ensures finished ==> solver.Valid() && solver.assertions == old(solver.assertions)
                         && solver.scopes == old(solver.scopes)
  {
    hide Honest, Turn, Attained;
    var o := solver.oracle;
    ghost var base, start, scopes := solver.assertions, solver.checks, solver.scopes;
    upper, lower := new int[o.n](_ => MAX_VALUE), new int[o.n](_ => 0);
    var someWork, lastIndex, lastUpper, k := true, -1, 0, 0;
    ghost var s := Start(o.n, start);
    while someWork
      invariant 0 <= k <= turns && s == Reach(o, base, start, k)
      invariant solver.Valid() && solver.assertions == base && solver.scopes == scopes
      invariant Holding(upper, lower, lastIndex, lastUpper, solver, s)
      invariant s.added == [] && s.someWork == someWork
      decreases turns - k
    {
      solver.Push();
      var checkIsSat := true;
      ghost var k0 := k;
      while checkIsSat && someWork
        invariant k0 <= k <= turns && s == Reach(o, base, start, k) && (k == k0 ==> checkIsSat && someWork)
        invariant solver.Valid() && solver.scopes == scopes + [|base|] && base <= solver.assertions
        invariant Holding(upper, lower, lastIndex, lastUpper, solver, s) && s.someWork == someWork
        invariant if checkIsSat && someWork then solver.assertions == base + s.added else s.added == []
        decreases turns - k
      {
        if k == turns {
          return upper, lower, false;
        }
        ReachAttains(o, base, start, k);
        checkIsSat, lastIndex, lastUpper, someWork :=
          CheckOnce(solver, upper, lower, lastIndex, lastUpper, base, s);
        k, s := k + 1, Turn(o, base, s);
      }
      solver.Pop();
    }
    ReachStays(o, base, start, k, turns);
    return upper, lower, true;
  }
}
