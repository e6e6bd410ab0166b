/** When `checkSmall` ends: exactly which constraints let every solver bring the search to its end. */
module Ending {
  import opened Wire
  import opened CheckSmall

  /** There are models with every term a non-negative Java int, and these terms are at most `most`. */
  ghost predicate Bounded(o: Oracle, base: seq<Bound>, most: nat) {
    && (exists m: Model :: FeasibleUpTo(o, base, m, MAX_VALUE))
    && (forall m: Model :: FeasibleUpTo(o, base, m, MAX_VALUE) ==> FeasibleUpTo(o, base, m, most))
  }

  /** A model no larger than `u` has term `i` below `limit`. */
  ghost predicate Below(o: Oracle, base: seq<Bound>, u: Model, i: nat, limit: nat)
    requires i < |u|
  {
    exists m: Model :: Allowed(o, base, m) && AtMost(m, u) && m[i] < limit
  }

  // ---- What stands in the way ----------------------------------------------------------------------------

  /** The floor of term `i` after a check below the half has failed for each of `us` in turn. */
  function Raised(us: seq<Model>, i: nat): (floor: nat)
    requires forall k :: 0 <= k < |us| ==> i < |us[k]|
  {
    if us == [] then 0 else (Raised(us[..|us| - 1], i) + us[|us| - 1][i]) / 2 + 1
  }

  /** Each term before `i` is as small as the model lets it be, and at most 2^30. */
  ghost predicate Lowest(o: Oracle, base: seq<Bound>, u: Model, i: nat)
    requires i <= |u|
  {
    forall j :: 0 <= j < i ==> u[j] <= TWO_31 / 2 && !Below(o, base, u, j, u[j])
  }

  /** `u` may be the model at hand when term `i` is bisected after `us` have been. */
  ghost predicate Follows(o: Oracle, base: seq<Bound>, i: nat, us: seq<Model>, u: Model) {
    && FeasibleUpTo(o, base, u, MAX_VALUE) && i < o.n
    && (if us == [] then Lowest(o, base, u, i) else AtMost(u, us[|us| - 1]))
  }

  /** Models, each no larger than the one before it, for each of which the half of term `i` is a Java int and
      too low. */
  ghost predicate Climb(o: Oracle, base: seq<Bound>, i: nat, us: seq<Model>) {
    && (forall k :: 0 <= k < |us| ==> i < |us[k]|)
    && (us != [] ==>
          var before, u := us[..|us| - 1], us[|us| - 1];
          && Climb(o, base, i, before)
          && Follows(o, base, i, before, u)
          && Raised(before, i) + u[i] <= MAX_VALUE
          && !Below(o, base, u, i, Raised(us, i)))
  }

  /** Such models raise the floor of term `i` so far that its sum with a model that is left, and has room
      above the floor, is no Java int. */
  ghost predicate Crossing(o: Oracle, base: seq<Bound>, i: nat, us: seq<Model>, u: Model) {
    && Climb(o, base, i, us) && Follows(o, base, i, us, u)
    && Raised(us, i) < u[i] && Raised(us, i) + u[i] > MAX_VALUE
  }

  /** There is a model of non-negative Java ints, and nothing in the way. */
  ghost predicate Settles(o: Oracle, base: seq<Bound>) {
    && (exists m: Model :: FeasibleUpTo(o, base, m, MAX_VALUE))
    && (forall i: nat, us: seq<Model>, u: Model :: !Crossing(o, base, i, us, u))
  }

  /** The search ends, if the solver is sound. */
  ghost predicate AlwaysExits(o: Oracle, base: seq<Bound>) {
    Sound(o) ==> exists turns: nat :: !Reach(o, base, 0, turns).someWork
  }

  /** A bisection bound is asserted for which the sum did not fit a Java int. */
  predicate Overflows(s: State)
    requires |s.lower| == |s.upper|
  {
    && Pending(s) && 0 <= s.lastIndex < |s.upper|
    && s.lower[s.lastIndex] + s.upper[s.lastIndex] > MAX_VALUE
  }

  // ---- Measure ---------------------------------------------------------------------------------------------

  function Slack(lower: seq<int>, upper: seq<int>): int
    requires |lower| == |upper|
  {
    if lower == [] then 0 else upper[0] - lower[0] + Slack(lower[1..], upper[1..])
  }

  lemma {:induction false} SlackGrows(low: seq<int>, high: seq<int>, lower: seq<int>, upper: seq<int>)
    requires AtMost(lower, low) && AtMost(high, upper) && |low| == |high|
    ensures Slack(low, high) <= Slack(lower, upper)
    ensures low != lower || high != upper ==> Slack(low, high) < Slack(lower, upper)
  {
    if low == [] {
    } else {
      SlackGrows(low[1..], high[1..], lower[1..], upper[1..]);
      assert low == [low[0]] + low[1..] && high == [high[0]] + high[1..];
      assert lower == [lower[0]] + lower[1..] && upper == [upper[0]] + upper[1..];
    }
  }

  lemma {:induction false} SlackBound(lower: seq<int>, upper: seq<int>)
    requires |lower| == |upper| && forall i :: 0 <= i < |lower| ==> 0 <= lower[i] <= upper[i] <= MAX_VALUE
    ensures 0 <= Slack(lower, upper) <= |lower| * MAX_VALUE
  {
    if lower == [] {
    } else {
      SlackBound(lower[1..], upper[1..]);
    }
  }

  /** Room between the bounds first, then whether a bisection bound is still to be tried. */
  function Measure(s: State): int
    requires |s.lower| == |s.upper|
  {
    if s.someWork then 1 + 2 * Slack(s.lower, s.upper) + (if Pending(s) then 0 else 1) else 0
  }

  lemma {:induction false} Narrows(o: Oracle, base: seq<Bound>, s: State, m: Model)
    requires Sound(o) && Inv(o, base, s) && s.someWork
    requires o.check(s.checks, base + (s.added + Uppers(s.upper))) == Some(m)
    ensures var t := Turn(o, base, s); t.upper == m && t.lower == s.lower && (t.someWork ==> Pending(t))
  {
    Satisfiable(o, base, s, m);
    hide Inv, Sound, Half, FirstOpen, Allowed, AtMost, Narrowed, Uppers;
  }

  /** The floor is never raised above 2^30: a sum that does not wrap has a smaller half. */
  lemma {:induction false} FloorIsSmall(o: Oracle, base: seq<Bound>, checks: nat, turns: nat)
    requires Sound(o)
    ensures AtMostAll(Reach(o, base, checks, turns).lower, TWO_31 / 2)
  {
    hide AtMostAll, Inv, Sound, Turn;
    if turns > 0 {
      FloorIsSmall(o, base, checks, turns - 1);
      ReachKeeps(o, base, checks, turns - 1);
      var s := Reach(o, base, checks, turns - 1);
      if s.someWork {
        match o.check(s.checks, base + (s.added + Uppers(s.upper)))
        case None => RaisedIsSmall(o, base, s);
        case Some(m) => Narrows(o, base, s, m);
      }
    } else {
      assert AtMostAll(Start(o.n, checks).lower, TWO_31 / 2) by {
        NothingIsSmall(o.n, checks);
      }
    }
  }

  predicate AtMostAll(values: seq<int>, most: int) {
    forall i :: 0 <= i < |values| ==> values[i] <= most
  }

  lemma NothingIsSmall(n: nat, checks: nat)
    ensures AtMostAll(Start(n, checks).lower, TWO_31 / 2)
  {
  }

  lemma {:induction false} RaisedIsSmall(o: Oracle, base: seq<Bound>, s: State)
    requires Sound(o) && Inv(o, base, s) && s.someWork && AtMostAll(s.lower, TWO_31 / 2)
    requires o.check(s.checks, base + (s.added + Uppers(s.upper))) == None
    ensures AtMostAll(Turn(o, base, s).lower, TWO_31 / 2)
  {
    Unsatisfiable(o, base, s);
    if s.lastIndex != -1 {
      HalfBetween(s.lower[s.lastIndex], s.upper[s.lastIndex]);
    }
    hide Half, Allowed, Sound, Uppers, Floor, Answered;
  }

  lemma {:induction false} SuccessDecreases(o: Oracle, base: seq<Bound>, s: State, m: Model)
    requires Sound(o) && Inv(o, base, s) && s.someWork && !Overflows(s)
    requires o.check(s.checks, base + (s.added + Uppers(s.upper))) == Some(m)
    ensures Measure(Turn(o, base, s)) < Measure(s)
  {
    hide Turn, Slack, Allowed, Sound, Uppers, Half, Narrowed, Floor, Answered;
    Satisfiable(o, base, s, m);
    Narrows(o, base, s, m);
    SlackGrows(s.lower, m, s.lower, s.upper);
    SlackBound(s.lower, s.upper);
    SlackBound(s.lower, m);
    if Pending(s) {
      HalfBetween(s.lower[s.lastIndex], s.upper[s.lastIndex]);
      assert m[s.lastIndex] < s.upper[s.lastIndex];
    }
    hide Inv, AtMost;
  }

  lemma {:induction false} FailureDecreases(o: Oracle, base: seq<Bound>, s: State)
    requires Sound(o) && Inv(o, base, s) && s.someWork && s.lastIndex != -1
    requires o.check(s.checks, base + (s.added + Uppers(s.upper))) == None
    ensures Measure(Turn(o, base, s)) < Measure(s)
  {
    Unsatisfiable(o, base, s);
    hide FeasibleUpTo, Allowed, Sound, Uppers, Half, Floor, Answered;
    var t := Turn(o, base, s);
    assert t.upper == s.upper && t.lower == s.lower[s.lastIndex := s.lastUpper + 1];
    SlackGrows(t.lower, t.upper, s.lower, s.upper);
    hide Slack;
  }

  lemma {:induction false} StartMeasure(n: nat, checks: nat)
    ensures Measure(Start(n, checks)) <= 2 * (n * MAX_VALUE) + 2
  {
    SlackBound(Start(n, checks).lower, Start(n, checks).upper);
    hide Slack;
  }

  /** As long as no sum overflows, each check takes something away. */
  lemma {:induction false} ReachDecreases(o: Oracle, base: seq<Bound>, checks: nat, turns: nat)
    requires Sound(o) && exists m: Model :: FeasibleUpTo(o, base, m, MAX_VALUE)
    requires forall t: nat :: t < turns ==> !Overflows(Reach(o, base, checks, t))
    ensures var s := Reach(o, base, checks, turns);
      s.someWork ==> Measure(s) + turns <= 2 * (o.n * MAX_VALUE) + 2
  {
    hide Sound, Measure, Turn, Inv, Overflows, FeasibleUpTo;
    if turns > 0 {
      ReachDecreases(o, base, checks, turns - 1);
      ReachKeeps(o, base, checks, turns - 1);
      var s := Reach(o, base, checks, turns - 1);
      if s.someWork {
        match o.check(s.checks, base + (s.added + Uppers(s.upper)))
        case None =>
          Unsatisfiable(o, base, s);
          FailureDecreases(o, base, s);
        case Some(m) => SuccessDecreases(o, base, s, m);
      }
    } else {
      StartMeasure(o.n, checks);
    }
  }

  /** The bound that is pending is for the first term whose bounds have not met. */
  lemma {:induction false} PendingIsFirst(o: Oracle, base: seq<Bound>, checks: nat, turns: nat)
    requires Sound(o)
    ensures var s := Reach(o, base, checks, turns);
      Pending(s) ==> s.lastIndex == FirstOpen(s.lower, s.upper, 0) < o.n
  {
    hide Sound, FirstOpen, Narrowed, Uppers, Half;
  }

  // ---- A sum overflows only after a climb --------------------------------------------------------------------

  /** A climb has raised the floor of term `i` to where it is. */
  ghost predicate Climbed(o: Oracle, base: seq<Bound>, s: State, i: nat, us: seq<Model>)
    requires |s.lower| == |s.upper| && i < |s.upper|
  {
    && Climb(o, base, i, us) && Raised(us, i) == s.lower[i]
    && (us != [] ==> AtMost(s.upper, us[|us| - 1]))
  }

  /** A floor above which a term can still be larger than 2^30 has been raised by a climb. */
  ghost predicate Trail(o: Oracle, base: seq<Bound>, s: State, i: nat)
    requires |s.lower| == |s.upper| && i < |s.upper|
  {
    s.upper[i] > TWO_31 / 2 ==>
      exists us: seq<Model> :: Climbed(o, base, s, i, us)
  }

  ghost predicate Trails(o: Oracle, base: seq<Bound>, s: State)
    requires |s.lower| == |s.upper|
  {
    forall i: nat :: i < |s.upper| ==> Trail(o, base, s, i)
  }

  lemma {:induction false} SuccessTrails(o: Oracle, base: seq<Bound>, s: State, t: State)
    requires |s.lower| == |s.upper| && Trails(o, base, s)
    requires t.lower == s.lower && AtMost(t.upper, s.upper)
    ensures Trails(o, base, t)
  {
    hide Climb, Raised;
    forall i: nat | i < |t.upper|
      ensures Trail(o, base, t, i)
    {
      assert Trail(o, base, s, i);
      if t.upper[i] > TWO_31 / 2 {
        var us: seq<Model> :| Climbed(o, base, s, i, us);
        assert Climbed(o, base, t, i, us);
      }
    }
  }

  /** The pending term and the model at hand are those of a climb. */
  lemma {:induction false} PendingFollows(o: Oracle, base: seq<Bound>, s: State, us: seq<Model>)
    requires Inv(o, base, s) && Pending(s) && AtMostAll(s.lower, TWO_31 / 2)
    requires s.lastIndex == FirstOpen(s.lower, s.upper, 0)
    requires us != [] ==> AtMost(s.upper, us[|us| - 1])
    ensures Follows(o, base, s.lastIndex, us, s.upper)
  {
    hide Allowed, Answered, Half;
    var u: Model := s.upper;
    forall j | 0 <= j < s.lastIndex
      ensures u[j] <= TWO_31 / 2 && !Below(o, base, u, j, u[j])
    {
      assert s.lower[j] >= u[j];
    }
  }

  lemma {:induction false} FailurePending(o: Oracle, base: seq<Bound>, s: State)
    requires Sound(o) && Inv(o, base, s) && s.someWork && s.lastIndex != -1
    requires o.check(s.checks, base + (s.added + Uppers(s.upper))) == None
    ensures var p := s.lastIndex;
      && Pending(s) && s.lower[p] + s.upper[p] <= MAX_VALUE && 0 <= s.lower[p] && 0 <= s.upper[p]
      && s.lastUpper == (s.lower[p] + s.upper[p]) / 2 && !Below(o, base, s.upper, p, s.lastUpper + 1)
  {
    Unsatisfiable(o, base, s);
    HalfBetween(s.lower[s.lastIndex], s.upper[s.lastIndex]);
    hide Sound, Allowed, Uppers, Floor, Answered, AtMost, Turn;
  }

  /** What a failed check says of the pending term, and does to its floor. */
  lemma {:induction false} FailureRaises(o: Oracle, base: seq<Bound>, s: State)
    requires Sound(o) && Inv(o, base, s) && s.someWork && s.lastIndex != -1
    requires o.check(s.checks, base + (s.added + Uppers(s.upper))) == None
    ensures var p := s.lastIndex;
      var floor := (s.lower[p] + s.upper[p]) / 2 + 1;
      && Pending(s) && s.lower[p] + s.upper[p] <= MAX_VALUE && !Below(o, base, s.upper, p, floor)
      && Turn(o, base, s) == s.(lower := s.lower[p := floor], added := [], checks := s.checks + 1)
  {
    FailurePending(o, base, s);
    hide Sound, Allowed, Uppers, Inv, Below, Half, Narrowed, FirstOpen;
  }

  lemma {:induction false} FailureTrails(o: Oracle, base: seq<Bound>, s: State)
    requires Sound(o) && Inv(o, base, s) && s.someWork && s.lastIndex != -1 && AtMostAll(s.lower, TWO_31 / 2)
    requires s.lastIndex == FirstOpen(s.lower, s.upper, 0)
    requires o.check(s.checks, base + (s.added + Uppers(s.upper))) == None
    requires Trails(o, base, s)
    ensures Trails(o, base, Turn(o, base, s))
  {
    FailureRaises(o, base, s);
    hide Half, Turn, Sound, Allowed, Uppers, Floor, Answered, AtMostAll, Climb, Raised, FirstOpen, Below;
    var t, p := Turn(o, base, s), s.lastIndex;
    forall i: nat | i < |t.upper|
      ensures Trail(o, base, t, i)
    {
      assert Trail(o, base, s, i);
      if t.upper[i] > TWO_31 / 2 {
        var us: seq<Model> :| Climbed(o, base, s, i, us);
        if i == p {
          Longer(o, base, s, us);
          assert Climbed(o, base, t, i, us + [s.upper]);
        } else {
          assert Climbed(o, base, t, i, us);
        }
      }
    }
  }

  lemma {:induction false} Longer(o: Oracle, base: seq<Bound>, s: State, us: seq<Model>)
    requires Inv(o, base, s) && Pending(s) && AtMostAll(s.lower, TWO_31 / 2)
    requires var p := s.lastIndex;
      && p == FirstOpen(s.lower, s.upper, 0)
      && Climbed(o, base, s, p, us)
      && s.lower[p] + s.upper[p] <= MAX_VALUE
      && !Below(o, base, s.upper, p, (s.lower[p] + s.upper[p]) / 2 + 1)
    ensures var longer: seq<Model>, p := us + [s.upper], s.lastIndex;
      && Climb(o, base, p, longer) && Raised(longer, p) == (s.lower[p] + s.upper[p]) / 2 + 1
      && AtMost(s.upper, longer[|longer| - 1])
  {
    var longer: seq<Model>, p := us + [s.upper], s.lastIndex;
    assert longer[..|longer| - 1] == us && longer[|longer| - 1] == s.upper;
    PendingFollows(o, base, s, us);
    hide Below, Floor, Allowed, Answered, Half, Follows, FirstOpen;
  }

  lemma {:induction false} ReachTrails(o: Oracle, base: seq<Bound>, checks: nat, turns: nat)
    requires Sound(o) && exists m: Model :: FeasibleUpTo(o, base, m, MAX_VALUE)
    ensures Trails(o, base, Reach(o, base, checks, turns))
  {
    hide Sound, Turn, Inv, Trails, FeasibleUpTo, AtMostAll;
    if turns > 0 {
      ReachTrails(o, base, checks, turns - 1);
      ReachKeeps(o, base, checks, turns - 1);
      FloorIsSmall(o, base, checks, turns - 1);
      PendingIsFirst(o, base, checks, turns - 1);
      var s := Reach(o, base, checks, turns - 1);
      if s.someWork {
        match o.check(s.checks, base + (s.added + Uppers(s.upper)))
        case None =>
          Unsatisfiable(o, base, s);
          FailureTrails(o, base, s);
        case Some(m) =>
          Satisfiable(o, base, s, m);
          Narrows(o, base, s, m);
          SuccessTrails(o, base, s, Turn(o, base, s));
      }
    } else {
      StartTrails(o, base, checks);
    }
  }

  lemma {:induction false} StartTrails(o: Oracle, base: seq<Bound>, checks: nat)
    ensures Trails(o, base, Start(o.n, checks))
  {
    var none: seq<Model> := [];
    forall i: nat | i < o.n
      ensures Trail(o, base, Start(o.n, checks), i)
    {
      assert Climbed(o, base, Start(o.n, checks), i, none);
    }
  }

  /** A sum overflows only after a climb. */
  lemma {:induction false} OverflowCrosses(o: Oracle, base: seq<Bound>, checks: nat, turns: nat)
    requires Sound(o) && exists m: Model :: FeasibleUpTo(o, base, m, MAX_VALUE)
    requires Overflows(Reach(o, base, checks, turns))
    ensures !Settles(o, base)
  {
    ReachTrails(o, base, checks, turns);
    ReachKeeps(o, base, checks, turns);
    FloorIsSmall(o, base, checks, turns);
    PendingIsFirst(o, base, checks, turns);
    hide Reach, Sound, Climb, Raised, FeasibleUpTo, AtMostAll, FirstOpen, Half, Allowed, Floor, Answered;
    var s := Reach(o, base, checks, turns);
    assert Trail(o, base, s, s.lastIndex);
    var us: seq<Model> :| Climbed(o, base, s, s.lastIndex, us);
    PendingFollows(o, base, s, us);
    var i: nat, u: Model := s.lastIndex, s.upper;
    assert Crossing(o, base, i, us, u);
  }

  /** With a model of non-negative Java ints and no crossing it ends, for every solver. */
  lemma {:induction false} Settled(o: Oracle, base: seq<Bound>, checks: nat, turns: nat)
    requires Sound(o) && Settles(o, base)
    requires turns > 2 * (o.n * MAX_VALUE) + 1
    ensures !Reach(o, base, checks, turns).someWork
  {
    hide Sound, Turn, Reach, Crossing, FeasibleUpTo, Overflows;
    forall t: nat | t < turns
      ensures !Overflows(Reach(o, base, checks, t))
    {
      if Overflows(Reach(o, base, checks, t)) {
        OverflowCrosses(o, base, checks, t);
        assert false;
      }
    }
    ReachDecreases(o, base, checks, turns);
    ReachKeeps(o, base, checks, turns);
    var s := Reach(o, base, checks, turns);
    SlackBound(s.lower, s.upper);
    hide Slack, Inv, Settles;
  }

  // ---- After a climb there is a solver for which it overflows -----------------------------------------------

  ghost predicate SameConstraints(o: Oracle, p: Oracle) {
    o.n == p.n && forall m: Model :: o.feasible(m) == p.feasible(m)
  }

  lemma {:induction false} SameModels(o: Oracle, p: Oracle, base: seq<Bound>)
    requires SameConstraints(o, p)
    ensures forall m: Model :: Allowed(o, base, m) <==> Allowed(p, base, m)
    ensures forall u: Model, i: nat, limit: nat :: i < |u| ==>
              (Below(o, base, u, i, limit) <==> Below(p, base, u, i, limit))
  {
    hide HoldAll, AtMost;
  }

  lemma {:induction false} SameClimbs(o: Oracle, p: Oracle, base: seq<Bound>, i: nat, us: seq<Model>)
    requires SameConstraints(o, p) && Climb(o, base, i, us)
    ensures Climb(p, base, i, us)
  {
    SameModels(o, p, base);
    hide Allowed, Below, AtMost, Raised;
    if us == [] {
    } else {
      SameClimbs(o, p, base, i, us[..|us| - 1]);
    }
  }

  lemma {:induction false} SameCrossings(o: Oracle, p: Oracle, base: seq<Bound>, i: nat, us: seq<Model>, u: Model)
    requires SameConstraints(o, p) && Crossing(o, base, i, us, u)
    ensures Crossing(p, base, i, us, u)
  {
    SameModels(o, p, base);
    SameClimbs(o, p, base, i, us);
    hide Allowed, Below, Climb, AtMost, Raised;
  }

  lemma {:induction false} SameSettles(o: Oracle, p: Oracle, base: seq<Bound>)
    requires SameConstraints(o, p) && Settles(o, base)
    ensures Settles(p, base)
  {
    SameModels(o, p, base);
    hide Allowed, Crossing;
    forall i: nat, us: seq<Model>, u: Model
      ensures !Crossing(p, base, i, us, u)
    {
      if Crossing(p, base, i, us, u) {
        SameCrossings(p, o, base, i, us, u);
        assert false;
      }
    }
    var m: Model :| FeasibleUpTo(o, base, m, MAX_VALUE);
    assert FeasibleUpTo(p, base, m, MAX_VALUE);
  }

  /** There is a sound solver for any constraints. */
  lemma {:induction false} SomeSolver(o: Oracle) returns (p: Oracle)
    ensures SameConstraints(o, p) && Sound(p)
  {
    p := o.(check := (k: nat, bounds: seq<Bound>) =>
      if exists m: Model :: Allowed(o, bounds, m) then
        var m: Model :| Allowed(o, bounds, m);
        Some(m)
      else None);
    hide HoldAll;
    forall k: nat, bounds: seq<Bound>
      ensures p.check(k, bounds).Some? ==> Allowed(p, bounds, p.check(k, bounds).value)
      ensures p.check(k, bounds).None? ==> forall m: Model :: !Allowed(p, bounds, m)
    {
      SameModels(o, p, bounds);
    }
  }

  /** From check `from` on it finds `w` wherever `w` will do. */
  ghost predicate Prefers(p: Oracle, from: nat, w: Model) {
    forall k: nat, bounds: seq<Bound> :: k >= from && Allowed(p, bounds, w) ==> p.check(k, bounds) == Some(w)
  }

  /** A solver is turned to `w` from check `from` on; what it did before is not touched. */
  lemma {:induction false} Steer(o: Oracle, base: seq<Bound>, from: nat, w: Model) returns (p: Oracle)
    requires Sound(o)
    ensures SameConstraints(o, p) && Sound(p) && Prefers(p, from, w)
    ensures Reach(p, base, 0, from) == Reach(o, base, 0, from)
  {
    p := o.(check := (k: nat, bounds: seq<Bound>) =>
      if k >= from && Allowed(o, bounds, w) then Some(w) else o.check(k, bounds));
    hide HoldAll, Reach;
    forall k: nat, bounds: seq<Bound>
      ensures p.check(k, bounds).Some? ==> Allowed(p, bounds, p.check(k, bounds).value)
      ensures p.check(k, bounds).None? ==> forall m: Model :: !Allowed(p, bounds, m)
      ensures k >= from && Allowed(p, bounds, w) ==> p.check(k, bounds) == Some(w)
    {
      SameModels(o, p, bounds);
    }
    SameSoFar(o, p, base, from, from);
  }

  lemma {:induction false} SameSoFar(o: Oracle, p: Oracle, base: seq<Bound>, from: nat, turns: nat)
    requires Sound(o) && Sound(p) && SameConstraints(o, p) && turns <= from
    requires forall k: nat, bounds: seq<Bound> :: k < from ==> p.check(k, bounds) == o.check(k, bounds)
    ensures Reach(p, base, 0, turns) == Reach(o, base, 0, turns)
    ensures var s := Reach(o, base, 0, turns); s.someWork ==> s.checks == turns
  {
    hide Sound, FirstOpen, Narrowed, Uppers, Half;
    if turns == 0 {
    } else {
      SameSoFar(o, p, base, from, turns - 1);
    }
  }

  lemma {:induction false} ChecksAreTurns(o: Oracle, base: seq<Bound>, turns: nat)
    requires Sound(o)
    ensures var s := Reach(o, base, 0, turns); s.someWork ==> s.checks == turns
  {
    SameSoFar(o, o, base, turns, turns);
  }

  /** A check with no bound pending finds the model preferred. */
  lemma {:induction false} Chosen(p: Oracle, base: seq<Bound>, turns: nat, w: Model)
    requires Sound(p) && Prefers(p, turns, w) && Allowed(p, base, w)
    requires var s := Reach(p, base, 0, turns);
      && s.someWork && AtMost(w, s.upper) && FirstOpen(s.lower, w, 0) < p.n
      && (Pending(s) ==> 0 <= s.lastIndex < |w| && w[s.lastIndex] <= Unsigned(s.lastUpper))
    ensures var s, t := Reach(p, base, 0, turns), Reach(p, base, 0, turns + 1);
      t.upper == w && t.lower == s.lower && Pending(t) && t.lastIndex == FirstOpen(s.lower, w, 0)
  {
    ReachKeeps(p, base, 0, turns);
    ChecksAreTurns(p, base, turns);
    PendingIsFirst(p, base, 0, turns + 1);
    hide Inv;
    var s := Reach(p, base, 0, turns);
    Asked(p, base, s, w);
    assert p.check(s.checks, base + (s.added + Uppers(s.upper))) == Some(w);
    Narrows(p, base, s, w);
    Satisfiable(p, base, s, w);
    hide Allowed, Sound, Half, AtMost, Narrowed, Uppers, FirstOpen;
  }

  /** A pending bound is too low. */
  ghost predicate TooLow(p: Oracle, base: seq<Bound>, s: State)
    requires |s.upper| == |s.lower|
  {
    var i := s.lastIndex;
    && Pending(s) && 0 <= i < |s.upper|
    && 0 <= s.lower[i] && 0 <= s.upper[i] && s.lower[i] + s.upper[i] <= MAX_VALUE
    && forall m: Model :: Allowed(p, base, m) && AtMost(m, s.upper) ==> m[i] > (s.lower[i] + s.upper[i]) / 2
  }

  lemma {:induction false} Fails(p: Oracle, base: seq<Bound>, s: State)
    requires Sound(p) && Inv(p, base, s) && s.someWork && TooLow(p, base, s)
    ensures p.check(s.checks, base + (s.added + Uppers(s.upper))) == None
  {
    hide Sound, Allowed, AtMost, Uppers, Floor, Answered;
    assert |s.lower| == |s.upper|;
    var c := p.check(s.checks, base + (s.added + Uppers(s.upper)));
    if c.Some? {
      HalfBetween(s.lower[s.lastIndex], s.upper[s.lastIndex]);
      Satisfiable(p, base, s, c.value);
      assert false;
    }
  }

  /** The lower bounds once the pending bound has turned out to be too low. */
  function After(s: State): (lower: seq<int>)
    requires |s.upper| == |s.lower|
    ensures |lower| == |s.lower|
  {
    var i := s.lastIndex;
    if 0 <= i < |s.lower| then s.lower[i := (s.lower[i] + s.upper[i]) / 2 + 1] else s.lower
  }

  lemma {:induction false} FailsAndRaises(p: Oracle, base: seq<Bound>, s: State)
    requires Sound(p) && Inv(p, base, s) && s.someWork && TooLow(p, base, s)
    ensures Turn(p, base, s) == s.(lower := After(s), added := [], checks := s.checks + 1)
  {
    Fails(p, base, s);
    FailureRaises(p, base, s);
    hide Sound, Allowed, Turn, AtMost, Inv;
  }

  lemma {:induction false} PrefersLater(p: Oracle, from: nat, later: nat, w: Model)
    requires Prefers(p, from, w) && from <= later
    ensures Prefers(p, later, w)
  {
    hide Allowed;
  }

  lemma {:induction false} FailsThenFinds(p: Oracle, base: seq<Bound>, turns: nat, w: Model)
    requires Sound(p) && Prefers(p, turns, w) && Allowed(p, base, w)
    requires var s := Reach(p, base, 0, turns);
      && s.someWork && TooLow(p, base, s) && AtMost(w, s.upper) && FirstOpen(After(s), w, 0) < p.n
    ensures var s, t := Reach(p, base, 0, turns), Reach(p, base, 0, turns + 2);
      t.upper == w && t.lower == After(s) && Pending(t) && t.lastIndex == FirstOpen(t.lower, w, 0)
  {
    hide Sound, Allowed, Turn, AtMost, FirstOpen, Inv, Prefers, TooLow, After;
    var s := Reach(p, base, 0, turns);
    ReachKeeps(p, base, 0, turns);
    FailsAndRaises(p, base, s);
    assert Reach(p, base, 0, turns + 1) == Turn(p, base, s);
    hide Reach;
    PrefersLater(p, turns, turns + 1, w);
    Chosen(p, base, turns + 1, w);
  }

  /** After a check that fails, a solver may find any model that is left. */
  lemma {:induction false} Redirect(o: Oracle, base: seq<Bound>, turns: nat, w: Model) returns (p: Oracle)
    requires Sound(o)
    requires var s := Reach(o, base, 0, turns);
      && s.someWork && TooLow(o, base, s) && Allowed(o, base, w) && AtMost(w, s.upper)
      && FirstOpen(After(s), w, 0) < o.n
    ensures SameConstraints(o, p) && Sound(p)
    ensures var s, t := Reach(o, base, 0, turns), Reach(p, base, 0, turns + 2);
      t.upper == w && t.lower == After(s) && Pending(t) && t.lastIndex == FirstOpen(t.lower, w, 0)
  {
    p := Steer(o, base, turns, w);
    SameModels(o, p, base);
    hide Sound, Allowed, Below, Turn, AtMost, FirstOpen, Reach, Prefers, After;
    assert TooLow(p, base, Reach(p, base, 0, turns));
    hide TooLow;
    FailsThenFinds(p, base, turns, w);
  }

  /** Bisection has come to term `i`, with floor `floor` and the model `u`. */
  ghost predicate Standing(p: Oracle, base: seq<Bound>, turns: nat, i: nat, u: Model, floor: int) {
    Sound(p) &&
    var s := Reach(p, base, 0, turns);
    && Pending(s) && s.upper == u && s.lastIndex == i < p.n && s.lower[i] == floor
  }

  lemma FirstOpenIs(lower: seq<int>, upper: seq<int>, from: nat, i: nat)
    requires |lower| == |upper| && from <= i < |upper| && lower[i] < upper[i]
    ensures FirstOpen(lower, upper, from) <= i
    ensures (forall j :: from <= j < i ==> lower[j] >= upper[j]) ==> FirstOpen(lower, upper, from) == i
  {
  }

  /** A pending term before `i` is already as small as the model lets it be. */
  lemma {:induction false} LowestTooLow(p: Oracle, base: seq<Bound>, s: State, i: nat)
    requires Inv(p, base, s) && Pending(s) && s.lastIndex < i < p.n && Lowest(p, base, s.upper, i)
    ensures TooLow(p, base, s) && After(s)[i] == s.lower[i]
    ensures Slack(After(s), s.upper) < Slack(s.lower, s.upper) && 0 <= Slack(s.lower, s.upper)
  {
    hide Allowed, HoldAll, Answered, Half, Slack;
    var u: Model, j: nat := s.upper, s.lastIndex;
    assert !Below(p, base, u, j, u[j]) && u[j] <= TWO_31 / 2;
    assert After(s) == s.lower[j := (s.lower[j] + u[j]) / 2 + 1];
    SlackGrows(After(s), s.upper, s.lower, s.upper);
    SlackBound(s.lower, s.upper);
  }

  /** Bisection is at a term no later than `i`, with the model `u`, and has not touched `i`. */
  ghost predicate Before(p: Oracle, base: seq<Bound>, turns: nat, i: nat, u: Model) {
    && Sound(p) && i < p.n && |u| == p.n && u[i] > 0 && Lowest(p, base, u, i)
    && var s := Reach(p, base, 0, turns);
      Pending(s) && s.upper == u && s.lastIndex <= i && s.lower[i] == 0
  }

  lemma {:induction false} PassOne(p: Oracle, base: seq<Bound>, turns: nat, i: nat, u: Model) returns (q: Oracle)
    requires Before(p, base, turns, i, u) && Reach(p, base, 0, turns).lastIndex != i
    ensures SameConstraints(p, q) && Before(q, base, turns + 2, i, u)
    ensures 0 <= Slack(Reach(q, base, 0, turns + 2).lower, u) < Slack(Reach(p, base, 0, turns).lower, u)
  {
    hide Reach, Sound, Allowed, Slack, FirstOpen, Half, Floor, Answered, HoldAll, Lowest;
    var s := Reach(p, base, 0, turns);
    ReachKeeps(p, base, 0, turns);
    LowestTooLow(p, base, s, i);
    FirstOpenIs(After(s), u, 0, i);
    assert Allowed(p, base, u) && AtMost(u, s.upper);
    hide Inv, TooLow, After;
    q := Redirect(p, base, turns, u);
    SameLowest(p, q, base, u, i);
    ReachKeeps(q, base, 0, turns + 2);
    SlackIsNat(q, base, Reach(q, base, 0, turns + 2));
  }

  lemma {:induction false} SlackIsNat(p: Oracle, base: seq<Bound>, s: State)
    requires Inv(p, base, s)
    ensures 0 <= Slack(s.lower, s.upper)
  {
    SlackBound(s.lower, s.upper);
  }

  lemma {:induction false} SameLowest(o: Oracle, p: Oracle, base: seq<Bound>, u: Model, i: nat)
    requires SameConstraints(o, p) && i <= |u| && Lowest(o, base, u, i)
    ensures Lowest(p, base, u, i)
  {
    SameModels(o, p, base);
    hide Below, Allowed, SameConstraints;
  }

  /** A solver that keeps to the model `u` gets past the terms before `i`. */
  lemma {:induction false} Pass(p: Oracle, base: seq<Bound>, turns: nat, i: nat, u: Model)
    returns (q: Oracle, later: nat)
    requires Before(p, base, turns, i, u)
    ensures SameConstraints(p, q) && Standing(q, base, later, i, u, 0)
    decreases Slack(Reach(p, base, 0, turns).lower, u)
  {
    hide Slack, Sound, Reach, Lowest;
    if Reach(p, base, 0, turns).lastIndex == i {
      return p, turns;
    }
    q := PassOne(p, base, turns, i, u);
    q, later := Pass(q, base, turns + 2, i, u);
  }

  lemma {:induction false} BeginClimb(o: Oracle, base: seq<Bound>, i: nat, u: Model)
    returns (p: Oracle)
    requires FeasibleUpTo(o, base, u, MAX_VALUE) && i < o.n && u[i] > 0
    ensures SameConstraints(o, p) && Sound(p)
    ensures var s := Reach(p, base, 0, 1); Pending(s) && s.upper == u && s.lastIndex <= i && s.lower[i] == 0
  {
    p := SomeSolver(o);
    p := Steer(p, base, 0, u);
    SameModels(o, p, base);
    hide Sound, Prefers, HoldAll, Narrowed, Uppers;
    FirstOpenIs(Start(o.n, 0).lower, u, 0, i);
    assert Reach(p, base, 0, 0) == Start(o.n, 0);
    hide Reach, FirstOpen;
    Chosen(p, base, 0, u);
  }

  /** In a climb the next model still stands at term `i`. */
  lemma {:induction false} NextStands(p: Oracle, base: seq<Bound>, s: State, i: nat, u: Model)
    requires Inv(p, base, s) && Pending(s) && s.lastIndex == i && s.lastIndex == FirstOpen(s.lower, s.upper, 0)
    requires s.lower[i] + s.upper[i] <= MAX_VALUE && AtMost(u, s.upper) && u[i] > TWO_31 / 2
    ensures FirstOpen(After(s), u, 0) == i
  {
    hide FirstOpen, Half, Allowed, Answered, Floor;
    FirstOpenIs(After(s), u, 0, i);
  }

  lemma {:induction false} BelowTooLow(o: Oracle, p: Oracle, base: seq<Bound>, s: State)
    requires SameConstraints(o, p) && Inv(p, base, s) && Pending(s)
    requires var i := s.lastIndex;
      && s.lower[i] + s.upper[i] <= MAX_VALUE
      && !Below(o, base, s.upper, i, (s.lower[i] + s.upper[i]) / 2 + 1)
    ensures TooLow(p, base, s)
  {
    SameModels(o, p, base);
    hide Allowed, Answered, Half, Floor, AtMost;
  }

  /** There is a solver that leads the search up a climb. */
  lemma {:induction false} FollowClimb(o: Oracle, base: seq<Bound>, i: nat, us: seq<Model>, u: Model)
    returns (p: Oracle, turns: nat)
    requires Climb(o, base, i, us) && Follows(o, base, i, us, u) && i < |u| && u[i] > TWO_31 / 2
    ensures SameConstraints(o, p) && Standing(p, base, turns, i, u, Raised(us, i))
    decreases |us|
  {
    hide Sound, Reach, Inv, Below, FirstOpen, TooLow, HoldAll;
    if us == [] {
      p := BeginClimb(o, base, i, u);
      SameLowest(o, p, base, u, i);
      p, turns := Pass(p, base, 1, i, u);
    } else {
      var before, last := us[..|us| - 1], us[|us| - 1];
      p, turns := FollowClimb(o, base, i, before, last);
      var s := Reach(p, base, 0, turns);
      ReachKeeps(p, base, 0, turns);
      PendingIsFirst(p, base, 0, turns);
      BelowTooLow(o, p, base, s);
      NextStands(p, base, s, i, u);
      SameModels(o, p, base);
      p := Redirect(p, base, turns, u);
      turns := turns + 2;
    }
  }

  /** Where the sum does not fit, a solver that keeps to its model stays for ever. */
  lemma {:induction false} Stuck(p: Oracle, base: seq<Bound>, turns: nat, u: Model, more: nat)
    requires Sound(p) && Prefers(p, turns, u)
    requires var s := Reach(p, base, 0, turns); Overflows(s) && s.upper == u
    ensures var s, t := Reach(p, base, 0, turns), Reach(p, base, 0, turns + more);
      t.upper == u && t.lower == s.lower && Overflows(t)
  {
    hide Sound, Prefers, Turn, Reach;
    if more == 0 {
    } else {
      var t := Reach(p, base, 0, turns + (more - 1));
      Stuck(p, base, turns, u, more - 1);
      ReachKeeps(p, base, 0, turns + (more - 1));
      PendingIsFirst(p, base, 0, turns + (more - 1));
      HalfBetween(t.lower[t.lastIndex], t.upper[t.lastIndex]);
      PrefersLater(p, turns, turns + (more - 1), u);
      hide Half, Floor, Answered, FirstOpen, Allowed, Unsigned;
      Chosen(p, base, turns + (more - 1), u);
    }
  }

  lemma {:induction false} NeverExits(p: Oracle, base: seq<Bound>, from: nat, u: Model)
    requires Sound(p) && Prefers(p, from, u)
    requires var s := Reach(p, base, 0, from); Overflows(s) && s.upper == u
    ensures !AlwaysExits(p, base)
  {
    hide Sound, Reach, Prefers;
    forall turns: nat
      ensures Reach(p, base, 0, turns).someWork
    {
      if turns >= from {
        Stuck(p, base, from, u, turns - from);
      } else if !Reach(p, base, 0, turns).someWork {
        ReachStays(p, base, 0, turns, from);
        assert false;
      }
    }
  }

  /** With a crossing there is a solver for which it never ends. */
  lemma {:induction false} CrossingNeverExits(o: Oracle, base: seq<Bound>, i: nat, us: seq<Model>, u: Model)
    returns (p: Oracle)
    requires Crossing(o, base, i, us, u)
    ensures SameConstraints(o, p) && !AlwaysExits(p, base)
  {
    hide Sound, Reach, Prefers, Climb, Raised, Lowest, HoldAll, AlwaysExits;
    var start, from := FollowClimb(o, base, i, us, u);
    p := Steer(start, base, from, u);
    hide Follows, Allowed, FeasibleUpTo;
    NeverExits(p, base, from, u);
  }

  lemma {:induction false} InfeasibleEndless(o: Oracle, base: seq<Bound>) returns (p: Oracle)
    requires forall m: Model :: !FeasibleUpTo(o, base, m, MAX_VALUE)
    ensures SameConstraints(o, p) && !AlwaysExits(p, base)
  {
    p := SomeSolver(o);
    SameModels(o, p, base);
    hide Sound, Reach, Allowed;
    assert forall m: Model :: FeasibleUpTo(p, base, m, MAX_VALUE) ==> FeasibleUpTo(o, base, m, MAX_VALUE);
    forall turns: nat
      ensures Reach(p, base, 0, turns).someWork
    {
      InfeasibleNeverExits(p, base, 0, turns);
    }
  }

  /** Exactly when there is a model of non-negative Java ints and no climb that crosses the limit of a Java
      int does every solver bring the search to its end. */
  lemma {:induction false} EndsExactly(o: Oracle, base: seq<Bound>)
    ensures (forall p: Oracle :: SameConstraints(o, p) ==> AlwaysExits(p, base)) <==> Settles(o, base)
  {
    hide Sound, Reach, Crossing, FeasibleUpTo, SameConstraints;
    if Settles(o, base) {
      forall p: Oracle | SameConstraints(o, p)
        ensures AlwaysExits(p, base)
      {
        SameSettles(o, p, base);
        if Sound(p) {
          Settled(p, base, 0, 2 * (p.n * MAX_VALUE) + 2);
        }
      }
    } else if i: nat, us: seq<Model>, u: Model :| Crossing(o, base, i, us, u) {
      var p := CrossingNeverExits(o, base, i, us, u);
    } else {
      var p := InfeasibleEndless(o, base);
    }
  }

  // ---- Conditions that are enough ----------------------------------------------------------------------------

  /** Below each model with a term above 2^30 there is one with that term at most 2^29, which the first
      bisection of that term finds room for. */
  ghost predicate Roomy(o: Oracle, base: seq<Bound>) {
    && (exists m: Model :: FeasibleUpTo(o, base, m, MAX_VALUE))
    && (forall u: Model, i: nat :: FeasibleUpTo(o, base, u, MAX_VALUE) && i < |u| && u[i] > TWO_31 / 2 ==>
          Below(o, base, u, i, TWO_31 / 4 + 1))
  }

  /** The first model of a climb: the term is largest there, and its half is too low. */
  lemma {:induction false} ClimbStart(o: Oracle, base: seq<Bound>, i: nat, us: seq<Model>)
    requires Climb(o, base, i, us) && us != []
    ensures FeasibleUpTo(o, base, us[0], MAX_VALUE) && !Below(o, base, us[0], i, us[0][i] / 2 + 1)
    ensures us[|us| - 1][i] <= us[0][i]
  {
    hide Allowed, Below, FeasibleUpTo, Lowest;
    if |us| <= 1 {
    } else {
      ClimbStart(o, base, i, us[..|us| - 1]);
      assert us[..|us| - 1][0] == us[0];
    }
  }

  lemma {:induction false} CrossingStart(o: Oracle, base: seq<Bound>, i: nat, us: seq<Model>, u: Model)
    requires Crossing(o, base, i, us, u)
    ensures us != [] && FeasibleUpTo(o, base, us[0], MAX_VALUE)
    ensures i < |us[0]| && us[0][i] > TWO_31 / 2 && !Below(o, base, us[0], i, TWO_31 / 4 + 1)
  {
    hide Lowest, HoldAll;
    assert us != [];
    ClimbStart(o, base, i, us);
  }

  lemma {:induction false} RoomySettles(o: Oracle, base: seq<Bound>)
    requires Roomy(o, base)
    ensures Settles(o, base)
  {
    hide Allowed, Crossing, Below, FeasibleUpTo;
    forall i: nat, us: seq<Model>, u: Model
      ensures !Crossing(o, base, i, us, u)
    {
      if Crossing(o, base, i, us, u) {
        CrossingStart(o, base, i, us, u);
        assert false;
      }
    }
  }

  /** If there is a model of non-negative Java ints and none of them is above 2^30, it ends. */
  lemma {:induction false} Exits(o: Oracle, base: seq<Bound>, checks: nat, turns: nat)
    requires Sound(o) && Bounded(o, base, TWO_31 / 2)
    requires turns > 2 * (o.n * MAX_VALUE) + 1
    ensures !Reach(o, base, checks, turns).someWork
  {
    hide Sound, Allowed, Reach, Settles;
    assert Roomy(o, base);
    RoomySettles(o, base);
    Settled(o, base, checks, turns);
  }

  /** And if the terms can all be zero, however large they may be. */
  lemma {:induction false} ZeroExits(o: Oracle, base: seq<Bound>, checks: nat, turns: nat)
    requires Sound(o) && Allowed(o, base, seq(o.n, _ => 0))
    requires turns > 2 * (o.n * MAX_VALUE) + 1
    ensures !Reach(o, base, checks, turns).someWork
  {
    var zero: Model := seq(o.n, _ => 0);
    assert FeasibleUpTo(o, base, zero, MAX_VALUE);
    forall u: Model, i: nat | FeasibleUpTo(o, base, u, MAX_VALUE) && i < |u| && u[i] > TWO_31 / 2
      ensures Below(o, base, u, i, TWO_31 / 4 + 1)
    {
      assert AtMost(zero, u) && zero[i] == 0;
    }
    hide Sound, Allowed, Reach, Settles;
    RoomySettles(o, base);
    Settled(o, base, checks, turns);
  }

  /** As in the example that calls `checkSmall`: x, y and z with x no larger than y + z, a sum of 32 bits. */
  lemma {:induction false} ExampleExits(o: Oracle, checks: nat, turns: nat)
    requires Sound(o) && o.n == 3
    requires forall m: Model | |m| == 3 :: o.feasible(m) <==> m[0] <= (m[1] + m[2]) % TWO_32
    requires turns > 2 * (3 * MAX_VALUE) + 1
    ensures !Reach(o, [], checks, turns).someWork
    ensures Reach(o, [], checks, turns).upper == [0, 0, 0]
  {
    var zero: Model := seq(3, _ => 0);
    assert Allowed(o, [], zero);
    ZeroExits(o, [], checks, turns);
    ExitIsMinimal(o, [], checks, turns);
    hide Sound, Reach, Allowed;
    var s := Reach(o, [], checks, turns);
    assert AtMost(zero, s.upper);
    assert zero == [0, 0, 0];
  }

  /** With no model of non-negative Java ints, it checks for ever. */
  lemma {:induction false} InfeasibleNeverExits(o: Oracle, base: seq<Bound>, checks: nat, turns: nat)
    requires Sound(o) && forall m: Model :: !FeasibleUpTo(o, base, m, MAX_VALUE)
    ensures Reach(o, base, checks, turns).someWork
  {
    ReachKeeps(o, base, checks, turns);
    hide Sound, Reach;
    var s := Reach(o, base, checks, turns);
    assert !s.someWork ==> FeasibleUpTo(o, base, s.upper, MAX_VALUE);
  }

  /** So it ends only in a model with no term above 2^30. */
  lemma {:induction false} ExitIsSmall(o: Oracle, base: seq<Bound>, checks: nat, turns: nat) returns (m: Model)
    requires Sound(o) && !Reach(o, base, checks, turns).someWork
    ensures m == Reach(o, base, checks, turns).upper && FeasibleUpTo(o, base, m, TWO_31 / 2)
  {
    FloorIsSmall(o, base, checks, turns);
    ExitIsMinimal(o, base, checks, turns);
    m := Reach(o, base, checks, turns).upper;
    hide Sound, Reach, Allowed;
  }

  /** 2^30 is the limit: given only that there are models of non-negative Java ints, none of them above
      `most`, the search ends for all constraints and all solvers exactly when `most` is no more than 2^30.
      Above it lies the constraint that pins every term to `most`. */
  lemma {:induction false} Limit(n: nat, most: nat)
    requires n > 0 && most <= MAX_VALUE
    ensures (forall o: Oracle, base: seq<Bound> :: o.n == n && Bounded(o, base, most) ==> AlwaysExits(o, base))
            <==> most <= TWO_31 / 2
  {
    hide Sound, Reach, Allowed, HoldAll;
    if most <= TWO_31 / 2 {
      forall o: Oracle, base: seq<Bound> | o.n == n && Bounded(o, base, most) && Sound(o)
        ensures AlwaysExits(o, base)
      {
        Exits(o, base, 0, 2 * (n * MAX_VALUE) + 2);
      }
    } else {
      var o := Pinned(n, most);
      if AlwaysExits(o, []) {
        var turns: nat :| !Reach(o, [], 0, turns).someWork;
        var m := ExitIsSmall(o, [], 0, turns);
        assert false;
      }
    }
  }

  /** A solver whose one model gives every term the value `v`. */
  lemma {:induction false} Pinned(n: nat, v: nat) returns (o: Oracle)
    requires n > 0 && v <= MAX_VALUE
    ensures o.n == n && Sound(o) && Bounded(o, [], v)
    ensures forall m: Model :: Allowed(o, [], m) ==> |m| == n && m[0] == v
  {
    var it: Model := seq(n, _ => v);
    o := Oracle(n, m => m == it, (k, bounds) => if HoldAll(it, bounds) then Some(it) else None);
    assert Allowed(o, [], it);
    assert FeasibleUpTo(o, [], it, MAX_VALUE);
  }
}
