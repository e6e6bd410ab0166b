/** The wrapper for retractable constraints of the Z3 example (benchmarks/z3cpp/test_capi.c): a constraint
    `c` is asserted once as `c or not k` with an answer literal `k` of its own, and is in force while `k`
    is assumed. */
module Retractable {
  const MAX_RETRACTABLE_ASSERTIONS := 1024

  /** Z3 expressions of Boolean sort, as far as the wrapper builds them. An atom stands for any condition of
      the theory; a literal for a constant made by `Z3_mk_fresh_const`. */
  datatype Formula = Atom(a: nat) | Literal(id: nat) | Not(f: Formula) | Or(left: Formula, right: Formula)

  /** The value of a formula when the theory is as `w` says and the literals of `on` are true. */
  ghost predicate Eval<W(!new)>(holds: (W, nat) -> bool, f: Formula, w: W, on: iset<nat>) {
    match f
    case Atom(a) => holds(w, a)
    case Literal(id) => id in on
    case Not(g) => !Eval(holds, g, w, on)
    case Or(g, h) => Eval(holds, g, w, on) || Eval(holds, h, w, on)
  }

  ghost predicate Meets<W(!new)>(holds: (W, nat) -> bool, fs: seq<Formula>, w: W, on: iset<nat>) {
    forall f :: f in fs ==> Eval(holds, f, w, on)
  }

  ghost predicate Satisfiable<W(!new)>(holds: (W, nat) -> bool, fs: seq<Formula>) {
    exists w, on :: Meets(holds, fs, w, on)
  }

  /** No answer literal occurs in the formula. */
  predicate Plain(f: Formula) {
    match f
    case Atom(_) => true
    case Literal(_) => false
    case Not(g) => Plain(g)
    case Or(g, h) => Plain(g) && Plain(h)
  }

  lemma {:induction false} PlainIgnoresLiterals<W(!new)>(holds: (W, nat) -> bool, f: Formula, w: W, a: iset<nat>,
                                                         b: iset<nat>)
    requires Plain(f)
    ensures Eval(holds, f, w, a) == Eval(holds, f, w, b)
  {
    match f
    case Atom(_) =>
    case Not(g) => PlainIgnoresLiterals(holds, g, w, a, b);
    case Or(g, h) =>
      PlainIgnoresLiterals(holds, g, w, a, b);
      PlainIgnoresLiterals(holds, h, w, a, b);
  }

  // ---- The query -------------------------------------------------------------------------------------------

  /** Ids of the constraints in force, in order. */
  function ActiveIds(retracted: seq<bool>): (ids: seq<nat>)
    ensures |ids| <= |retracted| && Within(ids, |retracted|)
    ensures forall i: nat :: i in ids <==> i < |retracted| && !retracted[i]
  {
    if retracted == [] then []
    else
      var n := |retracted| - 1;
      ActiveIds(retracted[..n]) + if retracted[n] then [] else [n]
  }

  lemma {:induction false} OneMoreActive(flags: seq<bool>, i: nat)
    requires i < |flags|
    ensures ActiveIds(flags[..i + 1]) == ActiveIds(flags[..i]) + (if flags[i] then [] else [i])
  {
    assert flags[..i + 1][..i] == flags[..i];
  }

  lemma NoneActive()
    ensures ActiveIds([]) == []
  {
  }

  predicate Within(ids: seq<nat>, n: nat) {
    forall k :: 0 <= k < |ids| ==> ids[k] < n
  }

  function At(xs: seq<Formula>, ids: seq<nat>): (r: seq<Formula>)
    requires Within(ids, |xs|)
    ensures |r| == |ids| && forall k :: 0 <= k < |ids| ==> r[k] == xs[ids[k]]
  {
    seq(|ids|, k requires 0 <= k < |ids| => xs[ids[k]])
  }

  lemma AtIsPart(xs: seq<Formula>, ids: seq<nat>)
    requires Within(ids, |xs|)
    ensures forall f :: f in At(xs, ids) ==> f in xs
  {
  }

  lemma AtSnoc(xs: seq<Formula>, ids: seq<nat>, i: nat)
    requires Within(ids, |xs|) && i < |xs|
    ensures Within(ids + [i], |xs|) && At(xs, ids + [i]) == At(xs, ids) + [xs[i]]
  {
  }

  lemma AtNothing(xs: seq<Formula>)
    ensures Within([], |xs|) && At(xs, []) == []
  {
  }

  /** What has been asserted: `c or not k` for every constraint. */
  function Guarded(cs: seq<Formula>, ks: seq<Formula>): (g: seq<Formula>)
    requires |cs| == |ks|
    ensures |g| == |cs| && forall i :: 0 <= i < |g| ==> g[i] == Or(cs[i], Not(ks[i]))
  {
    seq(|cs|, i requires 0 <= i < |cs| => Or(cs[i], Not(ks[i])))
  }

  predicate AnswerLiterals(ks: seq<Formula>) {
    && (forall i :: 0 <= i < |ks| ==> ks[i].Literal?)
    && (forall i, j :: 0 <= i < j < |ks| ==> ks[i] != ks[j])
  }

  lemma GuardMeans<W(!new)>(holds: (W, nat) -> bool, c: Formula, k: Formula, w: W, on: iset<nat>)
    ensures Eval(holds, Or(c, Not(k)), w, on) <==> (Eval(holds, k, w, on) ==> Eval(holds, c, w, on))
  {
  }

  /** Assuming some answer literals is as good as asserting just their constraints, as long as constraints do
      not speak of answer literals. */
  lemma {:induction false} AssumingIsAsserting<W(!new)>(holds: (W, nat) -> bool, cs: seq<Formula>, ks: seq<Formula>,
                                                  ids: seq<nat>)
    requires |cs| == |ks| && AnswerLiterals(ks) && forall c :: c in cs ==> Plain(c)
    requires Within(ids, |cs|)
    ensures Satisfiable(holds, Guarded(cs, ks) + At(ks, ids)) <==> Satisfiable(holds, At(cs, ids))
  {
    if Satisfiable(holds, Guarded(cs, ks) + At(ks, ids)) {
      var w, on :| Meets(holds, Guarded(cs, ks) + At(ks, ids), w, on);
      forall f | f in At(cs, ids)
        ensures Eval(holds, f, w, on)
      {
        var k :| 0 <= k < |ids| && At(cs, ids)[k] == f;
        var q, i := Guarded(cs, ks) + At(ks, ids), ids[k];
        assert q[|cs| + k] == ks[i] && q[|cs| + k] in q;
        assert q[i] == Or(cs[i], Not(ks[i])) && q[i] in q;
        GuardMeans(holds, cs[i], ks[i], w, on);
      }
      assert Meets(holds, At(cs, ids), w, on);
    }
    if Satisfiable(holds, At(cs, ids)) {
      var w, on :| Meets(holds, At(cs, ids), w, on);
      JustThese(holds, cs, ks, ids, w, on);
    }
  }

  /** Make the literals of `ids` true and all others false. */
  lemma {:induction false} JustThese<W(!new)>(holds: (W, nat) -> bool, cs: seq<Formula>, ks: seq<Formula>,
                                              ids: seq<nat>, w: W, on: iset<nat>)
    requires |cs| == |ks| && AnswerLiterals(ks) && forall c :: c in cs ==> Plain(c)
    requires Within(ids, |cs|)
    requires Meets(holds, At(cs, ids), w, on)
    ensures Satisfiable(holds, Guarded(cs, ks) + At(ks, ids))
  {
    var these := iset id: nat | Literal(id) in At(ks, ids);
    forall f | f in Guarded(cs, ks) + At(ks, ids)
      ensures Eval(holds, f, w, these)
    {
      if f in At(ks, ids) {
      } else {
        var i :| 0 <= i < |cs| && f == Or(cs[i], Not(ks[i]));
        if ks[i] in At(ks, ids) {
          var k :| 0 <= k < |ids| && ks[ids[k]] == ks[i];
          assert ids[k] == i;
          assert At(cs, ids)[k] == cs[i];
          PlainIgnoresLiterals(holds, cs[i], w, on, these);
        }
      }
    }
    assert Meets(holds, Guarded(cs, ks) + At(ks, ids), w, these);
  }

  /** It can fail for a constraint that does: with both in force, an atom and the denial of its answer literal
      can be met, but not under the assumption of that literal. */
  lemma {:induction false} LiteralsMustNotOccur<W(!new)>(holds: (W, nat) -> bool, w: W)
    requires holds(w, 0)
    ensures var cs, ks := [Atom(0), Not(Literal(0))], [Literal(0), Literal(1)];
      AnswerLiterals(ks)
      && Satisfiable(holds, At(cs, [0, 1])) && !Satisfiable(holds, Guarded(cs, ks) + At(ks, [0, 1]))
  {
    var cs, ks := [Atom(0), Not(Literal(0))], [Literal(0), Literal(1)];
    assert Meets(holds, At(cs, [0, 1]), w, iset{});
    forall v: W, on
      ensures !Meets(holds, Guarded(cs, ks) + At(ks, [0, 1]), v, on)
    {
      var q := Guarded(cs, ks) + At(ks, [0, 1]);
      assert q[1] in q && q[2] in q && q[3] in q;
    }
  }

  // ---- The solver ------------------------------------------------------------------------------------------

  datatype Answer = True | False(core: seq<Formula>) | Undef

  /** What the `k`-th call of `Z3_solver_check_assumptions` answers for what is asserted and assumed. */
  type Solver = (nat, seq<Formula>, seq<Formula>) -> Answer

  /** It may give up; otherwise it answers rightly, and its core is a part of the assumptions that is
      already too much. */
  ghost predicate Sound<W(!new)>(holds: (W, nat) -> bool, solver: Solver) {
    forall k, asserted, assumptions ::
      match solver(k, asserted, assumptions)
      case True => Satisfiable(holds, asserted + assumptions)
      case False(core) =>
        && (forall i :: 0 <= i < |core| ==> core[i] in assumptions)
        && !Satisfiable(holds, asserted + core)
      case Undef => true
  }

  /** The constraints of a core contradict each other, and so do those in force. */
  lemma {:induction false} CoreMeans<W(!new)>(holds: (W, nat) -> bool, cs: seq<Formula>, ks: seq<Formula>,
                                              active: seq<nat>, core: seq<Formula>, ids: seq<nat>)
    requires |cs| == |ks| && AnswerLiterals(ks) && forall c :: c in cs ==> Plain(c)
    requires Within(active, |cs|) && Within(ids, |cs|) && At(ks, ids) == core
    requires forall i :: 0 <= i < |core| ==> core[i] in At(ks, active)
    requires !Satisfiable(holds, Guarded(cs, ks) + core)
    ensures forall k :: 0 <= k < |ids| ==> ids[k] in active
    ensures forall k, j :: 0 <= k < |ids| && 0 <= j < |cs| ==> (ks[j] == core[k] <==> j == ids[k])
    ensures !Satisfiable(holds, At(cs, ids)) && !Satisfiable(holds, At(cs, active))
  {
    AssumingIsAsserting(holds, cs, ks, ids);
    hide Guarded;
    forall k | 0 <= k < |ids|
      ensures ids[k] in active
    {
      assert core[k] in At(ks, active);
    }
    FewerAreSatisfiable(holds, cs, active, ids);
  }

  lemma {:induction false} FewerAreSatisfiable<W(!new)>(holds: (W, nat) -> bool, cs: seq<Formula>,
                                                        ids: seq<nat>, fewer: seq<nat>)
    requires Within(ids, |cs|) && Within(fewer, |cs|) && forall k :: 0 <= k < |fewer| ==> fewer[k] in ids
    ensures Satisfiable(holds, At(cs, ids)) ==> Satisfiable(holds, At(cs, fewer))
  {
    hide Eval;
    if Satisfiable(holds, At(cs, ids)) {
      var w, on :| Meets(holds, At(cs, ids), w, on);
      forall f | f in At(cs, fewer)
        ensures Eval(holds, f, w, on)
      {
        var k :| 0 <= k < |fewer| && At(cs, fewer)[k] == f;
        var m :| 0 <= m < |ids| && ids[m] == fewer[k];
        assert At(cs, ids)[m] == f;
      }
      assert Meets(holds, At(cs, fewer), w, on);
    }
  }

  /** `exitf`: the process ends with a message. */
  datatype Exit = TooMany | InvalidId | BugInZ3
  datatype Outcome<+T> = Done(value: T) | Exited(why: Exit)

  /** `Z3_ext_context_struct`. */
  class ExtContext {
    const solver: Solver
    var asserted: seq<Formula>  // the assertions of m_solver
    var checks: nat
    var nextConst: nat          // the next constant of Z3_mk_fresh_const
    const answerLiterals: array<Formula>
    const retracted: array<bool>
    var numAnswerLiterals: nat
    ghost var constraints: seq<Formula>

    ghost predicate Valid()
      reads this, answerLiterals, retracted
    {
      && answerLiterals.Length == retracted.Length == MAX_RETRACTABLE_ASSERTIONS
      && numAnswerLiterals == |constraints| <= MAX_RETRACTABLE_ASSERTIONS
      && AnswerLiterals(Literals())
      && (forall i :: 0 <= i < |constraints| ==> answerLiterals[i].id < nextConst)
      && asserted == Guarded(constraints, Literals())
    }

    ghost function Literals(): (ks: seq<Formula>)
      requires numAnswerLiterals <= answerLiterals.Length
      reads this, answerLiterals
    {
      answerLiterals[..numAnswerLiterals]
    }

    /** Which constraints are retracted. */
    ghost function Flags(): (flags: seq<bool>)
      requires numAnswerLiterals <= retracted.Length
      reads this, retracted
      ensures |flags| == numAnswerLiterals
    {
      retracted[..numAnswerLiterals]
    }

    constructor (solver: Solver, nextConst: nat)
      ensures Valid() && this.solver == solver
      ensures constraints == [] && Flags() == []
      ensures fresh(answerLiterals) && fresh(retracted)
    {
      this.solver := solver;
      asserted, checks, this.nextConst, numAnswerLiterals, constraints := [], 0, nextConst, 0, [];
      answerLiterals := new Formula[MAX_RETRACTABLE_ASSERTIONS](_ => Literal(0));
      retracted := new bool[MAX_RETRACTABLE_ASSERTIONS](_ => false);
      new;
      assert Guarded([], []) == [];
    }

    /** The new constraint is in force, and no other one is touched. */
    method AssertRetractable(c: Formula) returns (r: Outcome<nat>)
      requires Valid()
      modifies this`asserted, this`nextConst, this`numAnswerLiterals, this`constraints, answerLiterals, retracted
      ensures Valid()
      ensures r == if old(|constraints|) == MAX_RETRACTABLE_ASSERTIONS then Exited(TooMany)
                   else Done(old(|constraints|))
      ensures r.Done? ==> constraints == old(constraints) + [c] && Flags() == old(Flags()) + [false]
      ensures r.Exited? ==> constraints == old(constraints) && Flags() == old(Flags())
    {
      if numAnswerLiterals == MAX_RETRACTABLE_ASSERTIONS {
        return Exited(TooMany);
      }
      var ansLit := Literal(nextConst);
      nextConst := nextConst + 1;
      var result := numAnswerLiterals;
      answerLiterals[result] := ansLit;
      retracted[result] := false;
      numAnswerLiterals := numAnswerLiterals + 1;
      constraints := constraints + [c];
      asserted := asserted + [Or(c, Not(ansLit))];
      assert Literals() == old(Literals()) + [ansLit];
      return Done(result);
    }

    method Retract(id: nat) returns (r: Outcome<()>)
      requires Valid()
      modifies retracted
      ensures Valid()
      ensures r == if id < |constraints| then Done(()) else Exited(InvalidId)
      ensures Flags() == if id < |constraints| then old(Flags())[id := true] else old(Flags())
    {
      if id >= numAnswerLiterals {
        return Exited(InvalidId);
      }
      retracted[id] := true;
      return Done(());
    }

    method Reassert(id: nat) returns (r: Outcome<()>)
      requires Valid()
      modifies retracted
      ensures Valid()
      ensures r == if id < |constraints| then Done(()) else Exited(InvalidId)
      ensures Flags() == if id < |constraints| then old(Flags())[id := false] else old(Flags())
    {
      if id >= numAnswerLiterals {
        return Exited(InvalidId);
      }
      retracted[id] := false;
      return Done(());
    }

    /** Collect the answer literals that were not retracted. */
    method Assumptions() returns (assumptions: seq<Formula>)
      requires Valid()
      ensures assumptions == At(Literals(), ActiveIds(Flags()))
    {
      ghost var ks, flags := Literals(), Flags();
      hide ActiveIds, At, Within, AnswerLiterals, Guarded;
      NoneActive();
      ghost var ids := [];
      var buffer := new Formula[MAX_RETRACTABLE_ASSERTIONS](_ => Literal(0));
      var numAssumptions := 0;
      AtNothing(ks);
      for i := 0 to numAnswerLiterals
        invariant ids == ActiveIds(flags[..i]) && numAssumptions == |ids| <= i
        invariant Within(ids, |ks|) && buffer[..numAssumptions] == At(ks, ids)
      {
        OneMoreActive(flags, i);
        assert flags[i] == retracted[i] && ks[i] == answerLiterals[i];
        if !retracted[i] {
          AtSnoc(ks, ids, i);
          ghost var was := buffer[..numAssumptions];
          buffer[numAssumptions] := answerLiterals[i];
          numAssumptions := numAssumptions + 1;
          assert buffer[..numAssumptions] == was + [ks[i]];
          ids := ids + [i];
        }
      }
      assert flags[..numAnswerLiterals] == flags;
      return buffer[..numAssumptions];
    }

    /** The ids of a core, found by comparing it with every answer literal. */
    method CoreIds(core: seq<Formula>) returns (r: Outcome<seq<nat>>)
      requires Valid()
      ensures r.Exited? ==> r.why == BugInZ3 && exists f :: f in core && f !in Literals()
      ensures r.Done? ==> Within(r.value, |constraints|) && At(Literals(), r.value) == core
    {
      var ids: seq<nat> := [];
      for i := 0 to |core|
        invariant Within(ids, numAnswerLiterals) && At(Literals(), ids) == core[..i]
      {
        var j := 0;
        while j < numAnswerLiterals
          invariant 0 <= j <= numAnswerLiterals
          invariant core[i] !in Literals()[..j]
        {
          if core[i] == answerLiterals[j] {
            ids := ids + [j];
            break;
          }
          j := j + 1;
        }
        if j == numAnswerLiterals {
          assert Literals()[..j] == Literals() && core[i] in core;
          return Exited(BugInZ3);
        }
      }
      return Done(ids);
    }

    /** `ext_check`. The answer is that of one check, of just what is asserted, under the literals in force, so
        that it is undecided only where the solver is. A definite answer is right about the constraints that are
        in force; the ids displayed for a core are distinct-literal ids in force whose constraints already
        contradict each other; and the exit that blames Z3 is never taken. */
    method ExtCheck<W(!new)>(ghost holds: (W, nat) -> bool) returns (r: Outcome<(Answer, seq<nat>)>)
      requires Valid() && Sound(holds, solver)
      requires forall c :: c in constraints ==> Plain(c)
      modifies this`checks
      ensures Valid() && r.Done? && checks == old(checks) + 1
      ensures r.value.0 == solver(old(checks), asserted, At(Literals(), ActiveIds(Flags())))
      ensures !r.value.0.Undef? ==>
                (r.value.0.True? <==> Satisfiable(holds, At(constraints, ActiveIds(Flags()))))
      ensures r.value.0.True? ==> Satisfiable(holds, At(constraints, ActiveIds(Flags())))
      ensures r.value.0.False? ==>
                var core, ids := r.value.0.core, r.value.1;
                && |ids| == |core|
                && (forall k :: 0 <= k < |ids| ==> ids[k] in ActiveIds(Flags()))
                && (forall k, j :: 0 <= k < |ids| && 0 <= j < |constraints| ==>
                      (Literals()[j] == core[k] <==> j == ids[k]))
                && !Satisfiable(holds, At(constraints, ids))
                && !Satisfiable(holds, At(constraints, ActiveIds(Flags())))
    {
      hide Eval, Satisfiable, Plain, At, AnswerLiterals, ActiveIds, Within;
      var assumptions := Assumptions();
      ghost var cs, ks, active := constraints, Literals(), ActiveIds(Flags());
      AssumingIsAsserting(holds, cs, ks, active);
      AtIsPart(ks, active);
      var result := solver(checks, asserted, assumptions);
      checks := checks + 1;
      var ids: seq<nat> := [];
      if result.False? {
        var found := CoreIds(result.core);
        match found {
          case Exited(why) => return Exited(why);
          case Done(value) => ids := value;
        }
        CoreMeans(holds, cs, ks, active, result.core, ids);
      }
      return Done((result, ids));
    }
  }
}
