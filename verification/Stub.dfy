/** What the generator makes of a function signature: the Kotlin stub that sends a call (kotlin.stg, generated
    without `-s`) and the C++ handler that receives it (cpp.stg, generated with `-s`), both from the argument
    lists of `generateArgs` (GeneratorST.kt). */
module Stub {
  import opened Wire

  /** Kinds of parameter types. Whether the type of `self` is a reference type is a matter of the model
      parser, which is not part of this model. */
  datatype Kind = Self(byValue: bool) | Reference | Integer | Flag

  datatype Parameter = Parameter(name: string, kind: Kind)

  datatype Signature = Signature(params: seq<Parameter>, staticName: Option<string>)

  /** The fields of class `Arg`. */
  datatype ArgValue = ArgValue(name: string, reference: bool, self: bool, index: nat)

  // ---- The argument lists ----------------------------------------------------------------------------------

  /** The parameters a list is made of: with `self` where it is spelled out, without it elsewhere. */
  function Valid(explicitSelf: bool, params: seq<Parameter>): (r: seq<Parameter>)
    ensures |r| <= |params|
  {
    if explicitSelf then params
    else if params == [] then []
    else
      var last := params[|params| - 1];
      Valid(false, params[..|params| - 1]) + if last.kind.Self? then [] else [last]
  }

  /** How many parameters are not `self`. */
  function Others(params: seq<Parameter>): nat {
    if params == [] then 0
    else Others(params[..|params| - 1]) + if params[|params| - 1].kind.Self? then 0 else 1
  }

  predicate IsReference(k: Kind) {
    k.Reference? || (k.Self? && k.byValue)
  }

  /** What is generated for the parameter at `i`: one that is not `self` is numbered among its like. */
  function ArgAt(params: seq<Parameter>, i: nat): ArgValue
    requires i < |params|
  {
    var p := params[i];
    ArgValue(p.name, IsReference(p.kind), p.kind.Self?, if p.kind.Self? then 0 else Others(params[..i]))
  }

  function Args(explicitSelf: bool, params: seq<Parameter>): (r: seq<ArgValue>)
    ensures |r| == |Valid(explicitSelf, params)|
    ensures forall i :: 0 <= i < |r| ==> r[i] == ArgAt(Valid(explicitSelf, params), i)
  {
    var valid := Valid(explicitSelf, params);
    seq(|valid|, i requires 0 <= i < |valid| => ArgAt(valid, i))
  }

  class Arg {
    const name: string
    const reference: bool
    const self: bool
    var index: nat

    constructor (name: string, reference: bool, self: bool)
      ensures this.name == name && this.reference == reference && this.self == self && index == 0
    {
      this.name, this.reference, this.self, index := name, reference, self, 0;
    }

    function Value(): ArgValue
      reads this
    {
      ArgValue(name, reference, self, index)
    }
  }

  /** `generateArgs`: make the argument objects, then number those that are not `self`, in place. */
  method GenerateArgs(explicitSelf: bool, params: seq<Parameter>) returns (generated: seq<Arg>)
    ensures |generated| == |Args(explicitSelf, params)|
    ensures forall i :: 0 <= i < |generated| ==>
              fresh(generated[i]) && generated[i].Value() == Args(explicitSelf, params)[i]
  {
    var valid := Valid(explicitSelf, params);
    hide Valid;
    generated := [];
    for i := 0 to |valid|
      invariant |generated| == i && fresh(generated)
      invariant forall j, k :: 0 <= j < k < i ==> generated[j] != generated[k]
      invariant forall j :: 0 <= j < i ==>
                  generated[j].Value() == ArgAt(valid, j).(index := 0)
    {
      var p := valid[i];
      var arg := new Arg(p.name, IsReference(p.kind), p.kind.Self?);
      generated := generated + [arg];
    }
    var next := 0;
    for i := 0 to |generated|
      invariant next == Others(valid[..i])
      invariant forall j :: 0 <= j < i ==> generated[j].Value() == ArgAt(valid, j)
      invariant forall j :: i <= j < |generated| ==> generated[j].Value() == ArgAt(valid, j).(index := 0)
    {
      assert valid[..i + 1][..i] == valid[..i];
      if !generated[i].self {
        generated[i].index := next;
        next := next + 1;
      }
    }
  }

  // ---- The stub --------------------------------------------------------------------------------------------

  /** What the caller passes: a handle by its id, a number, or a Boolean. */
  datatype Actual = Handle(id: string) | Int(n: int) | Bool(b: bool)

  /** The value of an argument on the wire. */
  datatype Sent = Text(s: string) | Num(n: int) | Unset

  datatype Request = Request(objectId: string, args: seq<Sent>)

  predicate Fits(k: Kind, a: Actual) {
    match k
    case Self(_) => true
    case Reference => a.Handle?
    case Integer => a.Int?
    case Flag => a.Bool?
  }

  /** The caller gives every parameter but `self` a value of its kind. */
  predicate Supplied(params: seq<Parameter>, actuals: map<string, Actual>) {
    forall i :: 0 <= i < |params| && !params[i].kind.Self? ==>
      params[i].name in actuals && Fits(params[i].kind, actuals[params[i].name])
  }

  /** `Argument(...)` and its conversion: handles travel as strings, numbers as integers, and for a Boolean
      the value is left unset. */
  function Encoded(a: Actual): Sent {
    match a
    case Handle(id) => Text(id)
    case Int(n) => Num(n)
    case Bool(_) => Unset
  }

  predicate HasSelf(params: seq<Parameter>) {
    exists i :: 0 <= i < |params| && params[i].kind.Self?
  }

  /** `requestObjectCreation`: the object, or for a static call the static name, and the arguments by name. */
  function Stub(sig: Signature, self: string, actuals: map<string, Actual>): Request
    requires Supplied(sig.params, actuals)
  {
    var isStatic := sig.staticName.Some? || !HasSelf(sig.params);
    var objectId := if isStatic then if sig.staticName.Some? then sig.staticName.value else "" else self;
    var args := Args(false, sig.params);
    ValidSupplied(sig.params, actuals);
    Request(objectId, seq(|args|, i requires 0 <= i < |args| => Encoded(actuals[args[i].name])))
  }

  lemma {:induction false} ValidSupplied(params: seq<Parameter>, actuals: map<string, Actual>)
    requires Supplied(params, actuals)
    ensures forall i :: 0 <= i < |Valid(false, params)| ==> Valid(false, params)[i].name in actuals
  {
    if params == [] {
    } else {
      ValidSupplied(params[..|params| - 1], actuals);
    }
  }

  // ---- The handler -----------------------------------------------------------------------------------------

  /** What the native function is given: a pointer to an object, an object itself, or a number. */
  datatype Native<Obj> = Pointer(o: Option<Obj>) | Pointee(o: Option<Obj>) | Number(n: int) | OutOfRange

  function Find<Obj>(persistence: map<string, Obj>, id: string): Option<Obj> {
    if id in persistence then Some(persistence[id]) else None
  }

  function StringValue(v: Sent): string {
    if v.Text? then v.s else ""
  }

  function IntValue(v: Sent): int {
    if v.Num? then v.n else 0
  }

  /** Templates `arg` and `argUsage`. */
  function Decoded<Obj>(arg: ArgValue, request: Request, persistence: map<string, Obj>): Native<Obj> {
    if arg.self then
      var o := Find(persistence, request.objectId);
      if arg.reference then Pointee(o) else Pointer(o)
    else if arg.index >= |request.args| then OutOfRange
    else if arg.reference then Pointee(Find(persistence, StringValue(request.args[arg.index])))
    else Number(IntValue(request.args[arg.index]))
  }

  function Handler<Obj>(sig: Signature, request: Request, persistence: map<string, Obj>): seq<Native<Obj>> {
    var args := Args(true, sig.params);
    seq(|args|, i requires 0 <= i < |args| => Decoded(args[i], request, persistence))
  }

  // ---- The call without a wire -----------------------------------------------------------------------------

  function Passed<Obj>(p: Parameter, self: string, actuals: map<string, Actual>, persistence: map<string, Obj>)
    : Native<Obj>
    requires !p.kind.Self? ==> p.name in actuals && Fits(p.kind, actuals[p.name])
  {
    match p.kind
    case Self(byValue) =>
      if byValue then Pointee(Find(persistence, self)) else Pointer(Find(persistence, self))
    case Reference => Pointee(Find(persistence, actuals[p.name].id))
    case Integer => Number(actuals[p.name].n)
    case Flag => Number(if actuals[p.name].b then 1 else 0)
  }

  function Direct<Obj>(sig: Signature, self: string, actuals: map<string, Actual>, persistence: map<string, Obj>)
    : seq<Native<Obj>>
    requires Supplied(sig.params, actuals)
  {
    seq(|sig.params|, i requires 0 <= i < |sig.params| => Passed(sig.params[i], self, actuals, persistence))
  }

  // ---- They agree ------------------------------------------------------------------------------------------

  /** The handler's index of a parameter is its position in the stub's list. */
  lemma {:induction false} IndexIsPosition(params: seq<Parameter>, i: nat)
    requires i < |params| && !params[i].kind.Self?
    ensures |Valid(false, params)| == Others(params)
    ensures Others(params[..i]) < |Valid(false, params)|
    ensures Valid(false, params)[Others(params[..i])] == params[i]
  {
    var n := |params| - 1;
    ValidCounts(params);
    ValidCounts(params[..n]);
    if i >= n {
    } else {
      IndexIsPosition(params[..n], i);
      assert params[..n][..i] == params[..i];
    }
  }

  lemma {:induction false} ValidCounts(params: seq<Parameter>)
    ensures |Valid(false, params)| == Others(params)
  {
    if params == [] {
    } else {
      ValidCounts(params[..|params| - 1]);
    }
  }

  /** What a stub sends, whatever the signature: the static name if there is one, else `self` if there is a `self`,
      else nothing; and for each parameter that is not `self`, at its rank among these, a handle as its id, a
      number as it is and no value for a Boolean. */
  lemma {:induction false} StubSends(sig: Signature, self: string, actuals: map<string, Actual>, i: nat)
    requires Supplied(sig.params, actuals)
    ensures var request := Stub(sig, self, actuals);
      && (sig.staticName.Some? ==> request.objectId == sig.staticName.value)
      && (sig.staticName == None && HasSelf(sig.params) ==> request.objectId == self)
      && (sig.staticName == None && !HasSelf(sig.params) ==> request.objectId == "")
      && |request.args| == Others(sig.params)
      && (i < |sig.params| && !sig.params[i].kind.Self? ==>
            && Others(sig.params[..i]) < |request.args|
            && var actual, sent := actuals[sig.params[i].name], request.args[Others(sig.params[..i])];
              && (actual.Handle? ==> sent == Text(actual.id))
              && (actual.Int? ==> sent == Num(actual.n))
              && (actual.Bool? ==> sent == Unset))
  {
    ValidCounts(sig.params);
    if i < |sig.params| && !sig.params[i].kind.Self? {
      IndexIsPosition(sig.params, i);
    }
    hide Valid, Others;
  }

  /** One parameter: what the handler decodes is what the caller passed, but for `self` under a static name
      and for a Boolean that is true. */
  lemma {:induction false} ParameterArrives<Obj>(sig: Signature, self: string, actuals: map<string, Actual>,
                                                 persistence: map<string, Obj>, i: nat)
    requires Supplied(sig.params, actuals) && i < |sig.params|
    ensures var p, request := sig.params[i], Stub(sig, self, actuals);
      Decoded(ArgAt(sig.params, i), request, persistence) == Passed(p, self, actuals, persistence)
      <==> match p.kind
           case Self(_) => sig.staticName.Some? ==>
                             Find(persistence, sig.staticName.value) == Find(persistence, self)
           case Flag => !actuals[p.name].b
           case _ => true
  {
    hide Find, Valid, Others;
    if !sig.params[i].kind.Self? {
      IndexIsPosition(sig.params, i);
    }
  }

  /** What the native function gets for each kind of parameter of a request that is the stub's: for a handle the
      object behind the id that was passed, for a number that number; for `self` the object behind the id that
      was sent, or a pointer to it. */
  lemma {:induction false} HandlerGives<Obj>(sig: Signature, self: string, actuals: map<string, Actual>,
                                             persistence: map<string, Obj>, i: nat)
    requires Supplied(sig.params, actuals) && i < |sig.params|
    ensures var request := Stub(sig, self, actuals);
      var given, p := Handler(sig, request, persistence)[i], sig.params[i];
      var found := if request.objectId in persistence then Some(persistence[request.objectId]) else None;
      match p.kind
      case Self(byValue) => given == if byValue then Pointee(found) else Pointer(found)
      case Reference =>
        var id := actuals[p.name].id;
        given == Pointee(if id in persistence then Some(persistence[id]) else None)
      case Integer => given == Number(actuals[p.name].n)
      case Flag => given == Number(0)
  {
    if !sig.params[i].kind.Self? {
      IndexIsPosition(sig.params, i);
    }
    hide Valid, Others;
  }

  /** The conditions under which a call gets through as it was meant. */
  predicate GetsThrough<Obj(==)>(sig: Signature, self: string, actuals: map<string, Actual>,
                                 persistence: map<string, Obj>)
    requires Supplied(sig.params, actuals)
  {
    && (HasSelf(sig.params) && sig.staticName.Some? ==>
          Find(persistence, sig.staticName.value) == Find(persistence, self))
    && (forall i :: 0 <= i < |sig.params| && sig.params[i].kind.Flag? ==> !actuals[sig.params[i].name].b)
  }

  /** For every signature, with `self` in any position or absent, stub and handler together hand the native
      function what a direct call would, in the declared order, exactly when `self` is not looked up under a
      static name that means something else and no Boolean argument is true. */
  lemma {:induction false} StubMeetsHandler<Obj>(sig: Signature, self: string, actuals: map<string, Actual>,
                                                 persistence: map<string, Obj>)
    requires Supplied(sig.params, actuals)
    ensures Handler(sig, Stub(sig, self, actuals), persistence) == Direct(sig, self, actuals, persistence)
            <==> GetsThrough(sig, self, actuals, persistence)
  {
    var got := Handler(sig, Stub(sig, self, actuals), persistence);
    var want := Direct(sig, self, actuals, persistence);
    forall i | 0 <= i < |sig.params|
      ensures got[i] == want[i]
              <==> match sig.params[i].kind
                   case Self(_) => sig.staticName.Some? ==>
                                     Find(persistence, sig.staticName.value) == Find(persistence, self)
                   case Flag => !actuals[sig.params[i].name].b
                   case _ => true
    {
      ParameterArrives(sig, self, actuals, persistence, i);
    }
    hide Handler, Direct, Find, Stub, Supplied;
    if got == want {
      forall i | 0 <= i < |sig.params| && sig.params[i].kind.Flag?
        ensures !actuals[sig.params[i].name].b
      {
        assert got[i] == want[i];
      }
    }
  }
}
