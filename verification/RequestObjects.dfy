/** The other three message structs of golang-receiver/exchange/exchange.pb.go. A request owns pointers to
    its arguments; decoding appends newly allocated ones. */
module RequestObjects {
  import opened Wire
  import opened Records
  import opened Messages
  import opened Objects

  function Values(args: seq<ArgumentObject>): (vs: seq<Argument>)
    reads args
    ensures |vs| == |args| && forall k :: 0 <= k < |args| ==> vs[k] == args[k].Value()
  {
    if args == [] then [] else Values(args[..|args| - 1]) + [args[|args| - 1].Value()]
  }

  lemma {:induction false} ValuesSnoc(args: seq<ArgumentObject>, arg: ArgumentObject)
    ensures Values(args + [arg]) == Values(args) + [arg.Value()]
  {
    assert (args + [arg])[..|args|] == args;
  }

  /** What one argument takes inside its request. */
  lemma {:induction false} ArgsUpTo(args: seq<Argument>, k: nat)
    requires k < |args|
    ensures EncodeArgs(args[..k + 1]) == EncodeArgs(args[..k]) + BytesChunk(0x1a, EncodeArgument(args[k]))
    ensures |EncodeArgs(args[..k + 1])| <= |EncodeArgs(args)|
    decreases |args|
  {
    hide EncodeArgument, BytesChunk;
    var n := |args| - 1;
    assert args[..k + 1][..k] == args[..k];
    if k < n {
      ArgsUpTo(args[..n], k);
      assert args[..n][..k] == args[..k] && args[..n][..k + 1] == args[..k + 1];
    } else {
      assert args[..k + 1] == args;
    }
  }

  /** What the first `k` arguments take. */
  ghost function ArgsPrefix(vs: seq<Argument>, k: nat): seq<byte>
    requires k <= |vs|
  {
    EncodeArgs(vs[..k])
  }

  lemma {:induction false} PrefixEnds(vs: seq<Argument>)
    ensures ArgsPrefix(vs, 0) == [] && ArgsPrefix(vs, |vs|) == EncodeArgs(vs)
  {
    assert vs[..0] == [] && vs[..|vs|] == vs;
  }

  /** The parts of one argument's chunk, each within the bounds of the whole. */
  lemma {:induction false} ArgumentFits(vs: seq<Argument>, k: nat)
    requires k < |vs| && |EncodeArgs(vs)| <= MAX_INT
    ensures var e := EncodeArgument(vs[k]);
            && |e| <= MAX_INT
            && ArgsPrefix(vs, k + 1) == ArgsPrefix(vs, k) + (NumberChunk(0x1a, |e|) + e)
            && |ArgsPrefix(vs, k + 1)| <= |EncodeArgs(vs)|
  {
    var e := EncodeArgument(vs[k]);
    hide EncodeArgs, EncodeArgument, BytesChunk, VarintBytes, NumberChunk;
    ArgsUpTo(vs, k);
    ContentFits(0x1a, e);
    ChunkSize(0x1a, e);
  }

  lemma {:induction false} ContentFits(tag: byte, content: seq<byte>)
    ensures |content| <= |BytesChunk(tag, content)|
  {
    hide VarintBytes;
  }

  /** One argument with its tag and length: `1 + l + sovExchange(uint64(l))`. */
  method ArgumentSize(arg: ArgumentObject) returns (n: nat)
    requires |EncodeArgument(arg.Value())| <= MAX_INT
    ensures var e := EncodeArgument(arg.Value()); n == |NumberChunk(0x1a, |e|) + e|
  {
    hide EncodeArgument, VarintBytes;
    var l := arg.Size();
    var sov := SovLoop(l);
    n := 1 + l + sov;
  }

  method PutArgument(dAtA: array<byte>, i: nat, arg: ArgumentObject,
                     ghost was: seq<byte>, ghost lo: nat, ghost done: seq<byte>)
    returns (next: nat)
    requires var e := EncodeArgument(arg.Value());
      |e| <= MAX_INT && i == lo + |done| && i + |NumberChunk(0x1a, |e|)| + |e| <= dAtA.Length
    requires Wrote(dAtA[..], was, lo, done)
    modifies dAtA
    ensures var e := EncodeArgument(arg.Value());
      && next == i + |NumberChunk(0x1a, |e|)| + |e|
      && Wrote(dAtA[..], was, lo, done + (NumberChunk(0x1a, |e|) + e))
  {
    hide EncodeArgument, NumberChunk, Wrote;
    ghost var e := EncodeArgument(arg.Value());
    var size := arg.Size();
    next := PutNumber(dAtA, i, 0x1a, size, was, lo, done);
    ghost var before := dAtA[..];
    var n := arg.MarshalTo(dAtA, next);
    WroteMore(was, before, dAtA[..], lo, done + NumberChunk(0x1a, |e|), e);
    assert done + NumberChunk(0x1a, |e|) + e == done + (NumberChunk(0x1a, |e|) + e);
    next := next + n;
  }

  // ---- MethodCallRequest -----------------------------------------------------------------------------

  lemma {:induction false} RequestParts(m: Request)
    ensures var f := m.fields;
      var head, args, rest := RequestHead(f.methodName, f.objectID), EncodeArgs(f.args), RequestRest(f);
      && EncodeRequest(m) == head + args + rest + m.unrecognized
      && |EncodeRequest(m)| == |head| + |args| + |rest| + |m.unrecognized|
  {
    hide OptionalBytes, OptionalBool, EncodeArgs;
  }

  function RequestHead(methodName: seq<byte>, objectID: seq<byte>): seq<byte> {
    OptionalBytes(0x0a, methodName) + OptionalBytes(0x12, objectID)
  }

  function RequestRest(f: RequestFields): seq<byte> {
    OptionalBool(0x20, f.isStatic) + OptionalBool(0x28, f.doGetReturnValue) + OptionalBool(0x30, f.property)
    + OptionalBytes(0x3a, f.assignedID)
  }

  lemma {:induction false} RequestSize(m: Request)
    ensures var f := m.fields;
      && |EncodeRequest(m)| == |OptionalBytes(0x0a, f.methodName)| + |OptionalBytes(0x12, f.objectID)|
                               + |EncodeArgs(f.args)| + (if f.isStatic then 2 else 0)
                               + (if f.doGetReturnValue then 2 else 0) + (if f.property then 2 else 0)
                               + |OptionalBytes(0x3a, f.assignedID)| + |m.unrecognized|
      && |f.methodName| <= |EncodeRequest(m)| && |f.objectID| <= |EncodeRequest(m)|
      && |f.assignedID| <= |EncodeRequest(m)|
  {
    var f := m.fields;
    OptionalFits(0x0a, f.methodName);
    OptionalFits(0x12, f.objectID);
    OptionalFits(0x3a, f.assignedID);
    OneByte(0x20);
    OneByte(0x28);
    OneByte(0x30);
    hide OptionalBytes, NumberChunk, EncodeArgs;
  }

  lemma {:induction false} OptionalFits(tag: byte, content: seq<byte>)
    ensures |content| <= |OptionalBytes(tag, content)|
  {
    hide VarintBytes;
  }

  method ArgsSize(args: seq<ArgumentObject>, ghost vs: seq<Argument>) returns (n: nat)
    requires |vs| == |args| && forall k :: 0 <= k < |args| ==> args[k].Value() == vs[k]
    requires |EncodeArgs(vs)| <= MAX_INT
    ensures n == |EncodeArgs(vs)|
  {
    n := 0;
    PrefixEnds(vs);
    hide EncodeArgs, EncodeArgument, ArgsPrefix, NumberChunk;
    for k := 0 to |args|
      invariant n == |ArgsPrefix(vs, k)|
    {
      ArgumentFits(vs, k);
      var l := ArgumentSize(args[k]);
      n := n + l;
    }
  }

  /** The fields before the arguments. */
  method PutHead(dAtA: array<byte>, lo: nat, methodName: seq<byte>, objectID: seq<byte>, ghost was: seq<byte>)
    returns (i: nat)
    requires |RequestHead(methodName, objectID)| <= MAX_INT
    requires Wrote(dAtA[..], was, lo, []) && lo + |RequestHead(methodName, objectID)| <= dAtA.Length
    modifies dAtA
    ensures i == lo + |RequestHead(methodName, objectID)|
    ensures Wrote(dAtA[..], was, lo, RequestHead(methodName, objectID))
  {
    OptionalFits(0x0a, methodName);
    OptionalFits(0x12, objectID);
    hide OptionalBytes, Wrote;
    i := PutOptional(dAtA, lo, 0x0a, methodName, was, lo, []);
    assert [] + OptionalBytes(0x0a, methodName) == OptionalBytes(0x0a, methodName);
    i := PutOptional(dAtA, i, 0x12, objectID, was, lo, OptionalBytes(0x0a, methodName));
  }

  /** Each argument with its tag and size, written by the argument itself into the rest of the buffer. */
  method PutArgs(dAtA: array<byte>, start: nat, args: seq<ArgumentObject>, ghost vs: seq<Argument>,
                 ghost was: seq<byte>, ghost lo: nat, ghost done: seq<byte>) returns (i: nat)
    requires |vs| == |args| && forall k :: 0 <= k < |args| ==> args[k].Value() == vs[k]
    requires |EncodeArgs(vs)| <= MAX_INT && start + |EncodeArgs(vs)| <= dAtA.Length
    requires Wrote(dAtA[..], was, lo, done) && start == lo + |done|
    modifies dAtA
    ensures i == start + |EncodeArgs(vs)| && Wrote(dAtA[..], was, lo, done + EncodeArgs(vs))
  {
    PrefixEnds(vs);
    assert done + [] == done;
    hide EncodeArgs, ArgsPrefix, Wrote;
    i := start;
    for k := 0 to |args|
      invariant i == start + |ArgsPrefix(vs, k)|
      invariant Wrote(dAtA[..], was, lo, done + ArgsPrefix(vs, k))
    {
      i := PutOne(dAtA, i, args[k], vs, k, was, lo, done);
    }
  }

  method PutOne(dAtA: array<byte>, i: nat, arg: ArgumentObject, ghost vs: seq<Argument>, ghost k: nat,
                ghost was: seq<byte>, ghost lo: nat, ghost done: seq<byte>) returns (next: nat)
    requires k < |vs| && arg.Value() == vs[k] && |EncodeArgs(vs)| <= MAX_INT
    requires i == lo + |done| + |ArgsPrefix(vs, k)| && lo + |done| + |EncodeArgs(vs)| <= dAtA.Length
    requires Wrote(dAtA[..], was, lo, done + ArgsPrefix(vs, k))
    modifies dAtA
    ensures next == lo + |done| + |ArgsPrefix(vs, k + 1)|
    ensures Wrote(dAtA[..], was, lo, done + ArgsPrefix(vs, k + 1))
  {
    hide EncodeArgs, EncodeArgument, ArgsPrefix, NumberChunk, Wrote;
    ArgumentFits(vs, k);
    ghost var e := EncodeArgument(vs[k]);
    Regroup(done, ArgsPrefix(vs, k), NumberChunk(0x1a, |e|) + e);
    next := PutArgument(dAtA, i, arg, was, lo, done + ArgsPrefix(vs, k));
  }

  /** The fields after the arguments. */
  method PutRest(dAtA: array<byte>, start: nat, f: RequestFields,
                 ghost was: seq<byte>, ghost lo: nat, ghost done: seq<byte>)
    returns (i: nat)
    requires |RequestRest(f)| <= MAX_INT && start + |RequestRest(f)| <= dAtA.Length
    requires Wrote(dAtA[..], was, lo, done) && start == lo + |done|
    modifies dAtA
    ensures i == start + |RequestRest(f)| && Wrote(dAtA[..], was, lo, done + RequestRest(f))
  {
    OptionalFits(0x3a, f.assignedID);
    hide OptionalBytes, OptionalBool, Wrote;
    ghost var a, b := OptionalBool(0x20, f.isStatic), OptionalBool(0x28, f.doGetReturnValue);
    ghost var c := OptionalBool(0x30, f.property);
    ghost var d := OptionalBytes(0x3a, f.assignedID);
    i := PutBool(dAtA, start, 0x20, f.isStatic, was, lo, done);
    i := PutBool(dAtA, i, 0x28, f.doGetReturnValue, was, lo, done + a);
    i := PutBool(dAtA, i, 0x30, f.property, was, lo, done + a + b);
    i := PutOptional(dAtA, i, 0x3a, f.assignedID, was, lo, done + a + b + c);
    Regroup(done, a, b);
    Regroup(done, a + b, c);
    Regroup(done, a + b + c, d);
  }

  lemma {:induction false} ArgumentReached(s: seq<byte>)
    requires DecodeArgument(NO_ARGUMENT, s).Ok?
    ensures DecodeArgument(NO_ARGUMENT, s) == Ok(Reached(ARGUMENT, NO_ARGUMENT, s, 0))
  {
    DecodeReaches(ARGUMENT, NO_ARGUMENT, s, 0);
    hide Decode, Reached;
  }

  class RequestObject {
    var methodName: seq<byte>
    var objectID: seq<byte>
    var args: seq<ArgumentObject>
    var isStatic: bool
    var doGetReturnValue: bool
    var property: bool
    var assignedID: seq<byte>
    var unrecognized: seq<byte>

    function Fields(): RequestFields
      reads this, args
    {
      RequestFields(methodName, objectID, Values(args), isStatic, doGetReturnValue, property, assignedID)
    }

    function Value(): Request
      reads this, args
    {
      Message(Fields(), unrecognized)
    }

    constructor ()
      ensures Value() == NO_REQUEST
    {
      methodName, objectID, args, assignedID, unrecognized := [], [], [], [], [];
      isStatic, doGetReturnValue, property := false, false, false;
    }

    method Size() returns (n: nat)
      requires |EncodeRequest(Value())| <= MAX_INT
      ensures n == |EncodeRequest(Value())|
    {
      RequestSize(Value());
      hide EncodeRequest, EncodeArgs, OptionalBytes, Values;
      var l := OptionalSize(0x0a, methodName);
      n := l;
      l := OptionalSize(0x12, objectID);
      n := n + l;
      l := ArgsSize(args, Values(args));
      n := n + l;
      if isStatic {
        n := n + 2;
      }
      if doGetReturnValue {
        n := n + 2;
      }
      if property {
        n := n + 2;
      }
      l := OptionalSize(0x3a, assignedID);
      n := n + l + |unrecognized|;
    }

    method MarshalTo(dAtA: array<byte>, lo: nat) returns (n: nat)
      requires |EncodeRequest(Value())| <= MAX_INT && lo + |EncodeRequest(Value())| <= dAtA.Length
      modifies dAtA
      ensures n == |EncodeRequest(Value())|
      ensures Wrote(dAtA[..], old(dAtA[..]), lo, EncodeRequest(Value()))
    {
      RequestParts(Value());
      hide EncodeRequest, EncodeArgs, RequestHead, RequestRest, Wrote, Values;
      ghost var was := dAtA[..];
      ghost var f := Fields();
      ghost var a, b, c := RequestHead(methodName, objectID), EncodeArgs(f.args), RequestRest(f);
      WroteNothing(was, lo);
      var i := PutHead(dAtA, lo, methodName, objectID, was);
      i := PutArgs(dAtA, i, args, f.args, was, lo, a);
      i := PutRest(dAtA, i, Fields(), was, lo, a + b);
      i := PutRaw(dAtA, i, unrecognized, was, lo, a + b + c);
      n := i - lo;
    }

    /** The whole request in a buffer of exactly its size. */
    method Marshal() returns (dAtA: array<byte>)
      requires |EncodeRequest(Value())| <= MAX_INT
      ensures fresh(dAtA) && dAtA[..] == EncodeRequest(Value())
    {
      hide EncodeRequest, Wrote;
      var size := Size();
      dAtA := new byte[size];
      ghost var was := dAtA[..];
      var n := MarshalTo(dAtA, 0);
      WroteAll(dAtA[..], was, EncodeRequest(Value()));
    }

    /** Appends an empty argument, slices out the nested bytes and decodes them onto it. */
    method AppendArgument(dAtA: seq<byte>, iNdEx: nat, postIndex: int) returns (err: Result<()>)
      requires |dAtA| <= MAX_INT && postIndex <= |dAtA|
      modifies this`args
      ensures |args| == |old(args)| + 1 && args[..|old(args)|] == old(args) && fresh(args[|old(args)|])
      ensures postIndex < iNdEx ==> err == Err(Panic) && Values(args) == old(Values(args)) + [NO_ARGUMENT]
      ensures iNdEx <= postIndex ==>
                var c := dAtA[iNdEx..postIndex];
                && err == (match DecodeArgument(NO_ARGUMENT, c) case Ok(_) => Ok(()) case Err(e) => Err(e))
                && Values(args) == old(Values(args)) + [Reached(ARGUMENT, NO_ARGUMENT, c, 0)]
    {
      hide DecodeArgument, Values, Reached;
      var arg := new ArgumentObject();
      ghost var before := args;
      args := args + [arg];
      ValuesSnoc(before, arg);
      if postIndex < iNdEx {
        return Err(Panic);  // slice bounds out of range
      }
      err := arg.Unmarshal(dAtA[iNdEx..postIndex]);
      ValuesSnoc(before, arg);
    }

    /** One round of the loop: the field at `preIndex`, and the index after it. */
    method UnmarshalField(dAtA: seq<byte>, preIndex: nat) returns (r: Result<nat>)
      requires preIndex < |dAtA| <= MAX_INT
      modifies this
      ensures match ReadRecord(RequestKind, dAtA, preIndex)
              case Err(e) =>
                && r == Err(e)
                && Value() == old(Value()).(fields :=
                     BreakRequest(old(Fields()), BrokenRecord(RequestKind, dAtA, preIndex)))
              case Ok(read) =>
                match Apply(REQUEST, old(Value()), read.0)
                case Err(e) => r == Err(e) && Value() == old(Value()).(fields := AbandonRequest(old(Fields()), read.0))
                case Ok(m) => r == Ok(read.1) && Value() == m
      ensures |old(args)| <= |args| && args[..|old(args)|] == old(args)
      ensures forall k :: |old(args)| <= k < |args| ==> fresh(args[k])
    {
      hide ReadVarint, ReadBytes, ReadRaw, FieldNumber, Values, ApplyRequest, AbandonRequest, Groups, Stops;
      var tag :- ReadTag(dAtA, preIndex);
      var (fieldNum, wireType, next) := tag;
      if fieldNum == 3 {
        if wireType != 2 {
          return Err(WrongWireType(3));
        }
        r := UnmarshalArgument(dAtA, next);
      } else if fieldNum == 1 || fieldNum == 2 || fieldNum == 7 {
        if wireType != 2 {
          return Err(WrongWireType(fieldNum));
        }
        r := UnmarshalBytes(fieldNum, dAtA, next);
      } else if fieldNum == 4 || fieldNum == 5 || fieldNum == 6 {
        if wireType != 0 {
          return Err(WrongWireType(fieldNum));
        }
        r := UnmarshalBool(fieldNum, dAtA, next);
      } else {
        var raw :- ReadUnknown(dAtA, preIndex);
        unrecognized := unrecognized + raw.0;
        r := Ok(raw.1);
      }
    }

    /** Field 3, after its tag. */
    method UnmarshalArgument(dAtA: seq<byte>, start: nat) returns (r: Result<nat>)
      requires |dAtA| <= MAX_INT
      modifies this`args
      ensures match ReadBytes(dAtA, start)
              case Err(e) =>
                && r == Err(e)
                && Fields() == if e == Panic then BreakRequest(old(Fields()), Overrun(3)) else old(Fields())
              case Ok((c, end)) =>
                match ApplyRequest(old(Fields()), BytesRecord(3, c))
                case Ok(f) => r == Ok(end) && Fields() == f
                case Err(e) => r == Err(e) && Fields() == AbandonRequest(old(Fields()), BytesRecord(3, c))
      ensures |old(args)| <= |args| && args[..|old(args)|] == old(args)
      ensures forall k :: |old(args)| <= k < |args| ==> fresh(args[k])
    {
      VarintError(dAtA, start);
      hide ReadVarint, Values, DecodeArgument, Reached;
      var bounds :- ReadBounds(dAtA, start);
      var (iNdEx, postIndex) := bounds;
      var nested :- AppendArgument(dAtA, iNdEx, postIndex);
      ArgumentReached(dAtA[iNdEx..postIndex]);
      r := Ok(postIndex);
    }

    /** Field 1, 2 or 7, after its tag. */
    method UnmarshalBytes(fieldNum: int32, dAtA: seq<byte>, start: nat) returns (r: Result<nat>)
      requires |dAtA| <= MAX_INT && (fieldNum == 1 || fieldNum == 2 || fieldNum == 7)
      modifies this`methodName, this`objectID, this`assignedID
      ensures match ReadBytes(dAtA, start)
              case Err(e) => r == Err(e) && Fields() == old(Fields())
              case Ok((c, end)) =>
                r == Ok(end) && Ok(Fields()) == ApplyRequest(old(Fields()), BytesRecord(fieldNum, c))
    {
      hide ReadBytes, Values;
      var c :- ReadLengthDelimited(dAtA, start);
      match fieldNum {
        case 1 => methodName := c.0;
        case 2 => objectID := c.0;
        case _ => assignedID := c.0;
      }
      r := Ok(c.1);
    }

    /** Field 4, 5 or 6, after its tag. */
    method UnmarshalBool(fieldNum: int32, dAtA: seq<byte>, start: nat) returns (r: Result<nat>)
      requires |dAtA| <= MAX_INT && (fieldNum == 4 || fieldNum == 5 || fieldNum == 6)
      modifies this`isStatic, this`doGetReturnValue, this`property
      ensures match ReadVarint(dAtA, start)
              case Err(e) => r == Err(e) && Fields() == old(Fields())
              case Ok((v, end)) =>
                r == Ok(end) && Ok(Fields()) == ApplyRequest(old(Fields()), NumberRecord(fieldNum, v))
    {
      hide ReadVarint, Values;
      var v :- ReadNumber(dAtA, start);
      match fieldNum {
        case 4 => isStatic := v.0 != 0;
        case 5 => doGetReturnValue := v.0 != 0;
        case _ => property := v.0 != 0;
      }
      r := Ok(v.1);
    }

    /** Decodes onto the current value. The arguments already there stay the same objects; after an error,
        the fields before it have been decoded. */
    method Unmarshal(dAtA: seq<byte>) returns (err: Result<()>)
      requires |dAtA| <= MAX_INT
      modifies this
      ensures match DecodeRequest(old(Value()), dAtA)
              case Ok(m) => err == Ok(()) && Value() == m
              case Err(e) => err == Err(e)
      ensures Value() == Reached(REQUEST, old(Value()), dAtA, 0)
      ensures |old(args)| <= |args| && args[..|old(args)|] == old(args)
      ensures forall k :: |old(args)| <= k < |args| ==> fresh(args[k])
    {
      hide ReadRecord, Apply, Values;
      ghost var start := Value();
      var l := |dAtA|;
      var iNdEx := 0;
      while iNdEx < l
        invariant 0 <= iNdEx <= l
        invariant DecodeRequest(start, dAtA) == Decode(REQUEST, Value(), dAtA, iNdEx)
        invariant Reached(REQUEST, start, dAtA, 0) == Reached(REQUEST, Value(), dAtA, iNdEx)
        invariant |old(args)| <= |args| && args[..|old(args)|] == old(args)
        invariant forall k :: |old(args)| <= k < |args| ==> fresh(args[k])
      {
        iNdEx :- UnmarshalField(dAtA, iNdEx);
      }
      return Ok(());
    }
  }

  // ---- ImportRequest -----------------------------------------------------------------------------------

  class ImportObject {
    var importedName: seq<byte>
    var unrecognized: seq<byte>

    function Value(): Import
      reads this
    {
      Message(ImportFields(importedName), unrecognized)
    }

    constructor ()
      ensures Value() == NO_IMPORT
    {
      importedName, unrecognized := [], [];
    }

    method Size() returns (n: nat)
      requires |importedName| <= MAX_INT
      ensures n == |EncodeImport(Value())|
    {
      hide VarintBytes;
      n := 0;
      if |importedName| > 0 {
        var k := SovLoop(|importedName|);
        n := 1 + |importedName| + k;
      }
      n := n + |unrecognized|;
    }

    method MarshalTo(dAtA: array<byte>, lo: nat) returns (n: nat)
      requires |EncodeImport(Value())| <= MAX_INT && lo + |EncodeImport(Value())| <= dAtA.Length
      modifies dAtA
      ensures n == |EncodeImport(Value())|
      ensures Wrote(dAtA[..], old(dAtA[..]), lo, EncodeImport(Value()))
    {
      OptionalFits(0x0a, importedName);
      hide OptionalBytes, Wrote;
      ghost var was := dAtA[..];
      WroteNothing(was, lo);
      var i := PutOptional(dAtA, lo, 0x0a, importedName, was, lo, []);
      assert [] + OptionalBytes(0x0a, importedName) == OptionalBytes(0x0a, importedName);
      i := PutRaw(dAtA, i, unrecognized, was, lo, OptionalBytes(0x0a, importedName));
      n := i - lo;
    }

    method Marshal() returns (dAtA: array<byte>)
      requires |EncodeImport(Value())| <= MAX_INT
      ensures fresh(dAtA) && dAtA[..] == EncodeImport(Value())
    {
      OptionalFits(0x0a, importedName);
      hide EncodeImport, Wrote;
      var size := Size();
      dAtA := new byte[size];
      ghost var was := dAtA[..];
      var n := MarshalTo(dAtA, 0);
      WroteAll(dAtA[..], was, EncodeImport(Value()));
    }

    method Unmarshal(dAtA: seq<byte>) returns (err: Result<()>)
      requires |dAtA| <= MAX_INT
      modifies this
      ensures match DecodeImport(old(Value()), dAtA)
              case Ok(m) => err == Ok(()) && Value() == m
              case Err(e) => err == Err(e)
      ensures Value() == Reached(IMPORT, old(Value()), dAtA, 0)
    {
      hide ReadVarint, ReadBytes, ReadRaw, FieldNumber;
      ghost var start := Value();
      var iNdEx := 0;
      while iNdEx < |dAtA|
        invariant 0 <= iNdEx <= |dAtA|
        invariant DecodeImport(start, dAtA) == Decode(IMPORT, Value(), dAtA, iNdEx)
        invariant Reached(IMPORT, start, dAtA, 0) == Reached(IMPORT, Value(), dAtA, iNdEx)
      {
        var preIndex := iNdEx;
        var tag :- ReadTag(dAtA, iNdEx);
        var (fieldNum, wireType, next) := tag;
        if fieldNum == 1 {
          if wireType != 2 {
            return Err(WrongWireType(1));
          }
          var c :- ReadLengthDelimited(dAtA, next);
          importedName := c.0;
          iNdEx := c.1;
        } else {
          var raw :- ReadUnknown(dAtA, preIndex);
          unrecognized := unrecognized + raw.0;
          iNdEx := raw.1;
        }
      }
      return Ok(());
    }
  }

  // ---- ChannelResponse ---------------------------------------------------------------------------------

  lemma {:induction false} ReturnTextFits(m: Response)
    ensures |EncodeResponse(m)| == |EncodeReturnValue(m.fields.returnValue)| + |m.unrecognized|
    ensures m.fields.returnValue.ReturnString? || m.fields.returnValue.ExceptionMessage? ==>
              |m.fields.returnValue.text| <= |EncodeReturnValue(m.fields.returnValue)|
  {
    hide VarintBytes;
  }

  class ResponseObject {
    var returnValue: ReturnValue
    var unrecognized: seq<byte>

    function Value(): Response
      reads this
    {
      Message(ResponseFields(returnValue), unrecognized)
    }

    constructor ()
      ensures Value() == NO_RESPONSE
    {
      returnValue, unrecognized := NotSet, [];
    }

    method Size() returns (n: nat)
      requires |EncodeResponse(Value())| <= MAX_INT
      ensures n == |EncodeResponse(Value())|
    {
      ReturnTextFits(Value());
      OneByte(0x20);
      hide VarintBytes;
      n := 0;
      match returnValue {
        case NotSet =>
        case ReturnString(text) =>
          var k := SovLoop(|text|);
          n := 1 + |text| + k;
        case ReturnInt(number) =>
          var k := SovLoop(SignExtend(number));
          n := 1 + k;
        case ExceptionMessage(text) =>
          var k := SovLoop(|text|);
          n := 1 + |text| + k;
        case NoReturnValue(_) =>
          n := 2;
      }
      n := n + |unrecognized|;
    }

    method MarshalTo(dAtA: array<byte>, lo: nat) returns (n: nat)
      requires |EncodeResponse(Value())| <= MAX_INT && lo + |EncodeResponse(Value())| <= dAtA.Length
      modifies dAtA
      ensures n == |EncodeResponse(Value())|
      ensures Wrote(dAtA[..], old(dAtA[..]), lo, EncodeResponse(Value()))
    {
      ReturnTextFits(Value());
      hide BytesChunk, NumberChunk, Wrote;
      ghost var was := dAtA[..];
      var i := lo;
      WroteNothing(was, lo);
      match returnValue {
        case NotSet =>
        case ReturnString(text) => i := PutBytes(dAtA, lo, 0x0a, text, was, lo, []);
        case ReturnInt(number) => i := PutNumber(dAtA, lo, 0x10, SignExtend(number), was, lo, []);
        case ExceptionMessage(text) => i := PutBytes(dAtA, lo, 0x1a, text, was, lo, []);
        case NoReturnValue(flag) => i := PutNumber(dAtA, lo, 0x20, if flag then 1 else 0, was, lo, []);
      }
      assert [] + EncodeReturnValue(returnValue) == EncodeReturnValue(returnValue);
      i := PutRaw(dAtA, i, unrecognized, was, lo, EncodeReturnValue(returnValue));
      n := i - lo;
    }

    method Marshal() returns (dAtA: array<byte>)
      requires |EncodeResponse(Value())| <= MAX_INT
      ensures fresh(dAtA) && dAtA[..] == EncodeResponse(Value())
    {
      ReturnTextFits(Value());
      hide EncodeResponse, Wrote;
      var size := Size();
      dAtA := new byte[size];
      ghost var was := dAtA[..];
      var n := MarshalTo(dAtA, 0);
      WroteAll(dAtA[..], was, EncodeResponse(Value()));
    }

    method Unmarshal(dAtA: seq<byte>) returns (err: Result<()>)
      requires |dAtA| <= MAX_INT
      modifies this
      ensures match DecodeResponse(old(Value()), dAtA)
              case Ok(m) => err == Ok(()) && Value() == m
              case Err(e) => err == Err(e)
      ensures Value() == Reached(RESPONSE, old(Value()), dAtA, 0)
    {
      hide ReadVarint, ReadBytes, ReadRaw, FieldNumber;
      ghost var start := Value();
      var iNdEx := 0;
      while iNdEx < |dAtA|
        invariant 0 <= iNdEx <= |dAtA|
        invariant DecodeResponse(start, dAtA) == Decode(RESPONSE, Value(), dAtA, iNdEx)
        invariant Reached(RESPONSE, start, dAtA, 0) == Reached(RESPONSE, Value(), dAtA, iNdEx)
      {
        var preIndex := iNdEx;
        var tag :- ReadTag(dAtA, iNdEx);
        var (fieldNum, wireType, next) := tag;
        match fieldNum {
          case 1 =>
            if wireType != 2 {
              return Err(WrongWireType(1));
            }
            var c :- ReadLengthDelimited(dAtA, next);
            returnValue := ReturnString(c.0);
            iNdEx := c.1;
          case 2 =>
            if wireType != 0 {
              return Err(WrongWireType(2));
            }
            var v :- ReadInt32(dAtA, next);
            returnValue := ReturnInt(v.0);
            iNdEx := v.1;
          case 3 =>
            if wireType != 2 {
              return Err(WrongWireType(3));
            }
            var c :- ReadLengthDelimited(dAtA, next);
            returnValue := ExceptionMessage(c.0);
            iNdEx := c.1;
          case 4 =>
            if wireType != 0 {
              return Err(WrongWireType(4));
            }
            var v :- ReadNumber(dAtA, next);
            returnValue := NoReturnValue(v.0 != 0);
            iNdEx := v.1;
          case _ =>
            var raw :- ReadUnknown(dAtA, preIndex);
            unrecognized := unrecognized + raw.0;
            iNdEx := raw.1;
        }
      }
      return Ok(());
    }
  }
}
