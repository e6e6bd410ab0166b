/** The four messages of golang-receiver/exchange/exchange.pb.go as values: what `Unmarshal` does with each
    record, what `MarshalTo` writes, and the laws between the two. */
module Messages {
  import opened Wire
  import opened Skipping
  import opened Records

  // ---- Argument --------------------------------------------------------------------------------------

  datatype ArgumentValue = NoValue | StringValue(text: seq<byte>) | IntValue(number: int32)

  datatype ArgumentFields = ArgumentFields(argType: int32, value: ArgumentValue, key: seq<byte>)

  type Argument = Message<ArgumentFields>

  const NO_ARGUMENT: Argument := Message(ArgumentFields(0, NoValue, []), [])

  function ArgumentKind(field: int32): Kind {
    if field == 1 || field == 3 then Number else if field == 2 || field == 4 then Bytes else Unknown
  }

  function ApplyArgument(f: ArgumentFields, rec: Record): Result<ArgumentFields> {
    match rec
    case NumberRecord(field, v) =>
      if field == 1 then Ok(f.(argType := ToInt32(v)))
      else if field == 3 then Ok(f.(value := IntValue(ToInt32(v))))
      else Ok(f)
    case BytesRecord(field, c) =>
      if field == 2 then Ok(f.(value := StringValue(c)))
      else if field == 4 then Ok(f.(key := c))
      else Ok(f)
    case _ => Ok(f)
  }

  /** The loop for field 1 works in the field itself, in 32 bits. */
  function BreakArgument(f: ArgumentFields, broken: Broken): ArgumentFields {
    match broken
    case HalfNumber(field, groups) => if field == 1 then f.(argType := ToInt32(groups)) else f
    case _ => f
  }

  const ARGUMENT: Schema<ArgumentFields> := Schema(ArgumentKind, ApplyArgument, (f, _) => f, BreakArgument)

  function DecodeArgument(m: Argument, s: seq<byte>): Result<Argument> {
    Decode(ARGUMENT, m, s, 0)
  }

  // ---- MethodCallRequest -----------------------------------------------------------------------------

  datatype RequestFields = RequestFields(
    methodName: seq<byte>,
    objectID: seq<byte>,
    args: seq<Argument>,
    isStatic: bool,
    doGetReturnValue: bool,
    property: bool,
    assignedID: seq<byte>
  )

  type Request = Message<RequestFields>

  const NO_REQUEST: Request := Message(RequestFields([], [], [], false, false, false, []), [])

  function RequestKind(field: int32): Kind {
    if field == 1 || field == 2 || field == 3 || field == 7 then Bytes
    else if field == 4 || field == 5 || field == 6 then Number
    else Unknown
  }

  function ApplyRequest(f: RequestFields, rec: Record): Result<RequestFields> {
    match rec
    case BytesRecord(field, c) =>
      if field == 1 then Ok(f.(methodName := c))
      else if field == 2 then Ok(f.(objectID := c))
      else if field == 3 then
        var arg :- DecodeArgument(NO_ARGUMENT, c);
        Ok(f.(args := f.args + [arg]))
      else if field == 7 then Ok(f.(assignedID := c))
      else Ok(f)
    case NumberRecord(field, v) =>
      if field == 4 then Ok(f.(isStatic := v != 0))
      else if field == 5 then Ok(f.(doGetReturnValue := v != 0))
      else if field == 6 then Ok(f.(property := v != 0))
      else Ok(f)
    case _ => Ok(f)
  }

  /** An argument that does not decode has been appended all the same, as far as it was decoded. */
  function AbandonRequest(f: RequestFields, rec: Record): RequestFields {
    if rec.BytesRecord? && rec.field == 3 then
      f.(args := f.args + [Reached(ARGUMENT, NO_ARGUMENT, rec.content, 0)])
    else f
  }

  /** An argument is appended before its bytes are sliced. */
  function BreakRequest(f: RequestFields, broken: Broken): RequestFields {
    match broken
    case Overrun(field) => if field == 3 then f.(args := f.args + [NO_ARGUMENT]) else f
    case _ => f
  }

  const REQUEST: Schema<RequestFields> := Schema(RequestKind, ApplyRequest, AbandonRequest, BreakRequest)

  function DecodeRequest(m: Request, s: seq<byte>): Result<Request> {
    Decode(REQUEST, m, s, 0)
  }

  // ---- ImportRequest -----------------------------------------------------------------------------------

  datatype ImportFields = ImportFields(importedName: seq<byte>)

  type Import = Message<ImportFields>

  const NO_IMPORT: Import := Message(ImportFields([]), [])

  function ImportKind(field: int32): Kind {
    if field == 1 then Bytes else Unknown
  }

  function ApplyImport(f: ImportFields, rec: Record): Result<ImportFields> {
    match rec
    case BytesRecord(field, c) => if field == 1 then Ok(ImportFields(c)) else Ok(f)
    case _ => Ok(f)
  }

  const IMPORT: Schema<ImportFields> := Schema(ImportKind, ApplyImport, (f, _) => f, (f, _) => f)

  function DecodeImport(m: Import, s: seq<byte>): Result<Import> {
    Decode(IMPORT, m, s, 0)
  }

  // ---- ChannelResponse ---------------------------------------------------------------------------------

  datatype ReturnValue =
    | NotSet
    | ReturnString(text: seq<byte>)
    | ReturnInt(number: int32)
    | ExceptionMessage(text: seq<byte>)
    | NoReturnValue(flag: bool)

  datatype ResponseFields = ResponseFields(returnValue: ReturnValue)

  type Response = Message<ResponseFields>

  const NO_RESPONSE: Response := Message(ResponseFields(NotSet), [])

  function ResponseKind(field: int32): Kind {
    if field == 1 || field == 3 then Bytes else if field == 2 || field == 4 then Number else Unknown
  }

  function ApplyResponse(f: ResponseFields, rec: Record): Result<ResponseFields> {
    match rec
    case BytesRecord(field, c) =>
      if field == 1 then Ok(ResponseFields(ReturnString(c)))
      else if field == 3 then Ok(ResponseFields(ExceptionMessage(c)))
      else Ok(f)
    case NumberRecord(field, v) =>
      if field == 2 then Ok(ResponseFields(ReturnInt(ToInt32(v))))
      else if field == 4 then Ok(ResponseFields(NoReturnValue(v != 0)))
      else Ok(f)
    case _ => Ok(f)
  }

  const RESPONSE: Schema<ResponseFields> := Schema(ResponseKind, ApplyResponse, (f, _) => f, (f, _) => f)

  function DecodeResponse(m: Response, s: seq<byte>): Result<Response> {
    Decode(RESPONSE, m, s, 0)
  }

  // ---- Encoding ------------------------------------------------------------------------------------------

  /** A length-delimited field with a one-byte tag. */
  function BytesChunk(tag: byte, content: seq<byte>): seq<byte> {
    [tag] + VarintBytes(|content|) + content
  }

  function NumberChunk(tag: byte, v: uint64): seq<byte> {
    [tag] + VarintBytes(v)
  }

  /** proto3 leaves a field out that holds its default value; the members of a oneof are written always. */
  function OptionalBytes(tag: byte, content: seq<byte>): seq<byte> {
    if |content| > 0 then BytesChunk(tag, content) else []
  }

  function OptionalBool(tag: byte, b: bool): seq<byte> {
    if b then NumberChunk(tag, 1) else []
  }

  function EncodeValue(v: ArgumentValue): seq<byte> {
    match v
    case NoValue => []
    case StringValue(text) => BytesChunk(0x12, text)
    case IntValue(n) => NumberChunk(0x18, SignExtend(n))
  }

  function EncodeType(t: int32): seq<byte> {
    if t != 0 then NumberChunk(0x08, SignExtend(t)) else []
  }

  function EncodeArgument(m: Argument): seq<byte> {
    EncodeType(m.fields.argType) + EncodeValue(m.fields.value) + OptionalBytes(0x22, m.fields.key)
    + m.unrecognized
  }

  function EncodeArgs(args: seq<Argument>): seq<byte> {
    if args == [] then []
    else EncodeArgs(args[..|args| - 1]) + BytesChunk(0x1a, EncodeArgument(args[|args| - 1]))
  }

  function EncodeRequest(m: Request): seq<byte> {
    OptionalBytes(0x0a, m.fields.methodName) + OptionalBytes(0x12, m.fields.objectID)
    + EncodeArgs(m.fields.args)
    + OptionalBool(0x20, m.fields.isStatic) + OptionalBool(0x28, m.fields.doGetReturnValue)
    + OptionalBool(0x30, m.fields.property)
    + OptionalBytes(0x3a, m.fields.assignedID)
    + m.unrecognized
  }

  function EncodeImport(m: Import): seq<byte> {
    OptionalBytes(0x0a, m.fields.importedName) + m.unrecognized
  }

  function EncodeReturnValue(v: ReturnValue): seq<byte> {
    match v
    case NotSet => []
    case ReturnString(text) => BytesChunk(0x0a, text)
    case ReturnInt(n) => NumberChunk(0x10, SignExtend(n))
    case ExceptionMessage(text) => BytesChunk(0x1a, text)
    case NoReturnValue(flag) => NumberChunk(0x20, if flag then 1 else 0)
  }

  function EncodeResponse(m: Response): seq<byte> {
    EncodeReturnValue(m.fields.returnValue) + m.unrecognized
  }

  // ---- One chunk is one record -----------------------------------------------------------------------

  lemma {:induction false} TagByte(tag: byte, rest: seq<byte>)
    requires 8 <= tag < 128
    ensures ReadVarint([tag] + rest, 0) == Ok((tag, 1)) && FieldNumber(tag) == tag / 8
  {
    var s := [tag] + rest;
    assert s[0..1] == [tag] && [tag][1..] == [];
    assert Groups([tag]) == tag;
  }

  lemma {:induction false} BytesChunkDecodes<K>(schema: Schema<K>, m: Message<K>, tag: byte, content: seq<byte>, f: K)
    requires 8 <= tag < 128 && tag % 8 == 2 && schema.kind(tag / 8).Bytes?
    requires |BytesChunk(tag, content)| <= MAX_INT
    requires schema.apply(m.fields, BytesRecord(tag / 8, content)) == Ok(f)
    ensures Decode(schema, m, BytesChunk(tag, content), 0) == Ok(m.(fields := f))
  {
    hide ReadVarint, Skip, FieldNumber, VarintBytes;
    var s := BytesChunk(tag, content);
    var length := VarintBytes(|content|);
    assert s == [tag] + (length + content);
    TagByte(tag, length + content);
    VarintRoundTrip(|content|, [tag], content);
    assert s[1 + |length|..|s|] == content;
    assert Decode(schema, m.(fields := f), s, |s|) == Ok(m.(fields := f));
  }

  lemma {:induction false} NumberChunkDecodes<K>(schema: Schema<K>, m: Message<K>, tag: byte, v: uint64, f: K)
    requires 8 <= tag < 128 && tag % 8 == 0 && schema.kind(tag / 8).Number?
    requires schema.apply(m.fields, NumberRecord(tag / 8, v)) == Ok(f)
    ensures Decode(schema, m, NumberChunk(tag, v), 0) == Ok(m.(fields := f))
  {
    hide ReadVarint, Skip, FieldNumber, VarintBytes;
    var s := NumberChunk(tag, v);
    TagByte(tag, VarintBytes(v));
    VarintRoundTrip(v, [tag], []);
    assert [tag] + VarintBytes(v) + [] == s;
    assert Decode(schema, m.(fields := f), s, |s|) == Ok(m.(fields := f));
  }

  lemma NothingDecodes<K>(schema: Schema<K>, m: Message<K>)
    ensures Decode(schema, m, [], 0) == Ok(m)
  {
  }

  /** The unknown fields close every encoding. */
  lemma {:induction false} TailDecodes<K>(schema: Schema<K>, s: seq<byte>, f: K, empty: Message<K>, u: seq<byte>)
    requires Decode(schema, empty, s, 0) == Ok(Message(f, [])) && |s + u| <= MAX_INT
    requires WholeUnknown(schema.kind, u, 0)
    ensures Decode(schema, empty, s + u, 0) == Ok(Message(f, u))
  {
    hide Decode, WholeUnknown;
    DecodeUnknown(schema, Message(f, []), u, 0);
    assert [] + u[0..] == u;
    DecodeThen(schema, empty, s, Message(f, []), u, Message(f, u));
  }

  // ---- Round trips -------------------------------------------------------------------------------------

  lemma {:induction false} TypeChunkDecodes(t: int32)
    ensures Decode(ARGUMENT, NO_ARGUMENT, EncodeType(t), 0) == Ok(Message(ArgumentFields(t, NoValue, []), []))
  {
    hide Decode, NumberChunk;
    Int32RoundTrip(t);
    if t != 0 {
      NumberChunkDecodes(ARGUMENT, NO_ARGUMENT, 0x08, SignExtend(t), ArgumentFields(t, NoValue, []));
    } else {
      NothingDecodes(ARGUMENT, NO_ARGUMENT);
    }
  }

  lemma {:induction false} ValueChunkDecodes(t: int32, v: ArgumentValue)
    requires |EncodeValue(v)| <= MAX_INT
    ensures Decode(ARGUMENT, Message(ArgumentFields(t, NoValue, []), []), EncodeValue(v), 0)
            == Ok(Message(ArgumentFields(t, v, []), []))
  {
    hide Decode, NumberChunk, BytesChunk;
    var m := Message(ArgumentFields(t, NoValue, []), []);
    match v
    case NoValue => NothingDecodes(ARGUMENT, m);
    case StringValue(text) =>
      BytesChunkDecodes(ARGUMENT, m, 0x12, text, ArgumentFields(t, v, []));
    case IntValue(n) =>
      Int32RoundTrip(n);
      NumberChunkDecodes(ARGUMENT, m, 0x18, SignExtend(n), ArgumentFields(t, v, []));
  }

  lemma {:induction false} KeyChunkDecodes(t: int32, v: ArgumentValue, key: seq<byte>)
    requires |OptionalBytes(0x22, key)| <= MAX_INT
    ensures Decode(ARGUMENT, Message(ArgumentFields(t, v, []), []), OptionalBytes(0x22, key), 0)
            == Ok(Message(ArgumentFields(t, v, key), []))
  {
    hide Decode, BytesChunk;
    var m := Message(ArgumentFields(t, v, []), []);
    if |key| > 0 {
      BytesChunkDecodes(ARGUMENT, m, 0x22, key, ArgumentFields(t, v, key));
    } else {
      NothingDecodes(ARGUMENT, m);
    }
  }

  /** An argument is decoded from its type, its value, its key and whole unknown fields, however the numbers in
      the first two are written. */
  lemma {:induction false} ArgumentFrom(m: Argument, a: seq<byte>, b: seq<byte>)
    requires WholeUnknown(ArgumentKind, m.unrecognized, 0)
    requires |a + b + OptionalBytes(0x22, m.fields.key) + m.unrecognized| <= MAX_INT
    requires Decode(ARGUMENT, NO_ARGUMENT, a, 0) == Ok(Message(ArgumentFields(m.fields.argType, NoValue, []), []))
    requires Decode(ARGUMENT, Message(ArgumentFields(m.fields.argType, NoValue, []), []), b, 0)
             == Ok(Message(ArgumentFields(m.fields.argType, m.fields.value, []), []))
    ensures DecodeArgument(NO_ARGUMENT, a + b + OptionalBytes(0x22, m.fields.key) + m.unrecognized) == Ok(m)
  {
    hide Decode, WholeUnknown, OptionalBytes;
    var f := m.fields;
    var c := OptionalBytes(0x22, f.key);
    KeyChunkDecodes(f.argType, f.value, f.key);
    DecodeThen(ARGUMENT, NO_ARGUMENT, a, Message(ArgumentFields(f.argType, NoValue, []), []),
               b, Message(ArgumentFields(f.argType, f.value, []), []));
    DecodeThen(ARGUMENT, NO_ARGUMENT, a + b, Message(ArgumentFields(f.argType, f.value, []), []),
               c, Message(f, []));
    TailDecodes(ARGUMENT, a + b + c, f, NO_ARGUMENT, m.unrecognized);
  }

  /** Decoding what was encoded gives the argument back: any oneof case, any int32, unknown fields. */
  lemma {:induction false} ArgumentRoundTrip(m: Argument)
    requires WholeUnknown(ArgumentKind, m.unrecognized, 0) && |EncodeArgument(m)| <= MAX_INT
    ensures DecodeArgument(NO_ARGUMENT, EncodeArgument(m)) == Ok(m)
  {
    hide Decode, WholeUnknown, EncodeType, EncodeValue, OptionalBytes;
    TypeChunkDecodes(m.fields.argType);
    ValueChunkDecodes(m.fields.argType, m.fields.value);
    ArgumentFrom(m, EncodeType(m.fields.argType), EncodeValue(m.fields.value));
  }

  predicate WholeArguments(args: seq<Argument>) {
    forall k :: 0 <= k < |args| ==> WholeUnknown(ArgumentKind, args[k].unrecognized, 0)
  }

  /** Records of field 3, one for each content. */
  function ArgumentChunks(contents: seq<seq<byte>>): seq<byte> {
    if contents == [] then []
    else ArgumentChunks(contents[..|contents| - 1]) + BytesChunk(0x1a, contents[|contents| - 1])
  }

  function Contents(args: seq<Argument>): (contents: seq<seq<byte>>)
    ensures |contents| == |args| && forall k :: 0 <= k < |args| ==> contents[k] == EncodeArgument(args[k])
  {
    seq(|args|, k requires 0 <= k < |args| => EncodeArgument(args[k]))
  }

  lemma {:induction false} ArgsAreChunks(args: seq<Argument>)
    ensures EncodeArgs(args) == ArgumentChunks(Contents(args))
  {
    hide EncodeArgument, BytesChunk;
    if args == [] {
    } else {
      var n := |args| - 1;
      ArgsAreChunks(args[..n]);
      assert Contents(args)[..n] == Contents(args[..n]);
    }
  }

  /** Arguments are decoded from any contents that decode to them. */
  lemma {:induction false} ChunksDecode(f: RequestFields, args: seq<Argument>, contents: seq<seq<byte>>)
    requires |contents| == |args| && |ArgumentChunks(contents)| <= MAX_INT && f.args == []
    requires forall k :: 0 <= k < |args| ==> DecodeArgument(NO_ARGUMENT, contents[k]) == Ok(args[k])
    ensures Decode(REQUEST, Message(f, []), ArgumentChunks(contents), 0) == Ok(Message(f.(args := args), []))
    decreases |args|
  {
    hide Decode;
    if args == [] {
      NothingDecodes(REQUEST, Message(f, []));
    } else {
      var n := |args| - 1;
      var front := args[..n];
      ChunksDecode(f, front, contents[..n]);
      assert front + [args[n]] == args;
      var g := f.(args := front);
      BytesChunkDecodes(REQUEST, Message(g, []), 0x1a, contents[n], g.(args := g.args + [args[n]]));
      hide BytesChunk;
      DecodeThen(REQUEST, Message(f, []), ArgumentChunks(contents[..n]), Message(g, []),
                 BytesChunk(0x1a, contents[n]), Message(f.(args := args), []));
    }
  }

  lemma {:induction false} ArgsDecode(f: RequestFields, args: seq<Argument>)
    requires WholeArguments(args) && |EncodeArgs(args)| <= MAX_INT && f.args == []
    ensures Decode(REQUEST, Message(f, []), EncodeArgs(args), 0) == Ok(Message(f.(args := args), []))
  {
    hide Decode, WholeUnknown, EncodeArgument;
    ArgsAreChunks(args);
    forall k | 0 <= k < |args|
      ensures DecodeArgument(NO_ARGUMENT, Contents(args)[k]) == Ok(args[k])
    {
      ChunkIsShorter(Contents(args), k);
      ArgumentRoundTrip(args[k]);
    }
    ChunksDecode(f, args, Contents(args));
  }

  lemma {:induction false} ChunkIsShorter(contents: seq<seq<byte>>, k: nat)
    requires k < |contents|
    ensures |contents[k]| <= |ArgumentChunks(contents)|
    decreases |contents|
  {
    if k == |contents| - 1 {
    } else {
      ChunkIsShorter(contents[..|contents| - 1], k);
    }
  }

  lemma {:induction false} StringChunkDecodes(f: RequestFields, tag: byte, c: seq<byte>, g: RequestFields)
    requires tag == 0x0a || tag == 0x12 || tag == 0x3a
    requires g == if tag == 0x0a then f.(methodName := c)
                  else if tag == 0x12 then f.(objectID := c) else f.(assignedID := c)
    requires |c| == 0 ==> g == f
    requires |OptionalBytes(tag, c)| <= MAX_INT
    ensures Decode(REQUEST, Message(f, []), OptionalBytes(tag, c), 0) == Ok(Message(g, []))
  {
    hide Decode, BytesChunk;
    if |c| > 0 {
      BytesChunkDecodes(REQUEST, Message(f, []), tag, c, g);
    } else {
      NothingDecodes(REQUEST, Message(f, []));
    }
  }

  lemma {:induction false} BoolChunkDecodes(f: RequestFields, tag: byte, b: bool, g: RequestFields)
    requires tag == 0x20 || tag == 0x28 || tag == 0x30
    requires g == if tag == 0x20 then f.(isStatic := b)
                  else if tag == 0x28 then f.(doGetReturnValue := b) else f.(property := b)
    requires !b ==> g == f
    ensures Decode(REQUEST, Message(f, []), OptionalBool(tag, b), 0) == Ok(Message(g, []))
  {
    hide Decode, NumberChunk;
    if b {
      NumberChunkDecodes(REQUEST, Message(f, []), tag, 1, g);
    } else {
      NothingDecodes(REQUEST, Message(f, []));
    }
  }

  /** A request whose unknown bytes, its own and its arguments', are whole fields it does not declare. */
  predicate WholeRequest(m: Request) {
    WholeUnknown(RequestKind, m.unrecognized, 0) && WholeArguments(m.fields.args)
  }

  /** A request around any bytes that decode to its arguments. */
  function RequestAround(m: Request, args: seq<byte>): seq<byte> {
    OptionalBytes(0x0a, m.fields.methodName) + OptionalBytes(0x12, m.fields.objectID) + args
    + OptionalBool(0x20, m.fields.isStatic) + OptionalBool(0x28, m.fields.doGetReturnValue)
    + OptionalBool(0x30, m.fields.property) + OptionalBytes(0x3a, m.fields.assignedID)
    + m.unrecognized
  }

  lemma {:induction false} RequestFrom(m: Request, c3: seq<byte>)
    requires WholeUnknown(RequestKind, m.unrecognized, 0) && |RequestAround(m, c3)| <= MAX_INT
    requires forall f: RequestFields :: f.args == [] ==>
               Decode(REQUEST, Message(f, []), c3, 0) == Ok(Message(f.(args := m.fields.args), []))
    ensures DecodeRequest(NO_REQUEST, RequestAround(m, c3)) == Ok(m)
  {
    hide Decode, WholeUnknown, OptionalBytes, OptionalBool;
    var f := m.fields;
    var e := NO_REQUEST.fields;
    var f1 := e.(methodName := f.methodName);
    var f2 := f1.(objectID := f.objectID);
    var f3 := f2.(args := f.args);
    var f4 := f3.(isStatic := f.isStatic);
    var f5 := f4.(doGetReturnValue := f.doGetReturnValue);
    var f6 := f5.(property := f.property);
    var c1, c2 := OptionalBytes(0x0a, f.methodName), OptionalBytes(0x12, f.objectID);
    var c4, c5 := OptionalBool(0x20, f.isStatic), OptionalBool(0x28, f.doGetReturnValue);
    var c6 := OptionalBool(0x30, f.property);
    var c7 := OptionalBytes(0x3a, f.assignedID);
    StringChunkDecodes(e, 0x0a, f.methodName, f1);
    StringChunkDecodes(f1, 0x12, f.objectID, f2);
    BoolChunkDecodes(f3, 0x20, f.isStatic, f4);
    BoolChunkDecodes(f4, 0x28, f.doGetReturnValue, f5);
    BoolChunkDecodes(f5, 0x30, f.property, f6);
    StringChunkDecodes(f6, 0x3a, f.assignedID, f);
    DecodeThen(REQUEST, NO_REQUEST, c1, Message(f1, []), c2, Message(f2, []));
    DecodeThen(REQUEST, NO_REQUEST, c1 + c2, Message(f2, []), c3, Message(f3, []));
    DecodeThen(REQUEST, NO_REQUEST, c1 + c2 + c3, Message(f3, []), c4, Message(f4, []));
    DecodeThen(REQUEST, NO_REQUEST, c1 + c2 + c3 + c4, Message(f4, []), c5, Message(f5, []));
    DecodeThen(REQUEST, NO_REQUEST, c1 + c2 + c3 + c4 + c5, Message(f5, []), c6, Message(f6, []));
    DecodeThen(REQUEST, NO_REQUEST, c1 + c2 + c3 + c4 + c5 + c6, Message(f6, []), c7, Message(f, []));
    TailDecodes(REQUEST, c1 + c2 + c3 + c4 + c5 + c6 + c7, f, NO_REQUEST, m.unrecognized);
  }

  lemma {:induction false} RequestRoundTrip(m: Request)
    requires WholeRequest(m) && |EncodeRequest(m)| <= MAX_INT
    ensures DecodeRequest(NO_REQUEST, EncodeRequest(m)) == Ok(m)
  {
    hide Decode, WholeUnknown, EncodeArgs, OptionalBytes, OptionalBool;
    forall f: RequestFields | f.args == []
      ensures Decode(REQUEST, Message(f, []), EncodeArgs(m.fields.args), 0)
              == Ok(Message(f.(args := m.fields.args), []))
    {
      ArgsDecode(f, m.fields.args);
    }
    RequestFrom(m, EncodeArgs(m.fields.args));
  }

  lemma {:induction false} ImportRoundTrip(m: Import)
    requires WholeUnknown(ImportKind, m.unrecognized, 0) && |EncodeImport(m)| <= MAX_INT
    ensures DecodeImport(NO_IMPORT, EncodeImport(m)) == Ok(m)
  {
    hide Decode, WholeUnknown, BytesChunk;
    var name := m.fields.importedName;
    if |name| > 0 {
      BytesChunkDecodes(IMPORT, NO_IMPORT, 0x0a, name, m.fields);
    } else {
      NothingDecodes(IMPORT, NO_IMPORT);
    }
    TailDecodes(IMPORT, OptionalBytes(0x0a, name), m.fields, NO_IMPORT, m.unrecognized);
  }

  lemma {:induction false} ResponseRoundTrip(m: Response)
    requires WholeUnknown(ResponseKind, m.unrecognized, 0) && |EncodeResponse(m)| <= MAX_INT
    ensures DecodeResponse(NO_RESPONSE, EncodeResponse(m)) == Ok(m)
  {
    hide Decode, WholeUnknown, BytesChunk, NumberChunk;
    match m.fields.returnValue {
      case NotSet =>
        NothingDecodes(RESPONSE, NO_RESPONSE);
      case ReturnString(text) =>
        BytesChunkDecodes(RESPONSE, NO_RESPONSE, 0x0a, text, m.fields);
      case ReturnInt(n) =>
        Int32RoundTrip(n);
        NumberChunkDecodes(RESPONSE, NO_RESPONSE, 0x10, SignExtend(n), m.fields);
      case ExceptionMessage(text) =>
        BytesChunkDecodes(RESPONSE, NO_RESPONSE, 0x1a, text, m.fields);
      case NoReturnValue(flag) =>
        NumberChunkDecodes(RESPONSE, NO_RESPONSE, 0x20, if flag then 1 else 0, m.fields);
    }
    TailDecodes(RESPONSE, EncodeReturnValue(m.fields.returnValue), m.fields, NO_RESPONSE, m.unrecognized);
  }

  /** Distinct requests have distinct encodings. */
  lemma {:induction false} EncodeInjective(m: Request, n: Request)
    requires WholeRequest(m) && WholeRequest(n) && |EncodeRequest(m)| <= MAX_INT
    requires EncodeRequest(m) == EncodeRequest(n)
    ensures m == n
  {
    hide DecodeRequest, EncodeRequest, WholeRequest;
    RequestRoundTrip(m);
    RequestRoundTrip(n);
  }

  // ---- Whatever was decoded can be encoded and decoded again -----------------------------------------

  lemma {:induction false} DecodedArgumentIsWhole(s: seq<byte>)
    requires |s| <= MAX_INT && DecodeArgument(NO_ARGUMENT, s).Ok?
    ensures WholeUnknown(ArgumentKind, DecodeArgument(NO_ARGUMENT, s).value.unrecognized, 0)
  {
    hide Decode;
    KeptIsWhole(ARGUMENT, NO_ARGUMENT, s, 0);
  }

  lemma {:induction false} DecodedArgumentsAreWhole(m: Request, s: seq<byte>, i: nat)
    requires i <= |s| <= MAX_INT && WholeArguments(m.fields.args) && Decode(REQUEST, m, s, i).Ok?
    ensures WholeArguments(Decode(REQUEST, m, s, i).value.fields.args)
    decreases |s| - i
  {
    hide ReadVarint, Skip, FieldNumber, WholeUnknown, DecodeArgument;
    if i >= |s| {
    } else {
      var (rec, j) := ReadRecord(RequestKind, s, i).value;
      if rec.BytesRecord? && rec.field == 3 {
        ContentWithin(RequestKind, s, i);
        DecodedArgumentIsWhole(rec.content);
      }
      DecodedArgumentsAreWhole(Apply(REQUEST, m, rec).value, s, j);
    }
  }

  lemma {:induction false} ContentWithin(kind: int32 -> Kind, s: seq<byte>, i: nat)
    requires i < |s| && ReadRecord(kind, s, i).Ok? && ReadRecord(kind, s, i).value.0.BytesRecord?
    ensures |ReadRecord(kind, s, i).value.0.content| <= |s|
  {
    hide ReadVarint, Skip, FieldNumber;
  }

  /** Decoding is stable: any input that decodes, however redundantly it was written, decodes to a request
      that survives encoding and decoding unchanged. */
  lemma {:induction false} DecodeEncodeDecode(s: seq<byte>)
    requires |s| <= MAX_INT && DecodeRequest(NO_REQUEST, s).Ok?
    requires |EncodeRequest(DecodeRequest(NO_REQUEST, s).value)| <= MAX_INT
    ensures var m := DecodeRequest(NO_REQUEST, s).value;
            DecodeRequest(NO_REQUEST, EncodeRequest(m)) == Ok(m)
  {
    hide Decode, EncodeRequest, WholeUnknown;
    KeptIsWhole(REQUEST, NO_REQUEST, s, 0) by {
      assert WholeUnknown(RequestKind, [], 0) by {
        NoneIsWhole(RequestKind);
      }
    }
    DecodedArgumentsAreWhole(NO_REQUEST, s, 0);
    RequestRoundTrip(DecodeRequest(NO_REQUEST, s).value);
  }

  lemma NoneIsWhole(kind: int32 -> Kind)
    ensures WholeUnknown(kind, [], 0)
  {
  }

  // ---- What a decoded request holds --------------------------------------------------------------------

  /** The content of the last length-delimited record of a field, if there is one. */
  function LastBytes(recs: seq<Record>, field: int32, default: seq<byte>): seq<byte> {
    if recs == [] then default
    else
      var last := recs[|recs| - 1];
      if last.BytesRecord? && last.field == field then last.content
      else LastBytes(recs[..|recs| - 1], field, default)
  }

  function LastBool(recs: seq<Record>, field: int32, default: bool): bool {
    if recs == [] then default
    else
      var last := recs[|recs| - 1];
      if last.NumberRecord? && last.field == field then last.value != 0
      else LastBool(recs[..|recs| - 1], field, default)
  }

  /** The contents of all records of field 3, in order. */
  function ArgumentContents(recs: seq<Record>): seq<seq<byte>> {
    if recs == [] then []
    else
      var last := recs[|recs| - 1];
      ArgumentContents(recs[..|recs| - 1])
      + if last.BytesRecord? && last.field == 3 then [last.content] else []
  }

  lemma {:induction false} ApplyAllSnoc<K>(schema: Schema<K>, m: Message<K>, recs: seq<Record>, last: Record)
    ensures ApplyAll(schema, m, recs + [last])
            == match ApplyAll(schema, m, recs) case Ok(n) => Apply(schema, n, last) case Err(e) => Err(e)
    decreases |recs|
  {
    hide Apply;
    if recs == [] {
      assert ([] + [last])[0] == last && ([] + [last])[1..] == [];
      match Apply(schema, m, last) {
        case Ok(n) => assert ApplyAll(schema, n, []) == Ok(n);
        case Err(_) =>
      }
    } else {
      assert (recs + [last])[0] == recs[0] && (recs + [last])[1..] == recs[1..] + [last];
      match Apply(schema, m, recs[0]) {
        case Ok(n) => ApplyAllSnoc(schema, n, recs[1..], last);
        case Err(_) =>
      }
    }
  }

  /** Scalars hold the last value written, arguments are appended one per record, each decoded from its own
      bytes alone. */
  ghost predicate Holds(m: Request, recs: seq<Record>, r: Request) {
    && r.fields.methodName == LastBytes(recs, 1, m.fields.methodName)
    && r.fields.objectID == LastBytes(recs, 2, m.fields.objectID)
    && r.fields.assignedID == LastBytes(recs, 7, m.fields.assignedID)
    && r.fields.isStatic == LastBool(recs, 4, m.fields.isStatic)
    && r.fields.doGetReturnValue == LastBool(recs, 5, m.fields.doGetReturnValue)
    && r.fields.property == LastBool(recs, 6, m.fields.property)
    && var contents := ArgumentContents(recs);
       && |r.fields.args| == |m.fields.args| + |contents|
       && r.fields.args[..|m.fields.args|] == m.fields.args
       && forall k :: 0 <= k < |contents| ==>
            DecodeArgument(NO_ARGUMENT, contents[k]) == Ok(r.fields.args[|m.fields.args| + k])
  }

  lemma NothingApplied<K>(schema: Schema<K>, m: Message<K>)
    ensures ApplyAll(schema, m, []) == Ok(m)
  {
  }

  lemma {:induction false} AppliedHolds(m: Request, recs: seq<Record>)
    requires ApplyAll(REQUEST, m, recs).Ok?
    ensures Holds(m, recs, ApplyAll(REQUEST, m, recs).value)
    decreases |recs|
  {
    hide DecodeArgument, ApplyAll;
    if recs == [] {
      NothingApplied(REQUEST, m);
    } else {
      var front, last := recs[..|recs| - 1], recs[|recs| - 1];
      assert recs == front + [last];
      ApplyAllSnoc(REQUEST, m, front, last);
      AppliedHolds(m, front);
    }
  }

  /** Applying records fails only on an argument whose own bytes do not decode. */
  lemma {:induction false} AppliesExactly(m: Request, recs: seq<Record>)
    ensures ApplyAll(REQUEST, m, recs).Ok? <==>
            forall c :: c in ArgumentContents(recs) ==> DecodeArgument(NO_ARGUMENT, c).Ok?
    decreases |recs|
  {
    hide DecodeArgument, ApplyAll;
    if recs == [] {
      NothingApplied(REQUEST, m);
    } else {
      var front, last := recs[..|recs| - 1], recs[|recs| - 1];
      assert recs == front + [last];
      ApplyAllSnoc(REQUEST, m, front, last);
      AppliesExactly(m, front);
      if last.BytesRecord? && last.field == 3 {
        assert ArgumentContents(recs) == ArgumentContents(front) + [last.content];
      } else {
        assert ArgumentContents(recs) == ArgumentContents(front);
      }
    }
  }

  /** A request decodes exactly when its bytes are a sequence of records and every argument among them
      decodes, whatever it is decoded onto. */
  lemma {:induction false} DecodesExactly(m: Request, s: seq<byte>)
    ensures DecodeRequest(m, s).Ok? <==>
            && RecordsFrom(RequestKind, s, 0).Ok?
            && forall c :: c in ArgumentContents(RecordsFrom(RequestKind, s, 0).value) ==>
                 DecodeArgument(NO_ARGUMENT, c).Ok?
  {
    hide Decode, RecordsFrom, ApplyAll, ArgumentContents, DecodeArgument;
    DecodeIsApplyAll(REQUEST, m, s, 0);
    if RecordsFrom(RequestKind, s, 0).Ok? {
      AppliesExactly(m, RecordsFrom(RequestKind, s, 0).value);
    }
  }

  /** "Last One Wins", in terms of the records of the input; unknown fields are appended as they stand. */
  lemma {:induction false} DecodedRequestHolds(m: Request, s: seq<byte>)
    requires DecodeRequest(m, s).Ok?
    ensures RecordsFrom(RequestKind, s, 0).Ok?
    ensures Holds(m, RecordsFrom(RequestKind, s, 0).value, DecodeRequest(m, s).value)
    ensures DecodeRequest(m, s).value.unrecognized == m.unrecognized + UnknownBytes(RequestKind, s)
  {
    hide Decode, RecordsFrom, ApplyAll, Holds, UnknownBytes;
    DecodeIsApplyAll(REQUEST, m, s, 0);
    AppliedHolds(m, RecordsFrom(RequestKind, s, 0).value);
    UnknownKept(REQUEST, m, s, 0);
    assert s[0..] == s;
  }

  // ---- What the other decoded messages hold ------------------------------------------------------------

  /** Any record that is read of a declared field is of the declared kind. */
  predicate Declared(kind: int32 -> Kind, recs: seq<Record>) {
    forall r :: r in recs ==>
      && (r.BytesRecord? ==> kind(r.field).Bytes?) && (r.NumberRecord? ==> kind(r.field).Number?)
  }

  lemma {:induction false} RecordsDeclared(kind: int32 -> Kind, s: seq<byte>, i: nat)
    requires RecordsFrom(kind, s, i).Ok?
    ensures Declared(kind, RecordsFrom(kind, s, i).value)
    decreases if i <= |s| then |s| - i else 0
  {
    hide ReadVarint, ReadBytes, ReadRaw, FieldNumber;
    if i >= |s| {
    } else {
      RecordsDeclared(kind, s, ReadRecord(kind, s, i).value.1);
    }
  }

  /** The last record of one of these fields. */
  function LastOf(recs: seq<Record>, fields: set<int32>): Option<Record> {
    if recs == [] then None
    else
      var last := recs[|recs| - 1];
      if !last.UnknownRecord? && last.field in fields then Some(last) else LastOf(recs[..|recs| - 1], fields)
  }

  /** The name is the last one there is. */
  ghost predicate ImportHolds(m: Import, recs: seq<Record>, r: Import) {
    r.fields.importedName == match LastOf(recs, {1})
                             case Some(BytesRecord(_, c)) => c
                             case _ => m.fields.importedName
  }

  /** The last declared record decides the case: field 1 is a string, 2 a number, 3 an exception, 4 a flag. */
  ghost predicate ResponseHolds(m: Response, recs: seq<Record>, r: Response) {
    match LastOf(recs, {1, 2, 3, 4})
    case Some(BytesRecord(field, c)) =>
      || (field == 1 && r.fields.returnValue == ReturnString(c))
      || (field == 3 && r.fields.returnValue == ExceptionMessage(c))
    case Some(NumberRecord(field, v)) =>
      || (field == 2 && r.fields.returnValue == ReturnInt(ToInt32(v)))
      || (field == 4 && r.fields.returnValue == NoReturnValue(v != 0))
    case _ => LastOf(recs, {1, 2, 3, 4}) == None && r.fields.returnValue == m.fields.returnValue
  }

  /** The type is the last of field 1, the key of field 4; of a string, field 2, and a number, field 3, the later
      is the value. */
  ghost predicate ArgumentHolds(m: Argument, recs: seq<Record>, r: Argument) {
    && (match LastOf(recs, {1})
        case Some(NumberRecord(_, v)) => r.fields.argType == ToInt32(v)
        case _ => r.fields.argType == m.fields.argType && LastOf(recs, {1}) == None)
    && (match LastOf(recs, {4})
        case Some(BytesRecord(_, c)) => r.fields.key == c
        case _ => r.fields.key == m.fields.key && LastOf(recs, {4}) == None)
    && (match LastOf(recs, {2, 3})
        case Some(BytesRecord(field, c)) => field == 2 && r.fields.value == StringValue(c)
        case Some(NumberRecord(field, v)) => field == 3 && r.fields.value == IntValue(ToInt32(v))
        case _ => r.fields.value == m.fields.value && LastOf(recs, {2, 3}) == None)
  }

  lemma {:induction false} AppliedImport(m: Import, recs: seq<Record>)
    requires ApplyAll(IMPORT, m, recs).Ok? && Declared(ImportKind, recs)
    ensures ImportHolds(m, recs, ApplyAll(IMPORT, m, recs).value)
    decreases |recs|
  {
    hide ApplyAll;
    if recs == [] {
      NothingApplied(IMPORT, m);
    } else {
      var front, last := recs[..|recs| - 1], recs[|recs| - 1];
      assert recs == front + [last];
      ApplyAllSnoc(IMPORT, m, front, last);
      AppliedImport(m, front);
    }
  }

  lemma {:induction false} AppliedResponse(m: Response, recs: seq<Record>)
    requires ApplyAll(RESPONSE, m, recs).Ok? && Declared(ResponseKind, recs)
    ensures ResponseHolds(m, recs, ApplyAll(RESPONSE, m, recs).value)
    decreases |recs|
  {
    hide ApplyAll, ToInt32;
    if recs == [] {
      NothingApplied(RESPONSE, m);
    } else {
      var front, last := recs[..|recs| - 1], recs[|recs| - 1];
      assert recs == front + [last];
      ApplyAllSnoc(RESPONSE, m, front, last);
      AppliedResponse(m, front);
    }
  }

  lemma {:induction false} AppliedArgument(m: Argument, recs: seq<Record>)
    requires ApplyAll(ARGUMENT, m, recs).Ok? && Declared(ArgumentKind, recs)
    ensures ArgumentHolds(m, recs, ApplyAll(ARGUMENT, m, recs).value)
    decreases |recs|
  {
    hide ApplyAll, ToInt32;
    if recs == [] {
      NothingApplied(ARGUMENT, m);
    } else {
      var front, last := recs[..|recs| - 1], recs[|recs| - 1];
      assert recs == front + [last];
      ApplyAllSnoc(ARGUMENT, m, front, last);
      AppliedArgument(m, front);
    }
  }

  /** What an import request holds after decoding, whatever it held before. */
  lemma {:induction false} DecodedImportHolds(m: Import, s: seq<byte>)
    requires DecodeImport(m, s).Ok?
    ensures RecordsFrom(ImportKind, s, 0).Ok?
    ensures ImportHolds(m, RecordsFrom(ImportKind, s, 0).value, DecodeImport(m, s).value)
    ensures DecodeImport(m, s).value.unrecognized == m.unrecognized + UnknownBytes(ImportKind, s)
  {
    hide Decode, RecordsFrom, ApplyAll, ImportHolds, Declared, UnknownBytes;
    DecodeIsApplyAll(IMPORT, m, s, 0);
    RecordsDeclared(ImportKind, s, 0);
    AppliedImport(m, RecordsFrom(ImportKind, s, 0).value);
    UnknownKept(IMPORT, m, s, 0);
    assert s[0..] == s;
  }

  lemma {:induction false} DecodedResponseHolds(m: Response, s: seq<byte>)
    requires DecodeResponse(m, s).Ok?
    ensures RecordsFrom(ResponseKind, s, 0).Ok?
    ensures ResponseHolds(m, RecordsFrom(ResponseKind, s, 0).value, DecodeResponse(m, s).value)
    ensures DecodeResponse(m, s).value.unrecognized == m.unrecognized + UnknownBytes(ResponseKind, s)
  {
    hide Decode, RecordsFrom, ApplyAll, ResponseHolds, Declared, UnknownBytes;
    DecodeIsApplyAll(RESPONSE, m, s, 0);
    RecordsDeclared(ResponseKind, s, 0);
    AppliedResponse(m, RecordsFrom(ResponseKind, s, 0).value);
    UnknownKept(RESPONSE, m, s, 0);
    assert s[0..] == s;
  }

  lemma {:induction false} DecodedArgumentHolds(m: Argument, s: seq<byte>)
    requires DecodeArgument(m, s).Ok?
    ensures RecordsFrom(ArgumentKind, s, 0).Ok?
    ensures ArgumentHolds(m, RecordsFrom(ArgumentKind, s, 0).value, DecodeArgument(m, s).value)
    ensures DecodeArgument(m, s).value.unrecognized == m.unrecognized + UnknownBytes(ArgumentKind, s)
  {
    hide Decode, RecordsFrom, ApplyAll, ArgumentHolds, Declared, UnknownBytes;
    DecodeIsApplyAll(ARGUMENT, m, s, 0);
    RecordsDeclared(ArgumentKind, s, 0);
    AppliedArgument(m, RecordsFrom(ArgumentKind, s, 0).value);
    UnknownKept(ARGUMENT, m, s, 0);
    assert s[0..] == s;
  }

  predicate EndsWith(s: seq<byte>, tail: seq<byte>) {
    |tail| <= |s| && s[|s| - |tail|..] == tail
  }

  /** Decode, then encode: the unknown fields of the input close the output verbatim, and inside each
      argument those of its own bytes do. */
  lemma {:induction false} UnknownSurvives(s: seq<byte>)
    requires |s| <= MAX_INT && DecodeRequest(NO_REQUEST, s).Ok?
    ensures RecordsFrom(RequestKind, s, 0).Ok?
    ensures var m := DecodeRequest(NO_REQUEST, s).value;
            var contents := ArgumentContents(RecordsFrom(RequestKind, s, 0).value);
            && EndsWith(EncodeRequest(m), UnknownBytes(RequestKind, s))
            && |m.fields.args| == |contents|
            && forall k :: 0 <= k < |contents| ==>
                 EndsWith(EncodeArgument(m.fields.args[k]), UnknownBytes(ArgumentKind, contents[k]))
  {
    hide Decode, RecordsFrom, UnknownBytes, EncodeArgs, EncodeType, EncodeValue, OptionalBytes, OptionalBool;
    DecodedRequestHolds(NO_REQUEST, s);
    var m := DecodeRequest(NO_REQUEST, s).value;
    var contents := ArgumentContents(RecordsFrom(RequestKind, s, 0).value);
    assert [] + UnknownBytes(RequestKind, s) == UnknownBytes(RequestKind, s);
    var f := m.fields;
    var known := OptionalBytes(0x0a, f.methodName) + OptionalBytes(0x12, f.objectID) + EncodeArgs(f.args)
      + OptionalBool(0x20, f.isStatic) + OptionalBool(0x28, f.doGetReturnValue) + OptionalBool(0x30, f.property)
      + OptionalBytes(0x3a, f.assignedID);
    assert EncodeRequest(m) == known + UnknownBytes(RequestKind, s);
    forall k | 0 <= k < |contents|
      ensures EndsWith(EncodeArgument(f.args[k]), UnknownBytes(ArgumentKind, contents[k]))
    {
      var a := f.args[k];
      assert DecodeArgument(NO_ARGUMENT, contents[k]) == Ok(a);
      UnknownKept(ARGUMENT, NO_ARGUMENT, contents[k], 0);
      assert contents[k][0..] == contents[k];
      assert [] + UnknownBytes(ArgumentKind, contents[k]) == UnknownBytes(ArgumentKind, contents[k]);
      var front := EncodeType(a.fields.argType) + EncodeValue(a.fields.value) + OptionalBytes(0x22, a.fields.key);
      assert EncodeArgument(a) == front + UnknownBytes(ArgumentKind, contents[k]);
    }
  }
}
