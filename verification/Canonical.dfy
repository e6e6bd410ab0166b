/** What the encoder of golang-receiver/exchange/exchange.pb.go chooses among all inputs that decode to the same
    message: which records it writes, in which order, and how short it is. */
module Canonical {
  import opened Wire
  import opened Skipping
  import opened Records
  import opened Messages

  // ---- The records that are written ----------------------------------------------------------------------

  /** A message type whose fields are the declared records themselves, in the order of their coming. */
  function Collect(kind: int32 -> Kind): Schema<seq<Record>> {
    Schema(kind, (recs, rec) => Ok(recs + [rec]), (recs, _) => recs, (recs, _) => recs)
  }

  function Known(recs: seq<Record>): seq<Record> {
    if recs == [] then []
    else (if recs[0].UnknownRecord? then [] else [recs[0]]) + Known(recs[1..])
  }

  lemma {:induction false} Collected(kind: int32 -> Kind, m: Message<seq<Record>>, s: seq<byte>, i: nat)
    requires Decode(Collect(kind), m, s, i).Ok?
    ensures RecordsFrom(kind, s, i).Ok?
    ensures Decode(Collect(kind), m, s, i).value.fields == m.fields + Known(RecordsFrom(kind, s, i).value)
    decreases if i <= |s| then |s| - i else 0
  {
    hide ReadRecord;
    if i >= |s| {
      assert m.fields + [] == m.fields;
    } else {
      var (rec, j) := ReadRecord(kind, s, i).value;
      var next := Apply(Collect(kind), m, rec).value;
      Collected(kind, next, s, j);
      var rest := RecordsFrom(kind, s, j).value;
      assert ([rec] + rest)[0] == rec && ([rec] + rest)[1..] == rest;
      assert [] + Known(rest) == Known(rest);
      Regroup(m.fields, [rec], Known(rest));
    }
  }

  /** At most one record, of a field that does not hold its default value. */
  function BytesIfAny(field: int32, c: seq<byte>): seq<Record> {
    if c == [] then [] else [BytesRecord(field, c)]
  }

  function OneIf(field: int32, b: bool): seq<Record> {
    if b then [NumberRecord(field, 1)] else []
  }

  function ArgumentRecords(contents: seq<seq<byte>>): (recs: seq<Record>)
    ensures |recs| == |contents| && forall k :: 0 <= k < |recs| ==> recs[k] == BytesRecord(3, contents[k])
  {
    seq(|contents|, k requires 0 <= k < |contents| => BytesRecord(3, contents[k]))
  }

  /** The records of a request, by ascending field number. */
  function RequestRecords(f: RequestFields): seq<Record> {
    BytesIfAny(1, f.methodName) + BytesIfAny(2, f.objectID) + ArgumentRecords(Contents(f.args))
    + OneIf(4, f.isStatic) + OneIf(5, f.doGetReturnValue) + OneIf(6, f.property)
    + BytesIfAny(7, f.assignedID)
  }

  lemma {:induction false} BytesCollected(kind: int32 -> Kind, recs: seq<Record>, tag: byte, c: seq<byte>)
    requires 8 <= tag < 128 && tag % 8 == 2 && kind(tag / 8).Bytes? && |OptionalBytes(tag, c)| <= MAX_INT
    ensures Decode(Collect(kind), Message(recs, []), OptionalBytes(tag, c), 0)
            == Ok(Message(recs + BytesIfAny(tag / 8, c), []))
  {
    hide Decode, BytesChunk;
    if |c| > 0 {
      BytesChunkDecodes(Collect(kind), Message(recs, []), tag, c, recs + [BytesRecord(tag / 8, c)]);
    } else {
      NothingDecodes(Collect(kind), Message(recs, []));
      assert recs + [] == recs;
    }
  }

  lemma {:induction false} BoolCollected(kind: int32 -> Kind, recs: seq<Record>, tag: byte, b: bool)
    requires 8 <= tag < 128 && tag % 8 == 0 && kind(tag / 8).Number?
    ensures Decode(Collect(kind), Message(recs, []), OptionalBool(tag, b), 0)
            == Ok(Message(recs + OneIf(tag / 8, b), []))
  {
    hide Decode, NumberChunk;
    if b {
      NumberChunkDecodes(Collect(kind), Message(recs, []), tag, 1, recs + [NumberRecord(tag / 8, 1)]);
    } else {
      NothingDecodes(Collect(kind), Message(recs, []));
      assert recs + [] == recs;
    }
  }

  lemma {:induction false} ChunksCollected(recs: seq<Record>, contents: seq<seq<byte>>)
    requires |ArgumentChunks(contents)| <= MAX_INT
    ensures Decode(Collect(RequestKind), Message(recs, []), ArgumentChunks(contents), 0)
            == Ok(Message(recs + ArgumentRecords(contents), []))
    decreases |contents|
  {
    hide Decode;
    var schema := Collect(RequestKind);
    if contents == [] {
      NothingDecodes(schema, Message(recs, []));
      assert recs + [] == recs;
    } else {
      var n := |contents| - 1;
      var front, last := contents[..n], contents[n];
      ChunksCollected(recs, front);
      var before := recs + ArgumentRecords(front);
      BytesChunkDecodes(schema, Message(before, []), 0x1a, last, before + [BytesRecord(3, last)]);
      assert before + [BytesRecord(3, last)] == recs + ArgumentRecords(contents);
      hide BytesChunk, Collect, ArgumentRecords;
      DecodeThen(schema, Message(recs, []), ArgumentChunks(front), Message(before, []), BytesChunk(0x1a, last),
                 Message(recs + ArgumentRecords(contents), []));
    }
  }

  /** What the decoder reads of an encoded request: a record for each field that does not hold its default value,
      one for each argument, and the undeclared fields. */
  lemma {:induction false} RequestCollected(m: Request)
    requires WholeUnknown(RequestKind, m.unrecognized, 0) && |EncodeRequest(m)| <= MAX_INT
    ensures Decode(Collect(RequestKind), Message([], []), EncodeRequest(m), 0)
            == Ok(Message(RequestRecords(m.fields), m.unrecognized))
  {
    var f, schema := m.fields, Collect(RequestKind);
    ArgsAreChunks(f.args);
    hide Decode, WholeUnknown, OptionalBytes, OptionalBool, EncodeArgs, ArgumentChunks, BytesIfAny, OneIf,
         ArgumentRecords, Contents;
    var c1, c2, c3 := OptionalBytes(0x0a, f.methodName), OptionalBytes(0x12, f.objectID), EncodeArgs(f.args);
    var c4, c5 := OptionalBool(0x20, f.isStatic), OptionalBool(0x28, f.doGetReturnValue);
    var c6, c7 := OptionalBool(0x30, f.property), OptionalBytes(0x3a, f.assignedID);
    var none: seq<Record> := [];
    var r1 := BytesIfAny(1, f.methodName);
    var r2 := r1 + BytesIfAny(2, f.objectID);
    var r3 := r2 + ArgumentRecords(Contents(f.args));
    var r4 := r3 + OneIf(4, f.isStatic);
    var r5 := r4 + OneIf(5, f.doGetReturnValue);
    var r6 := r5 + OneIf(6, f.property);
    var r7 := r6 + BytesIfAny(7, f.assignedID);
    assert none + r1 == r1;
    BytesCollected(RequestKind, none, 0x0a, f.methodName);
    BytesCollected(RequestKind, r1, 0x12, f.objectID);
    ChunksCollected(r2, Contents(f.args));
    BoolCollected(RequestKind, r3, 0x20, f.isStatic);
    BoolCollected(RequestKind, r4, 0x28, f.doGetReturnValue);
    BoolCollected(RequestKind, r5, 0x30, f.property);
    BytesCollected(RequestKind, r6, 0x3a, f.assignedID);
    assert schema.kind == RequestKind;
    hide Collect;
    var start := Message(none, []);
    DecodeThen(schema, start, c1, Message(r1, []), c2, Message(r2, []));
    DecodeThen(schema, start, c1 + c2, Message(r2, []), c3, Message(r3, []));
    DecodeThen(schema, start, c1 + c2 + c3, Message(r3, []), c4, Message(r4, []));
    DecodeThen(schema, start, c1 + c2 + c3 + c4, Message(r4, []), c5, Message(r5, []));
    DecodeThen(schema, start, c1 + c2 + c3 + c4 + c5, Message(r5, []), c6, Message(r6, []));
    DecodeThen(schema, start, c1 + c2 + c3 + c4 + c5 + c6, Message(r6, []), c7, Message(r7, []));
    TailDecodes(schema, c1 + c2 + c3 + c4 + c5 + c6 + c7, r7, start, m.unrecognized);
  }

  /** Field numbers between `lo` and `hi`, ascending, and none of them twice but that of the arguments. */
  predicate InOrder(recs: seq<Record>, lo: int, hi: int) {
    && (forall r :: r in recs ==> !r.UnknownRecord? && lo <= r.field <= hi)
    && (forall i, j :: 0 <= i < j < |recs| ==>
          recs[i].field < recs[j].field || recs[i].field == recs[j].field == 3)
  }

  /** No record but an argument says what would hold without it. */
  predicate NoDefaults(recs: seq<Record>) {
    forall r :: r in recs ==>
      && (r.BytesRecord? && r.field != 3 ==> r.content != [])
      && (r.NumberRecord? ==> r.value != 0)
  }

  predicate Tidy(recs: seq<Record>, lo: int, hi: int) {
    InOrder(recs, lo, hi) && NoDefaults(recs)
  }

  lemma JoinTidy(a: seq<Record>, b: seq<Record>, lo: int, mid: int, hi: int)
    requires Tidy(a, lo, mid - 1) && Tidy(b, mid, hi) && lo <= mid <= hi
    ensures Tidy(a + b, lo, hi)
  {
  }

  lemma PartsTidy(field: int32, c: seq<byte>, b: bool, contents: seq<seq<byte>>)
    ensures Tidy(BytesIfAny(field, c), field, field) && Tidy(OneIf(field, b), field, field)
    ensures Tidy(ArgumentRecords(contents), 3, 3)
  {
  }

  lemma {:induction false} JoinAll(r1: seq<Record>, r2: seq<Record>, r3: seq<Record>, r4: seq<Record>,
                                   r5: seq<Record>, r6: seq<Record>, r7: seq<Record>)
    requires Tidy(r1, 1, 1) && Tidy(r2, 2, 2) && Tidy(r3, 3, 3) && Tidy(r4, 4, 4) && Tidy(r5, 5, 5)
    requires Tidy(r6, 6, 6) && Tidy(r7, 7, 7)
    ensures Tidy(r1 + r2 + r3 + r4 + r5 + r6 + r7, 1, 7)
  {
    hide Tidy;
    JoinTidy(r1, r2, 1, 2, 2);
    JoinTidy(r1 + r2, r3, 1, 3, 3);
    JoinTidy(r1 + r2 + r3, r4, 1, 4, 4);
    JoinTidy(r1 + r2 + r3 + r4, r5, 1, 5, 5);
    JoinTidy(r1 + r2 + r3 + r4 + r5, r6, 1, 6, 6);
    JoinTidy(r1 + r2 + r3 + r4 + r5 + r6, r7, 1, 7, 7);
  }

  lemma {:induction false} RequestRecordsInOrder(f: RequestFields)
    ensures Tidy(RequestRecords(f), 1, 7)
  {
    hide Tidy, BytesIfAny, OneIf, ArgumentRecords, Contents;
    PartsTidy(1, f.methodName, false, []);
    PartsTidy(2, f.objectID, false, Contents(f.args));
    PartsTidy(4, [], f.isStatic, []);
    PartsTidy(5, [], f.doGetReturnValue, []);
    PartsTidy(6, [], f.property, []);
    PartsTidy(7, f.assignedID, false, []);
    JoinAll(BytesIfAny(1, f.methodName), BytesIfAny(2, f.objectID), ArgumentRecords(Contents(f.args)),
            OneIf(4, f.isStatic), OneIf(5, f.doGetReturnValue), OneIf(6, f.property), BytesIfAny(7, f.assignedID));
  }

  /** An encoded request is records in ascending order of their fields, one for each argument and at most one for
      any other field, with no default value among these; and then its undeclared fields. */
  lemma {:induction false} EncodedInOrder(m: Request)
    requires WholeUnknown(RequestKind, m.unrecognized, 0) && |EncodeRequest(m)| <= MAX_INT
    ensures RecordsFrom(RequestKind, EncodeRequest(m), 0).Ok?
    ensures var recs := Known(RecordsFrom(RequestKind, EncodeRequest(m), 0).value);
      recs == RequestRecords(m.fields) && InOrder(recs, 1, 7) && NoDefaults(recs)
    ensures UnknownBytes(RequestKind, EncodeRequest(m)) == m.unrecognized
  {
    hide EncodeRequest, Decode, RecordsFrom, RequestRecords, InOrder, NoDefaults, Known, UnknownBytes;
    RequestCollected(m);
    RequestRecordsInOrder(m.fields);
    var none: seq<Record> := [];
    var s := EncodeRequest(m);
    Collected(RequestKind, Message(none, []), s, 0);
    assert none + Known(RecordsFrom(RequestKind, s, 0).value) == Known(RecordsFrom(RequestKind, s, 0).value);
    UnknownKept(Collect(RequestKind), Message(none, []), s, 0);
    assert s[0..] == s && [] + UnknownBytes(RequestKind, s) == UnknownBytes(RequestKind, s);
  }

  // ---- How short it is ---------------------------------------------------------------------------------------

  lemma {:induction false} SovMonotone(a: nat, b: nat)
    requires a <= b
    ensures 1 <= Sov(a) <= Sov(b)
  {
    if b < 128 {
    } else {
      SovMonotone(a / 128, b / 128);
    }
  }

  function BytesLength(n: nat): nat {
    1 + Sov(n) + n
  }

  /** The least that a record can take. */
  function RecordLength(rec: Record): nat {
    match rec
    case BytesRecord(_, c) => BytesLength(|c|)
    case NumberRecord(_, v) => 1 + Sov(v)
    case UnknownRecord(raw) => |raw|
  }

  lemma {:induction false} VarintLength(s: seq<byte>, i: nat)
    requires ReadVarint(s, i).Ok?
    ensures var (v, j) := ReadVarint(s, i).value; i + Sov(v) <= j
  {
    var (v, j) := ReadVarint(s, i).value;
    TagIs(s, i);
    VarintShortest(s[i..j]);
    ModBelow(Groups(s[i..j]), TWO_64);
    SovMonotone(v, Groups(s[i..j]));
  }

  lemma {:induction false} RecordTakes(kind: int32 -> Kind, s: seq<byte>, i: nat)
    requires i < |s| && ReadRecord(kind, s, i).Ok?
    ensures var (rec, j) := ReadRecord(kind, s, i).value; i + RecordLength(rec) <= j
  {
    var (wire, j) := ReadVarint(s, i).value;
    VarintLength(s, i);
    SovMonotone(0, wire);
    if ReadVarint(s, j).Ok? {
      VarintLength(s, j);
    }
    hide ReadVarint, Skip, FieldNumber, Sov;
  }

  /** An int32 takes no more than its 32 bits need, if it is not sign-extended to 64. */
  function NumberLength(x: int32): nat {
    1 + Sov(x % TWO_32)
  }

  function OptionalLength(c: seq<byte>): nat {
    if c == [] then 0 else BytesLength(|c|)
  }

  function TypeLength(t: int32): nat {
    if t == 0 then 0 else NumberLength(t)
  }

  function ValueLength(v: ArgumentValue): nat {
    match v
    case NoValue => 0
    case StringValue(text) => BytesLength(|text|)
    case IntValue(n) => NumberLength(n)
  }

  /** The least that an argument can take. */
  function ArgumentLength(m: Argument): nat {
    TypeLength(m.fields.argType) + ValueLength(m.fields.value) + OptionalLength(m.fields.key) + |m.unrecognized|
  }

  function ArgumentsLength(args: seq<Argument>): nat {
    if args == [] then 0
    else ArgumentsLength(args[..|args| - 1]) + BytesLength(ArgumentLength(args[|args| - 1]))
  }

  function FlagLength(b: bool): nat {
    if b then 2 else 0
  }

  /** The least that a request can take. */
  function RequestLength(m: Request): nat {
    OptionalLength(m.fields.methodName) + OptionalLength(m.fields.objectID) + ArgumentsLength(m.fields.args)
    + FlagLength(m.fields.isStatic) + FlagLength(m.fields.doGetReturnValue) + FlagLength(m.fields.property)
    + OptionalLength(m.fields.assignedID) + |m.unrecognized|
  }

  lemma {:induction false} BytesLengthMonotone(a: nat, b: nat)
    requires a <= b
    ensures BytesLength(a) <= BytesLength(b) && (a < b ==> BytesLength(a) < BytesLength(b))
  {
    SovMonotone(a, b);
  }

  lemma {:induction false} NumberFits(v: uint64)
    ensures NumberLength(ToInt32(v)) <= 1 + Sov(v)
  {
    ModBelow(v, TWO_32);
    assert ToInt32(v) % TWO_32 == v % TWO_32;
    SovMonotone(v % TWO_32, v);
  }

  /** No record adds more to an argument than it takes itself. */
  lemma {:induction false} ArgumentStep(m: Argument, rec: Record)
    requires Apply(ARGUMENT, m, rec).Ok?
    ensures ArgumentLength(Apply(ARGUMENT, m, rec).value) <= ArgumentLength(m) + RecordLength(rec)
  {
    if rec.NumberRecord? {
      NumberFits(rec.value);
    }
    hide Sov, ToInt32, NumberLength;
  }

  lemma {:induction false} ArgumentTakes(m: Argument, s: seq<byte>, i: nat)
    requires Decode(ARGUMENT, m, s, i).Ok? && i <= |s|
    ensures ArgumentLength(Decode(ARGUMENT, m, s, i).value) <= ArgumentLength(m) + |s| - i
    decreases |s| - i
  {
    hide ReadRecord, Apply, ArgumentLength, RecordLength;
    if i >= |s| {
    } else {
      var (rec, j) := ReadRecord(ArgumentKind, s, i).value;
      RecordTakes(ArgumentKind, s, i);
      ArgumentStep(m, rec);
      ArgumentTakes(Apply(ARGUMENT, m, rec).value, s, j);
    }
  }

  lemma NothingTakes()
    ensures ArgumentLength(NO_ARGUMENT) == 0 && RequestLength(NO_REQUEST) == 0
  {
  }

  lemma OptionalFits(c: seq<byte>)
    ensures OptionalLength(c) <= BytesLength(|c|)
  {
  }

  lemma {:induction false} RequestStep(m: Request, rec: Record)
    requires Apply(REQUEST, m, rec).Ok?
    ensures RequestLength(Apply(REQUEST, m, rec).value) <= RequestLength(m) + RecordLength(rec)
  {
    hide DecodeArgument, Sov, BytesLength, OptionalLength, ArgumentsLength;
    match rec {
      case NumberRecord(_, v) => SovMonotone(0, v);
      case BytesRecord(field, c) =>
        OptionalFits(c);
        if field == 3 {
          OneMoreTakes(m.fields.args, c);
        }
      case UnknownRecord(_) =>
    }
  }

  lemma {:induction false} OneMoreTakes(args: seq<Argument>, c: seq<byte>)
    requires DecodeArgument(NO_ARGUMENT, c).Ok?
    ensures ArgumentsLength(args + [DecodeArgument(NO_ARGUMENT, c).value]) <= ArgumentsLength(args) + BytesLength(|c|)
  {
    var arg := DecodeArgument(NO_ARGUMENT, c).value;
    ArgumentTakes(NO_ARGUMENT, c, 0);
    NothingTakes();
    BytesLengthMonotone(ArgumentLength(arg), |c|);
    assert (args + [arg])[..|args|] == args;
    hide Decode, ArgumentLength, BytesLength;
  }

  /** No input that decodes to a request is shorter than that. */
  lemma {:induction false} RequestTakes(m: Request, s: seq<byte>, i: nat)
    requires Decode(REQUEST, m, s, i).Ok? && i <= |s|
    ensures RequestLength(Decode(REQUEST, m, s, i).value) <= RequestLength(m) + |s| - i
    decreases |s| - i
  {
    hide ReadRecord, Apply, RequestLength, RecordLength;
    if i >= |s| {
    } else {
      var (rec, j) := ReadRecord(RequestKind, s, i).value;
      RecordTakes(RequestKind, s, i);
      RequestStep(m, rec);
      RequestTakes(Apply(REQUEST, m, rec).value, s, j);
    }
  }

  // ---- What the encoder takes ----------------------------------------------------------------------------

  /** A negative number is written in ten bytes, where five would do. */
  predicate NonNegative(m: Argument) {
    m.fields.argType >= 0 && (m.fields.value.IntValue? ==> m.fields.value.number >= 0)
  }

  lemma {:induction false} ChunkLengths(tag: byte, c: seq<byte>, v: uint64)
    ensures |BytesChunk(tag, c)| == BytesLength(|c|) && |NumberChunk(tag, v)| == 1 + Sov(v)
  {
    VarintBytesMeaning(|c|);
    VarintBytesMeaning(v);
  }

  lemma {:induction false} ExtendedTakes(x: int32)
    ensures NumberLength(x) <= 1 + Sov(SignExtend(x))
    ensures NumberLength(x) == 1 + Sov(SignExtend(x)) <==> x >= 0
  {
    Int32RoundTrip(x);
    if x < 0 {
      Pow128Five();
      hide Pow128;
      VarintBytesShape(x % TWO_32, 5);
      VarintBytesMeaning(x % TWO_32);
    }
    hide Sov;
  }

  lemma Pow128Five()
    ensures TWO_32 <= Pow128(5)
  {
    assert Pow128(2) == 128 * Pow128(1) && Pow128(1) == 128 * Pow128(0);
    assert Pow128(4) == 128 * Pow128(3) && Pow128(3) == 128 * Pow128(2);
  }

  lemma {:induction false} EncodedArgumentTakes(m: Argument)
    ensures ArgumentLength(m) <= |EncodeArgument(m)|
    ensures ArgumentLength(m) == |EncodeArgument(m)| <==> NonNegative(m)
  {
    var f := m.fields;
    ExtendedTakes(f.argType);
    ChunkLengths(0x08, f.key, SignExtend(f.argType));
    ChunkLengths(0x22, f.key, 0);
    match f.value {
      case NoValue =>
      case StringValue(text) => ChunkLengths(0x12, text, 0);
      case IntValue(n) =>
        ExtendedTakes(n);
        ChunkLengths(0x18, [], SignExtend(n));
    }
    hide Sov, BytesChunk, NumberChunk, NumberLength, BytesLength, SignExtend;
  }

  lemma {:induction false} EncodedArgumentsTake(args: seq<Argument>)
    ensures ArgumentsLength(args) <= |EncodeArgs(args)|
    ensures ArgumentsLength(args) == |EncodeArgs(args)| <==> forall a :: a in args ==> NonNegative(a)
  {
    hide NonNegative, ArgumentLength, EncodeArgument, BytesChunk, BytesLength;
    if args == [] {
    } else {
      var front, last := args[..|args| - 1], args[|args| - 1];
      EncodedArgumentsTake(front);
      EncodedArgumentTakes(last);
      ChunkLengths(0x1a, EncodeArgument(last), 0);
      BytesLengthMonotone(ArgumentLength(last), |EncodeArgument(last)|);
      assert args == front + [last];
    }
  }

  lemma {:induction false} OptionalLengths(c: seq<byte>, b: bool)
    ensures forall tag: byte :: |OptionalBytes(tag, c)| == OptionalLength(c)
    ensures forall tag: byte :: |OptionalBool(tag, b)| == FlagLength(b)
  {
    forall tag: byte
      ensures |OptionalBytes(tag, c)| == OptionalLength(c) && |OptionalBool(tag, b)| == FlagLength(b)
    {
      ChunkLengths(tag, c, 1);
    }
  }

  lemma {:induction false} AroundTakes(m: Request, args: seq<byte>)
    ensures |RequestAround(m, args)| == RequestLength(m) - ArgumentsLength(m.fields.args) + |args|
  {
    OptionalLengths(m.fields.methodName, m.fields.isStatic);
    OptionalLengths(m.fields.objectID, m.fields.doGetReturnValue);
    OptionalLengths(m.fields.assignedID, m.fields.property);
    hide OptionalBytes, OptionalBool, OptionalLength, FlagLength, ArgumentsLength;
  }

  // ---- The shortest encoding -----------------------------------------------------------------------------------

  /** The same argument, with its numbers in the 32 bits they need. */
  function CompactArgument(m: Argument): seq<byte> {
    CompactType(m.fields.argType) + CompactValue(m.fields.value) + OptionalBytes(0x22, m.fields.key)
    + m.unrecognized
  }

  function CompactType(t: int32): seq<byte> {
    if t != 0 then NumberChunk(0x08, t % TWO_32) else []
  }

  function CompactValue(v: ArgumentValue): seq<byte> {
    match v
    case IntValue(n) => NumberChunk(0x18, n % TWO_32)
    case _ => EncodeValue(v)
  }

  lemma {:induction false} CompactTakes(m: Argument)
    ensures |CompactArgument(m)| == ArgumentLength(m)
  {
    var f := m.fields;
    OptionalLengths(f.key, false);
    ChunkLengths(0x08, [], f.argType % TWO_32);
    match f.value {
      case NoValue =>
      case StringValue(text) => ChunkLengths(0x12, text, 0);
      case IntValue(n) => ChunkLengths(0x18, [], n % TWO_32);
    }
    hide Sov, BytesChunk, NumberChunk, BytesLength, OptionalBytes, OptionalLength;
  }

  lemma {:induction false} CompactDecodes(m: Argument)
    requires WholeUnknown(ArgumentKind, m.unrecognized, 0) && |CompactArgument(m)| <= MAX_INT
    ensures DecodeArgument(NO_ARGUMENT, CompactArgument(m)) == Ok(m)
  {
    var t, v := m.fields.argType, m.fields.value;
    hide Decode, WholeUnknown, OptionalBytes, NumberChunk, BytesChunk;
    var typed: Argument := Message(ArgumentFields(t, NoValue, []), []);
    if t != 0 {
      NumberChunkDecodes(ARGUMENT, NO_ARGUMENT, 0x08, t % TWO_32, typed.fields);
    } else {
      NothingDecodes(ARGUMENT, NO_ARGUMENT);
    }
    if v.IntValue? {
      NumberChunkDecodes(ARGUMENT, typed, 0x18, v.number % TWO_32, ArgumentFields(t, v, []));
    } else {
      ValueChunkDecodes(t, v);
    }
    ArgumentFrom(m, CompactType(t), CompactValue(v));
  }

  function CompactContents(args: seq<Argument>): (contents: seq<seq<byte>>)
    ensures |contents| == |args| && forall k :: 0 <= k < |args| ==> contents[k] == CompactArgument(args[k])
  {
    seq(|args|, k requires 0 <= k < |args| => CompactArgument(args[k]))
  }

  lemma {:induction false} CompactContentsTake(args: seq<Argument>)
    ensures |ArgumentChunks(CompactContents(args))| == ArgumentsLength(args)
  {
    hide CompactArgument, BytesChunk, BytesLength, ArgumentLength;
    if args == [] {
    } else {
      var n := |args| - 1;
      CompactContentsTake(args[..n]);
      assert CompactContents(args)[..n] == CompactContents(args[..n]);
      CompactTakes(args[n]);
      ChunkLengths(0x1a, CompactArgument(args[n]), 0);
    }
  }

  /** There is an input as short as can be. */
  lemma {:induction false} ShortestDecodes(m: Request) returns (s: seq<byte>)
    requires WholeRequest(m) && RequestLength(m) <= MAX_INT
    ensures |s| == RequestLength(m) && DecodeRequest(NO_REQUEST, s) == Ok(m)
  {
    hide Decode, WholeUnknown, CompactArgument, RequestAround;
    var args := m.fields.args;
    var chunks := ArgumentChunks(CompactContents(args));
    CompactContentsTake(args);
    AroundTakes(m, chunks);
    s := RequestAround(m, chunks);
    PartsAreShorter(m);
    hide RequestLength;
    forall k | 0 <= k < |args|
      ensures DecodeArgument(NO_ARGUMENT, CompactContents(args)[k]) == Ok(args[k])
    {
      ChunkIsShorter(CompactContents(args), k);
      CompactDecodes(args[k]);
    }
    forall f: RequestFields | f.args == []
      ensures Decode(REQUEST, Message(f, []), chunks, 0) == Ok(Message(f.(args := args), []))
    {
      ChunksDecode(f, args, CompactContents(args));
    }
    RequestFrom(m, chunks);
  }

  lemma PartsAreShorter(m: Request)
    ensures ArgumentsLength(m.fields.args) <= RequestLength(m)
  {
  }

  /** Among the inputs that decode to a request none is shorter than the one that is written, exactly if no
      argument holds a negative number. */
  lemma {:induction false} ShortestExactly(m: Request)
    requires WholeRequest(m) && |EncodeRequest(m)| <= MAX_INT
    ensures (forall s :: DecodeRequest(NO_REQUEST, s) == Ok(m) ==> |EncodeRequest(m)| <= |s|)
            <==> forall a :: a in m.fields.args ==> NonNegative(a)
  {
    assert EncodeRequest(m) == RequestAround(m, EncodeArgs(m.fields.args));
    AroundTakes(m, EncodeArgs(m.fields.args));
    EncodedArgumentsTake(m.fields.args);
    hide Decode, WholeRequest, EncodeRequest, RequestAround, RequestLength, NonNegative, EncodeArgs, ArgumentsLength;
    NothingTakes();
    forall s | DecodeRequest(NO_REQUEST, s) == Ok(m)
      ensures RequestLength(m) <= |s|
    {
      RequestTakes(NO_REQUEST, s, 0);
    }
    var shortest := ShortestDecodes(m);
  }

  // ---- Bytes on the wire -----------------------------------------------------------------------------------

  lemma {:induction false} ShortChunk(tag: byte, c: seq<byte>, v: byte)
    ensures |c| < 128 ==> BytesChunk(tag, c) == [tag, |c|] + c
    ensures v < 128 ==> NumberChunk(tag, v) == [tag, v]
  {
  }

  /** The bytes of a short response: a string is field 1, a number 2, an exception 3 and a flag 4. */
  lemma {:induction false} ResponseBytes(c: seq<byte>, n: byte)
    requires |c| < 128 && n < 128
    ensures EncodeResponse(Message(ResponseFields(ReturnString(c)), [])) == [0x0a, |c|] + c
    ensures EncodeResponse(Message(ResponseFields(ReturnInt(n)), [])) == [0x10, n]
    ensures EncodeResponse(Message(ResponseFields(ExceptionMessage(c)), [])) == [0x1a, |c|] + c
    ensures EncodeResponse(Message(ResponseFields(NoReturnValue(true)), [])) == [0x20, 1]
    ensures EncodeResponse(Message(ResponseFields(NoReturnValue(false)), [])) == [0x20, 0]
  {
    ShortChunk(0x0a, c, 0);
    ShortChunk(0x1a, c, 0);
    ShortChunk(0x10, [], n);
    ShortChunk(0x20, [], 1);
    ShortChunk(0x20, [], 0);
    hide BytesChunk, NumberChunk;
  }

  /** An argument of type 1 with the number 5 and a key of one byte. */
  lemma {:induction false} ArgumentBytes()
    ensures EncodeArgument(Message(ArgumentFields(1, IntValue(5), [7]), [])) == [0x08, 1, 0x18, 5, 0x22, 1, 7]
  {
    ShortChunk(0x08, [], 1);
    ShortChunk(0x18, [], 5);
    ShortChunk(0x22, [7], 0);
    hide BytesChunk, NumberChunk;
  }

  lemma {:induction false} ArgumentsBytes(argument: Argument)
    requires argument == Message(ArgumentFields(1, IntValue(5), [7]), [])
    ensures EncodeArgs([argument]) == [0x1a, 7, 0x08, 1, 0x18, 5, 0x22, 1, 7]
  {
    ArgumentBytes();
    ShortChunk(0x1a, EncodeArgument(argument), 0);
    hide BytesChunk, EncodeArgument;
    assert [argument][..0] == [] && EncodeArgs([]) == [];
  }

  lemma {:induction false} OptionalShort(tag: byte, c: byte)
    ensures OptionalBytes(tag, [c]) == [tag, 1, c] && OptionalBool(tag, true) == [tag, 1]
  {
    ShortChunk(tag, [c], 1);
    hide BytesChunk, NumberChunk;
  }

  /** It stands third in a request with all fields set. */
  lemma {:induction false} RequestBytes(argument: Argument)
    requires argument == Message(ArgumentFields(1, IntValue(5), [7]), [])
    ensures EncodeRequest(Message(RequestFields([65], [66], [argument], true, true, true, [67]), []))
      == [0x0a, 1, 65, 0x12, 1, 66, 0x1a, 7, 0x08, 1, 0x18, 5, 0x22, 1, 7, 0x20, 1, 0x28, 1, 0x30, 1, 0x3a, 1, 67]
  {
    ArgumentsBytes(argument);
    OptionalShort(0x0a, 65);
    OptionalShort(0x12, 66);
    OptionalShort(0x20, 0);
    OptionalShort(0x28, 0);
    OptionalShort(0x30, 0);
    OptionalShort(0x3a, 67);
    hide OptionalBytes, OptionalBool, EncodeArgs;
  }
}
