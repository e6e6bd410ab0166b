/** The message structs of golang-receiver/exchange/exchange.pb.go as objects, with the methods that size,
    write and read them in place. Input slices are sequences, since they are only read; the output slice
    is an array. Each method is proved against the functions of `Messages`. */
module Objects {
  import opened Wire
  import opened Skipping
  import opened Records
  import opened Messages

  // ---- Shared steps of the generated code ------------------------------------------------------------

  /** Go's `copy(dAtA[i:], src)`: as much as fits. */
  method Copy(dAtA: array<byte>, i: nat, src: seq<byte>) returns (n: nat)
    requires i <= dAtA.Length
    modifies dAtA
    ensures n == if |src| <= dAtA.Length - i then |src| else dAtA.Length - i
    ensures Wrote(dAtA[..], old(dAtA[..]), i, src[..n])
  {
    n := if |src| <= dAtA.Length - i then |src| else dAtA.Length - i;
    forall k | 0 <= k < n {
      dAtA[i + k] := src[k];
    }
  }

  // The statements that write one field. Each is told, for its contract only, what the buffer was, where
  // the message started and what has been written since.

  /** The bytes of a string, or the unknown bytes at the end. None is cut off. */
  method PutRaw(dAtA: array<byte>, i: nat, content: seq<byte>,
                ghost was: seq<byte>, ghost lo: nat, ghost done: seq<byte>)
    returns (next: nat)
    requires Wrote(dAtA[..], was, lo, done) && i == lo + |done| && i + |content| <= dAtA.Length
    modifies dAtA
    ensures next == i + |content| && Wrote(dAtA[..], was, lo, done + content)
  {
    hide Wrote;
    ghost var before := dAtA[..];
    var n := Copy(dAtA, i, content);
    assert content[..n] == content;
    WroteMore(was, before, dAtA[..], lo, done, content);
    next := i + n;
  }

  /** A tag and a varint. */
  method PutNumber(dAtA: array<byte>, i: nat, tag: byte, v: uint64,
                   ghost was: seq<byte>, ghost lo: nat, ghost done: seq<byte>)
    returns (next: nat)
    requires Wrote(dAtA[..], was, lo, done) && i == lo + |done| && i + |NumberChunk(tag, v)| <= dAtA.Length
    modifies dAtA
    ensures next == i + |NumberChunk(tag, v)| && Wrote(dAtA[..], was, lo, done + NumberChunk(tag, v))
  {
    VarintRoundTrip(v, [], []);
    hide VarintBytes, Sov;
    ghost var before := dAtA[..];
    dAtA[i] := tag;
    ghost var mid := dAtA[..];
    assert Wrote(mid, before, i, [tag]);
    hide Wrote;
    next := EncodeVarint(dAtA, i + 1, v);
    WroteMore(before, mid, dAtA[..], i, [tag], VarintBytes(v));
    WroteMore(was, before, dAtA[..], lo, done, NumberChunk(tag, v));
  }

  /** A tag, a length and the bytes. */
  method PutBytes(dAtA: array<byte>, i: nat, tag: byte, content: seq<byte>,
                  ghost was: seq<byte>, ghost lo: nat, ghost done: seq<byte>)
    returns (next: nat)
    requires |content| <= MAX_INT
    requires Wrote(dAtA[..], was, lo, done) && i == lo + |done| && i + |BytesChunk(tag, content)| <= dAtA.Length
    modifies dAtA
    ensures next == i + |BytesChunk(tag, content)| && Wrote(dAtA[..], was, lo, done + BytesChunk(tag, content))
  {
    ChunkSize(tag, content);
    hide VarintBytes, Sov, Wrote, BytesChunk, NumberChunk;
    next := PutNumber(dAtA, i, tag, |content|, was, lo, done);
    next := PutRaw(dAtA, next, content, was, lo, done + NumberChunk(tag, |content|));
    assert done + NumberChunk(tag, |content|) + content == done + BytesChunk(tag, content);
  }

  lemma {:induction false} ChunkSize(tag: byte, content: seq<byte>)
    requires |content| <= MAX_INT
    ensures |BytesChunk(tag, content)| == |NumberChunk(tag, |content|)| + |content|
    ensures BytesChunk(tag, content) == NumberChunk(tag, |content|) + content
    ensures |NumberChunk(tag, |content|)| == 1 + |VarintBytes(|content|)|
  {
    hide VarintBytes;
  }

  /** What a string field takes: `1 + l + sovExchange(uint64(l))`, or nothing when empty. */
  method OptionalSize(tag: byte, content: seq<byte>) returns (n: nat)
    requires |content| <= MAX_INT
    ensures n == |OptionalBytes(tag, content)|
  {
    hide VarintBytes;
    n := 0;
    var l := |content|;
    if l > 0 {
      var k := SovLoop(l);
      n := 1 + l + k;
    }
  }

  /** A string field, left out when empty. */
  method PutOptional(dAtA: array<byte>, i: nat, tag: byte, content: seq<byte>,
                     ghost was: seq<byte>, ghost lo: nat, ghost done: seq<byte>)
    returns (next: nat)
    requires |content| <= MAX_INT
    requires Wrote(dAtA[..], was, lo, done) && i == lo + |done| && i + |OptionalBytes(tag, content)| <= dAtA.Length
    modifies dAtA
    ensures next == i + |OptionalBytes(tag, content)|
    ensures Wrote(dAtA[..], was, lo, done + OptionalBytes(tag, content))
  {
    hide BytesChunk, Wrote;
    next := i;
    assert done + [] == done;
    if |content| > 0 {
      next := PutBytes(dAtA, i, tag, content, was, lo, done);
    }
  }

  /** A bool field, left out when false. */
  method PutBool(dAtA: array<byte>, i: nat, tag: byte, b: bool,
                 ghost was: seq<byte>, ghost lo: nat, ghost done: seq<byte>)
    returns (next: nat)
    requires Wrote(dAtA[..], was, lo, done) && i == lo + |done| && i + |OptionalBool(tag, b)| <= dAtA.Length
    modifies dAtA
    ensures next == i + |OptionalBool(tag, b)|
    ensures Wrote(dAtA[..], was, lo, done + OptionalBool(tag, b))
  {
    hide NumberChunk, Wrote;
    next := i;
    assert done + [] == done;
    if b {
      OneByte(tag);
      ghost var before := dAtA[..];
      dAtA[i] := tag;
      dAtA[i + 1] := 1;
      next := i + 2;
      TwoBytes(dAtA[..], before, i, tag);
      WroteMore(was, before, dAtA[..], lo, done, NumberChunk(tag, 1));
    }
  }

  lemma OneByte(tag: byte)
    ensures NumberChunk(tag, 1) == [tag, 1] && NumberChunk(tag, 0) == [tag, 0]
  {
  }

  lemma {:induction false} TwoBytes(now: seq<byte>, was: seq<byte>, i: nat, tag: byte)
    requires i + 2 <= |was| && now == was[i := tag][i + 1 := 1]
    ensures Wrote(now, was, i, NumberChunk(tag, 1))
  {
    OneByte(tag);
  }

  /** Where the bytes of a string or nested message start and end, with the bounds check that precedes their
      slicing. The sum may wrap: then the end is negative, and passes. */
  method ReadBounds(dAtA: seq<byte>, start: nat) returns (r: Result<(nat, int)>)
    requires |dAtA| <= MAX_INT
    ensures match ReadVarint(dAtA, start)
            case Err(e) => r == Err(e)
            case Ok((v, k)) =>
              var length := ToInt64(v);
              if length < 0 then r == Err(InvalidLength)
              else if k + length > MAX_INT then r == Ok((k, k + length - TWO_64)) && k + length - TWO_64 < 0
              else if k + length > |dAtA| then r == Err(UnexpectedEOF)
              else r == Ok((k, k + length))
  {
    hide Groups, Scan;
    var stringLen, iNdEx, err := ReadVarintLoop(dAtA, start, 64);
    if err.Err? {
      return Err(err.error);
    }
    var intStringLen := ToInt64(stringLen);
    if intStringLen < 0 {
      return Err(InvalidLength);
    }
    var postIndex := AddInt(iNdEx, intStringLen);
    if postIndex > |dAtA| {
      return Err(UnexpectedEOF);
    }
    r := Ok((iNdEx, postIndex));
  }

  method ReadLengthDelimited(dAtA: seq<byte>, start: nat) returns (r: Result<(seq<byte>, nat)>)
    requires |dAtA| <= MAX_INT
    ensures r == ReadBytes(dAtA, start) && (r.Ok? ==> |r.value.0| <= |dAtA|)
  {
    hide ReadVarint;
    var bounds :- ReadBounds(dAtA, start);
    var (iNdEx, postIndex) := bounds;
    if postIndex < iNdEx {
      return Err(Panic);  // slice bounds out of range
    }
    r := Ok((dAtA[iNdEx..postIndex], postIndex));
  }

  /** The default case: skip the field at `preIndex` and keep its bytes. */
  method ReadUnknown(dAtA: seq<byte>, preIndex: nat) returns (r: Result<(seq<byte>, nat)>)
    requires preIndex < |dAtA| <= MAX_INT
    ensures r == ReadRaw(dAtA, preIndex)
  {
    hide Skip;
    var skipped := SkipExchange(dAtA[preIndex..]);
    if skipped.Err? {
      return Err(skipped.error);
    }
    var skippy := skipped.value;
    SkipBound(dAtA[preIndex..]);
    if skippy < 0 {
      return Err(InvalidLength);
    }
    var end := if preIndex + skippy > MAX_INT then preIndex + skippy - TWO_64 else preIndex + skippy;
    if end > |dAtA| {
      return Err(UnexpectedEOF);
    }
    if end < preIndex {
      return Err(Panic);  // slice bounds out of range
    }
    r := Ok((dAtA[preIndex..end], end));
  }

  /** Tag of the next field: number and wire type, with the two checks that precede the switch. */
  method ReadTag(dAtA: seq<byte>, start: nat) returns (r: Result<(int32, nat, nat)>)
    requires start < |dAtA|
    ensures match ReadVarint(dAtA, start)
            case Err(e) => r == Err(e)
            case Ok(t) =>
              if t.0 % 8 == 4 then r == Err(EndGroup)
              else if FieldNumber(t.0) <= 0 then r == Err(IllegalTag)
              else r == Ok((FieldNumber(t.0), t.0 % 8, t.1))
  {
    hide Groups, Scan;
    var wire, iNdEx, err := ReadVarintLoop(dAtA, start, 64);
    if err.Err? {
      return Err(err.error);
    }
    var fieldNum := ToInt32(wire / 8);
    var wireType := wire % 8;
    if wireType == 4 {
      return Err(EndGroup);
    }
    if fieldNum <= 0 {
      return Err(IllegalTag);
    }
    r := Ok((fieldNum, wireType, iNdEx));
  }

  /** A bool or a 64-bit scalar. */
  method ReadNumber(dAtA: seq<byte>, start: nat) returns (r: Result<(uint64, nat)>)
    ensures r == ReadVarint(dAtA, start)
  {
    hide Groups, Scan;
    var v, next, err := ReadVarintLoop(dAtA, start, 64);
    r := if err.Ok? then Ok((v, next)) else Err(err.error);
  }

  /** An int32: the loop runs in a 32-bit variable. */
  method ReadInt32(dAtA: seq<byte>, start: nat) returns (r: Result<(int32, nat)>)
    ensures match ReadVarint(dAtA, start)
            case Ok(p) => r == Ok((ToInt32(p.0), p.1))
            case Err(e) => r == Err(e)
  {
    hide Groups, Scan;
    var v, next, err := ReadVarintLoop(dAtA, start, 32);
    if err.Err? {
      return Err(err.error);
    }
    LowBits(dAtA[start..next]);
    r := Ok((if v >= TWO_31 then v - TWO_32 else v, next));
  }

  /** Keeping 32 bits of the groups is keeping 64 and truncating. */
  lemma {:induction false} LowBits(b: seq<byte>)
    ensures Value(b) % TWO_32 == Groups(b) % TWO_32
  {
    hide Groups;
    var g := Groups(b);
    var q := g / TWO_64;
    assert g == Value(b) + TWO_32 * (TWO_32 * q);
    DropMultiple(g, Value(b), TWO_32 * q);
  }

  lemma DropMultiple(x: nat, y: nat, k: nat)
    requires x == y + TWO_32 * k
    ensures x % TWO_32 == y % TWO_32
  {
  }

  // ---- Argument ------------------------------------------------------------------------------------------

  /** `MethodCallRequest_Argument`. */
  class ArgumentObject {
    var argType: int32
    var value: ArgumentValue
    var key: seq<byte>
    var unrecognized: seq<byte>

    function Value(): Argument
      reads this
    {
      Message(ArgumentFields(argType, value, key), unrecognized)
    }

    constructor ()
      ensures Value() == NO_ARGUMENT
    {
      argType, value, key, unrecognized := 0, NoValue, [], [];
    }

    method Size() returns (n: nat)
      requires |EncodeArgument(Value())| <= MAX_INT
      ensures n == |EncodeArgument(Value())|
    {
      KeyFits(Value());
      hide VarintBytes;
      n := 0;
      if argType != 0 {
        var k := SovLoop(SignExtend(argType));
        n := n + 1 + k;
      }
      match value {
        case NoValue =>
        case StringValue(text) =>
          var k := SovLoop(|text|);
          n := n + 1 + |text| + k;
        case IntValue(number) =>
          var k := SovLoop(SignExtend(number));
          n := n + 1 + k;
      }
      if |key| > 0 {
        var k := SovLoop(|key|);
        n := n + 1 + |key| + k;
      }
      n := n + |unrecognized|;
    }

    /** Writes at `dAtA[lo:]`; `n` is the number of bytes written. */
    method MarshalTo(dAtA: array<byte>, lo: nat) returns (n: nat)
      requires |EncodeArgument(Value())| <= MAX_INT && lo + |EncodeArgument(Value())| <= dAtA.Length
      modifies dAtA
      ensures n == |EncodeArgument(Value())|
      ensures Wrote(dAtA[..], old(dAtA[..]), lo, EncodeArgument(Value()))
    {
      hide EncodeArgument, OptionalBytes, EncodeType, EncodeValue, Wrote;
      KeyFits(Value());
      ghost var was := dAtA[..];
      ghost var a, b, c := EncodeType(argType), EncodeValue(value), OptionalBytes(0x22, key);
      WroteNothing(was, lo);
      var i := PutType(dAtA, lo, argType, was, lo, []);
      assert [] + a == a;
      i := PutValue(dAtA, i, value, was, lo, a);
      i := PutOptional(dAtA, i, 0x22, key, was, lo, a + b);
      i := PutRaw(dAtA, i, unrecognized, was, lo, a + b + c);
      n := i - lo;
    }

    method Marshal() returns (dAtA: array<byte>)
      requires |EncodeArgument(Value())| <= MAX_INT
      ensures fresh(dAtA) && dAtA[..] == EncodeArgument(Value())
    {
      hide EncodeArgument, Wrote;
      var size := Size();
      dAtA := new byte[size];
      ghost var was := dAtA[..];
      var n := MarshalTo(dAtA, 0);
      WroteAll(dAtA[..], was, EncodeArgument(Value()));
    }

    /** The loop for `Type` clears the field and fills it group by group, so that an error leaves it with the
        groups read. */
    method ReadType(dAtA: seq<byte>, start: nat) returns (r: Result<nat>)
      requires start <= |dAtA|
      modifies this`argType
      ensures match ReadVarint(dAtA, start)
              case Ok(p) => r == Ok(p.1) && argType == ToInt32(p.0)
              case Err(e) => r == Err(e) && argType == ToInt32(Groups(dAtA[start..Stops(dAtA, start, 10)]))
    {
      hide Groups, Scan, Stops;
      var v, next, err := ReadVarintLoop(dAtA, start, 32);
      argType := if v >= TWO_31 then v - TWO_32 else v;
      if err.Err? {
        return Err(err.error);
      }
      LowBits(dAtA[start..next]);
      r := Ok(next);
    }

    /** Decodes onto the current value; after an error, the fields before it have been decoded. */
    method Unmarshal(dAtA: seq<byte>) returns (err: Result<()>)
      requires |dAtA| <= MAX_INT
      modifies this
      ensures match DecodeArgument(old(Value()), dAtA)
              case Ok(m) => err == Ok(()) && Value() == m
              case Err(e) => err == Err(e)
      ensures Value() == Reached(ARGUMENT, old(Value()), dAtA, 0)
    {
      hide ReadVarint, ReadBytes, ReadRaw, FieldNumber;
      ghost var start := Value();
      var l := |dAtA|;
      var iNdEx := 0;
      while iNdEx < l
        invariant 0 <= iNdEx <= l
        invariant DecodeArgument(start, dAtA) == Decode(ARGUMENT, Value(), dAtA, iNdEx)
        invariant Reached(ARGUMENT, start, dAtA, 0) == Reached(ARGUMENT, Value(), dAtA, iNdEx)
      {
        var preIndex := iNdEx;
        var tag :- ReadTag(dAtA, iNdEx);
        var (fieldNum, wireType, next) := tag;
        match fieldNum {
          case 1 =>
            if wireType != 0 {
              return Err(WrongWireType(1));
            }
            iNdEx :- ReadType(dAtA, next);
          case 2 =>
            if wireType != 2 {
              return Err(WrongWireType(2));
            }
            var c :- ReadLengthDelimited(dAtA, next);
            value := StringValue(c.0);
            iNdEx := c.1;
          case 3 =>
            if wireType != 0 {
              return Err(WrongWireType(3));
            }
            var v :- ReadInt32(dAtA, next);
            value := IntValue(v.0);
            iNdEx := v.1;
          case 4 =>
            if wireType != 2 {
              return Err(WrongWireType(4));
            }
            var c :- ReadLengthDelimited(dAtA, next);
            key := c.0;
            iNdEx := c.1;
          case _ =>
            var raw :- ReadUnknown(dAtA, preIndex);
            unrecognized := unrecognized + raw.0;
            iNdEx := raw.1;
        }
      }
      return Ok(());
    }
  }

  lemma WroteAll(now: seq<byte>, was: seq<byte>, done: seq<byte>)
    requires Wrote(now, was, 0, done) && |was| == |done|
    ensures now == done
  {
  }

  lemma {:induction false} KeyFits(m: Argument)
    ensures EncodeArgument(m) == EncodeType(m.fields.argType) + EncodeValue(m.fields.value)
                                 + OptionalBytes(0x22, m.fields.key) + m.unrecognized
    ensures |EncodeArgument(m)| == |EncodeType(m.fields.argType)| + |EncodeValue(m.fields.value)|
                                   + |OptionalBytes(0x22, m.fields.key)| + |m.unrecognized|
    ensures |m.fields.key| <= |EncodeArgument(m)|
    ensures m.fields.value.StringValue? ==> |m.fields.value.text| <= |EncodeValue(m.fields.value)|
  {
    hide VarintBytes;
  }

  method PutType(dAtA: array<byte>, i: nat, t: int32, ghost was: seq<byte>, ghost lo: nat, ghost done: seq<byte>)
    returns (next: nat)
    requires Wrote(dAtA[..], was, lo, done) && i == lo + |done| && i + |EncodeType(t)| <= dAtA.Length
    modifies dAtA
    ensures next == i + |EncodeType(t)| && Wrote(dAtA[..], was, lo, done + EncodeType(t))
  {
    hide NumberChunk, Wrote;
    next := i;
    assert done + [] == done;
    if t != 0 {
      next := PutNumber(dAtA, i, 0x08, SignExtend(t), was, lo, done);
    }
  }

  /** `m.Value.MarshalTo`, for either member of the oneof. */
  method PutValue(dAtA: array<byte>, i: nat, v: ArgumentValue,
                  ghost was: seq<byte>, ghost lo: nat, ghost done: seq<byte>)
    returns (next: nat)
    requires v.StringValue? ==> |v.text| <= MAX_INT
    requires Wrote(dAtA[..], was, lo, done) && i == lo + |done| && i + |EncodeValue(v)| <= dAtA.Length
    modifies dAtA
    ensures next == i + |EncodeValue(v)| && Wrote(dAtA[..], was, lo, done + EncodeValue(v))
  {
    hide NumberChunk, BytesChunk, Wrote;
    next := i;
    assert done + [] == done;
    match v {
      case NoValue =>
      case StringValue(text) => next := PutBytes(dAtA, i, 0x12, text, was, lo, done);
      case IntValue(number) => next := PutNumber(dAtA, i, 0x18, SignExtend(number), was, lo, done);
    }
  }
}
