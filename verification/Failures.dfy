/** How decoding fails: when the Go code panics rather than returns an error, and what a failed read leaves in
    the message. */
module Failures {
  import opened Wire
  import opened Skipping
  import opened Records
  import opened Messages

  // ---- Lengths past the largest int ----------------------------------------------------------------------

  /** Read as a length, the varint at `j` declares bytes that would end past the largest int. */
  predicate HugeAt(s: seq<byte>, j: nat) {
    match ReadVarint(s, j)
    case Ok((v, k)) => ToInt64(v) >= 0 && k + ToInt64(v) > MAX_INT
    case Err(_) => false
  }

  /** The field whose tag ends at `j` and that is no group ends past the largest int: one with a declared length,
      or one of fixed width at the very end of the range. */
  predicate FieldOverruns(s: seq<byte>, wireType: nat, j: nat) {
    || (wireType == 2 && HugeAt(s, j))
    || (wireType == 1 && j + 8 > MAX_INT)
    || (wireType == 5 && j + 4 > MAX_INT)
  }

  /** A member that `skipExchange` reaches in the group whose members start at `start` ends past the largest
      int, or is a group with such a member. */
  predicate GroupOverruns(s: seq<byte>, start: nat)
    decreases if start <= |s| then |s| - start else 0
  {
    match ReadVarint(s, start)
    case Err(_) => false
    case Ok((wire, i)) =>
      && wire % 8 != 4
      && (|| FieldOverruns(s, wire % 8, i)
          || (wire % 8 == 3 && GroupOverruns(s[start..], i - start))
          || (match Skip(s[start..])
              case Ok(n) => n >= 1 && start + n <= MAX_INT && GroupOverruns(s, start + n)
              case Err(_) => false))
  }

  /** The tag of a suffix is the tag at its place. */
  lemma {:induction false} SuffixVarint(s: seq<byte>, i: nat, j: nat)
    requires i <= j <= |s|
    ensures match ReadVarint(s, j)
            case Ok((v, k)) => ReadVarint(s[i..], j - i) == Ok((v, k - i))
            case Err(e) => ReadVarint(s[i..], j - i) == Err(e)
    ensures HugeAt(s[i..], j - i) ==> HugeAt(s, j)
  {
    assert s[i..][j - i..] == s[j..];
    VarintMoved(s, j, s[i..], j - i);
    hide Scan, Stops, Value;
  }

  /** `skipExchange` panics on the empty slice and on a group in which it gets to a member that ends past the
      largest int. */
  lemma {:induction false} SkipPanics(s: seq<byte>)
    requires |s| <= MAX_INT
    ensures Skip(s) == Err(Panic) <==>
            || s == []
            || match ReadVarint(s, 0)
               case Ok((wire, i)) => wire % 8 == 3 && GroupOverruns(s, i)
               case Err(_) => false
    decreases |s|, 1
  {
    VarintError(s, 0);
    if ReadVarint(s, 0).Ok? {
      var (wire, i) := ReadVarint(s, 0).value;
      VarintError(s, i);
      hide ReadVarint, Scan, GroupOverruns;
      if wire % 8 == 3 {
        SkipGroupPanics(s, i);
      }
    }
  }

  lemma {:induction false} SkipGroupPanics(s: seq<byte>, start: nat)
    requires |s| <= MAX_INT && start > 0
    ensures SkipGroup(s, start) == Err(Panic) <==> GroupOverruns(s, start)
    decreases if start <= |s| then |s| - start else 0, 2
  {
    hide SkipGroup, GroupOverruns, Skip, ReadVarint, FieldOverruns;
    GroupTurn(s, start);
    VarintError(s, start);
    if ReadVarint(s, start).Ok? && ReadVarint(s, start).value.0 % 8 != 4 {
      var (wire, i) := ReadVarint(s, start).value;
      var member := Skip(s[start..]);
      SuffixVarint(s, start, start);
      SkipPanics(s[start..]);
      if member.Ok? {
        MemberEnd(s, start, wire, i);
        if member.value >= 0 && start + member.value <= MAX_INT {
          SkipGroupPanics(s, start + member.value);
        }
      } else {
        HugeMember(s, start, wire, i);
      }
    }
  }

  /** Both sides of the claim, by one member. */
  lemma {:induction false} GroupTurn(s: seq<byte>, start: nat)
    ensures match ReadVarint(s, start)
      case Err(e) => SkipGroup(s, start) == Err(e) && !GroupOverruns(s, start)
      case Ok((wire, i)) =>
        if wire % 8 == 4 then SkipGroup(s, start) == Ok(i) && !GroupOverruns(s, start)
        else
          var nested := wire % 8 == 3 && GroupOverruns(s[start..], i - start);
          match Skip(s[start..])
          case Err(e) =>
            && SkipGroup(s, start) == Err(e)
            && (GroupOverruns(s, start) <==> FieldOverruns(s, wire % 8, i) || nested)
          case Ok(n) =>
            var more := n >= 1 && start + n <= MAX_INT;
            && (n < 0 || start + n > MAX_INT <==> !more)
            && SkipGroup(s, start) == (if more then SkipGroup(s, start + n) else Err(Panic))
            && (GroupOverruns(s, start) <==>
                  FieldOverruns(s, wire % 8, i) || nested || (more && GroupOverruns(s, start + n)))
  {
    hide ReadVarint, FieldOverruns;
  }

  /** A member with a length or of fixed width is skipped, however far that leads. */
  lemma {:induction false} HugeMember(s: seq<byte>, start: nat, wire: uint64, i: nat)
    requires |s| <= MAX_INT && start < |s| && ReadVarint(s, start) == Ok((wire, i)) && Skip(s[start..]).Err?
    ensures !FieldOverruns(s, wire % 8, i)
  {
    SuffixVarint(s, start, start);
    SuffixVarint(s, start, i);
    hide ReadVarint, Scan, SkipGroup;
  }

  /** Whose end is not an index: only a member with a declared length, but for the last bytes of the range. */
  lemma {:induction false} MemberEnd(s: seq<byte>, start: nat, wire: uint64, i: nat)
    requires |s| <= MAX_INT && start < |s| && ReadVarint(s, start) == Ok((wire, i))
    requires Skip(s[start..]).Ok?
    ensures var n := Skip(s[start..]).value;
      n < 0 || start + n > MAX_INT <==> FieldOverruns(s, wire % 8, i)
  {
    SuffixVarint(s, start, start);
    assert !FieldOverruns(s, 3, i);
    hide ReadVarint, FieldOverruns, SkipPlain, SkipGroup;
    if wire % 8 != 3 {
      PlainEnd(s, start, wire % 8, i);
    }
  }

  lemma {:induction false} PlainEnd(s: seq<byte>, start: nat, wireType: nat, i: nat)
    requires |s| <= MAX_INT && start < i <= start + 10 && i <= |s| && wireType != 3
    requires SkipPlain(s[start..], wireType, i - start).Ok?
    ensures var n := SkipPlain(s[start..], wireType, i - start).value;
      n < 0 || start + n > MAX_INT <==> FieldOverruns(s, wireType, i)
  {
    SuffixVarint(s, start, i);
    hide ReadVarint, Scan;
  }

  // ---- When decoding panics --------------------------------------------------------------------------------

  /** The record at `i` has a declared length, its own or that of a member it is skipped by, whose end is past
      the largest int. A skipped field with a length so large that it does not even fit from the start of the
      field is an error instead. */
  predicate RecordOverruns(kind: int32 -> Kind, s: seq<byte>, i: nat)
    requires i < |s|
  {
    match ReadVarint(s, i)
    case Err(_) => false
    case Ok((wire, j)) =>
      && wire % 8 != 4 && FieldNumber(wire) > 0
      && match kind(FieldNumber(wire))
         case Bytes => wire % 8 == 2 && HugeAt(s, j)
         case Number => false
         case Unknown =>
           || (FieldOverruns(s, wire % 8, j) && !FieldOverruns(s[i..], wire % 8, j - i))
           || (wire % 8 == 3 && GroupOverruns(s[i..], j - i))
  }

  lemma {:induction false} RecordPanics(kind: int32 -> Kind, s: seq<byte>, i: nat)
    requires i < |s| <= MAX_INT
    ensures ReadRecord(kind, s, i) == Err(Panic) <==> RecordOverruns(kind, s, i)
  {
    VarintError(s, i);
    hide ReadRaw, FieldNumber, GroupOverruns, FieldOverruns, ReadVarint;
    if ReadVarint(s, i).Ok? {
      var (wire, j) := ReadVarint(s, i).value;
      VarintError(s, j);
      RawPanics(s, i, wire, j);
    }
  }

  lemma {:induction false} RawPanics(s: seq<byte>, i: nat, wire: uint64, j: nat)
    requires i < |s| <= MAX_INT && ReadVarint(s, i) == Ok((wire, j))
    ensures ReadRaw(s, i) == Err(Panic) <==>
            || (FieldOverruns(s, wire % 8, j) && !FieldOverruns(s[i..], wire % 8, j - i))
            || (wire % 8 == 3 && GroupOverruns(s[i..], j - i))
  {
    var t := s[i..];
    SuffixVarint(s, i, i);
    assert t == t[0..];
    SkipPanics(t);
    if Skip(t).Ok? {
      SkipBound(t);
      MemberEnd(s, i, wire, j);
      MemberEnd(t, 0, wire, j - i);
    } else {
      HugeMember(s, i, wire, j);
    }
    hide ReadVarint, FieldOverruns, GroupOverruns, Skip;
  }

  /** Where decoding panics: behind a part of the input that decodes stands a record that overruns, or one that
      panics as it is applied. */
  predicate PanicsAt<K>(schema: Schema<K>, m: Message<K>, s: seq<byte>, i: nat)
    requires i < |s|
  {
    && Decode(schema, m, s[..i], 0).Ok?
    && (|| RecordOverruns(schema.kind, s, i)
        || (match ReadRecord(schema.kind, s, i)
            case Ok((rec, _)) => Apply(schema, Decode(schema, m, s[..i], 0).value, rec) == Err(Panic)
            case Err(_) => false))
  }

  /** Decoding panics exactly if there is such a place. */
  lemma {:induction false} DecodePanics<K>(schema: Schema<K>, m: Message<K>, s: seq<byte>)
    requires |s| <= MAX_INT
    ensures Decode(schema, m, s, 0) == Err(Panic) <==> exists i | 0 <= i < |s| :: PanicsAt(schema, m, s, i)
  {
    hide Decode, PanicsAt;
    forall i | 0 <= i < |s| && PanicsAt(schema, m, s, i)
      ensures Decode(schema, m, s, 0) == Err(Panic)
    {
      PanicsThere(schema, m, s, i);
    }
    if Decode(schema, m, s, 0) == Err(Panic) {
      Empty(schema, m, s[..0]);
      var i := FindPanic(schema, m, s, 0, m);
    }
  }

  lemma Empty<K>(schema: Schema<K>, m: Message<K>, s: seq<byte>)
    requires s == []
    ensures Decode(schema, m, s, 0) == Ok(m)
  {
  }

  lemma {:induction false} PanicsThere<K>(schema: Schema<K>, m: Message<K>, s: seq<byte>, i: nat)
    requires i < |s| <= MAX_INT && PanicsAt(schema, m, s, i)
    ensures Decode(schema, m, s, 0) == Err(Panic)
  {
    assert s[..i] + s[i..] == s;
    RecordPanics(schema.kind, s, i);
    hide RecordOverruns, ReadRecord, Apply;
    DecodePrefix(schema, m, s[..i], 0, s[i..]);
  }

  lemma {:induction false} FindPanic<K>(schema: Schema<K>, m: Message<K>, s: seq<byte>, k: nat, now: Message<K>)
    returns (i: nat)
    requires k <= |s| <= MAX_INT && Decode(schema, m, s[..k], 0) == Ok(now)
    requires Decode(schema, now, s, k) == Err(Panic)
    ensures i < |s| && PanicsAt(schema, m, s, i)
    decreases |s| - k
  {
    hide RecordOverruns, ReadRecord, Apply;
    RecordPanics(schema.kind, s, k);
    if ReadRecord(schema.kind, s, k).Err? || Apply(schema, now, ReadRecord(schema.kind, s, k).value.0).Err? {
      return k;
    }
    var (rec, j) := ReadRecord(schema.kind, s, k).value;
    var next := Apply(schema, now, rec).value;
    OneMore(schema, m, s, k, now, rec, j, next);
    i := FindPanic(schema, m, s, j, next);
  }

  lemma {:induction false} OneMore<K>(schema: Schema<K>, m: Message<K>, s: seq<byte>, k: nat, now: Message<K>,
                                      rec: Record, j: nat, next: Message<K>)
    requires k < |s| <= MAX_INT && Decode(schema, m, s[..k], 0) == Ok(now)
    requires ReadRecord(schema.kind, s, k) == Ok((rec, j)) && Apply(schema, now, rec) == Ok(next)
    ensures j <= |s| && Decode(schema, m, s[..j], 0) == Ok(next)
  {
    hide ReadRecord, Apply;
    var a, b, t := s[..k], s[k..j], s[..j];
    assert a + b == t && t[k..j] == s[k..j];
    ReadRecordLocal(schema.kind, s, k, t, k);
    DecodePrefix(schema, m, a, 0, b);
    assert Decode(schema, next, t, j) == Ok(next);
  }

  // ---- The two messages of a request -----------------------------------------------------------------------

  /** An argument panics exactly at a declared length past the largest int. */
  lemma {:induction false} ArgumentPanics(m: Argument, s: seq<byte>)
    requires |s| <= MAX_INT
    ensures DecodeArgument(m, s) == Err(Panic) <==>
            exists i | 0 <= i < |s| :: DecodeArgument(m, s[..i]).Ok? && RecordOverruns(ArgumentKind, s, i)
  {
    DecodePanics(ARGUMENT, m, s);
    hide Decode, RecordOverruns, ReadRecord;
    forall i | 0 <= i < |s|
      ensures PanicsAt(ARGUMENT, m, s, i) <==> DecodeArgument(m, s[..i]).Ok? && RecordOverruns(ArgumentKind, s, i)
    {
    }
  }

  /** A request does so at one of its own, or in an argument that does. */
  lemma {:induction false} RequestPanics(m: Request, s: seq<byte>)
    requires |s| <= MAX_INT
    ensures DecodeRequest(m, s) == Err(Panic) <==>
            exists i | 0 <= i < |s| :: DecodeRequest(m, s[..i]).Ok? && RequestPanicsAt(s, i)
  {
    DecodePanics(REQUEST, m, s);
    hide Decode, RecordOverruns, ReadRecord, DecodeArgument;
    forall i | 0 <= i < |s|
      ensures PanicsAt(REQUEST, m, s, i) <==> DecodeRequest(m, s[..i]).Ok? && RequestPanicsAt(s, i)
    {
    }
  }

  predicate RequestPanicsAt(s: seq<byte>, i: nat)
    requires i < |s|
  {
    || RecordOverruns(RequestKind, s, i)
    || (match ReadRecord(RequestKind, s, i)
        case Ok((BytesRecord(3, c), _)) => DecodeArgument(NO_ARGUMENT, c) == Err(Panic)
        case _ => false)
  }

  // ---- A condition on the input alone ----------------------------------------------------------------------

  /** No varint anywhere in the input, read as a length, reaches past the largest int. */
  predicate Modest(s: seq<byte>) {
    |s| + 8 <= MAX_INT && forall j | 0 <= j <= |s| :: !HugeAt(s, j)
  }

  lemma {:induction false} ModestSuffix(s: seq<byte>, i: nat)
    requires i <= |s| && Modest(s)
    ensures Modest(s[i..])
  {
    forall j | 0 <= j <= |s[i..]|
      ensures !HugeAt(s[i..], j)
    {
      SuffixVarint(s, i, i + j);
    }
    hide HugeAt;
  }

  lemma {:induction false} ModestPrefix(s: seq<byte>, i: nat)
    requires i <= |s| && Modest(s)
    ensures Modest(s[..i])
  {
    var t := s[..i];
    forall j | 0 <= j <= |t|
      ensures !HugeAt(t, j)
    {
      if ReadVarint(t, j).Ok? {
        assert t[j..ReadVarint(t, j).value.1] == s[j..ReadVarint(t, j).value.1];
        ReadVarintLocal(t, j, s, j);
      }
      hide ReadVarint;
      assert !HugeAt(s, j);
    }
    hide HugeAt;
  }

  lemma {:induction false} ModestField(s: seq<byte>, wireType: nat, j: nat)
    requires Modest(s) && j <= |s|
    ensures !FieldOverruns(s, wireType, j)
  {
    hide HugeAt;
  }

  lemma {:induction false} ModestGroup(s: seq<byte>, start: nat)
    requires Modest(s)
    ensures !GroupOverruns(s, start)
    decreases if start <= |s| then |s| - start else 0
  {
    hide Modest, FieldOverruns, GroupOverruns, SkipGroup, Skip, ReadVarint;
    GroupTurn(s, start);
    if ReadVarint(s, start).Ok? {
      var (wire, i) := ReadVarint(s, start).value;
      ModestField(s, wire % 8, i);
      ModestSuffix(s, start);
      ModestGroup(s[start..], i - start);
      if Skip(s[start..]).Ok? && Skip(s[start..]).value >= 1 {
        ModestGroup(s, start + Skip(s[start..]).value);
      }
    }
  }

  lemma {:induction false} ModestRecord(kind: int32 -> Kind, s: seq<byte>, i: nat)
    requires i < |s| && Modest(s)
    ensures !RecordOverruns(kind, s, i)
  {
    hide FieldNumber, FieldOverruns;
    if ReadVarint(s, i).Ok? {
      var (wire, j) := ReadVarint(s, i).value;
      ModestField(s, wire % 8, j);
      hide ReadVarint, GroupOverruns, HugeAt;
      ModestSuffix(s, i);
      ModestGroup(s[i..], j - i);
    }
  }

  /** Without such a length no request panics, whatever it is decoded onto. */
  lemma {:induction false} ModestNeverPanics(m: Request, s: seq<byte>)
    requires Modest(s)
    ensures DecodeRequest(m, s) != Err(Panic)
  {
    RequestPanics(m, s);
    hide DecodeRequest, Modest, RecordOverruns, DecodeArgument;
    forall i | 0 <= i < |s|
      ensures !RequestPanicsAt(s, i)
    {
      ModestRecord(RequestKind, s, i);
      if ReadRecord(RequestKind, s, i).Ok? && ReadRecord(RequestKind, s, i).value.0.BytesRecord? {
        var c := ModestContent(s, i);
      }
      hide ReadRecord;
    }
  }

  lemma {:induction false} ModestContent(s: seq<byte>, i: nat) returns (c: seq<byte>)
    requires i < |s| && Modest(s)
    requires ReadRecord(RequestKind, s, i).Ok? && ReadRecord(RequestKind, s, i).value.0.BytesRecord?
    ensures c == ReadRecord(RequestKind, s, i).value.0.content
    ensures DecodeArgument(NO_ARGUMENT, c) != Err(Panic)
  {
    hide ReadVarint, Skip, FieldNumber, DecodeArgument, Modest;
    var (rec, end) := ReadRecord(RequestKind, s, i).value;
    c := rec.content;
    var j := ReadVarint(s, i).value.1;
    var k := ReadVarint(s, j).value.1;
    assert c == s[k..end] == s[k..][..end - k];
    ModestSuffix(s, k);
    ModestPrefix(s[k..], end - k);
    ModestArgument(c);
  }

  lemma {:induction false} ModestArgument(c: seq<byte>)
    requires Modest(c)
    ensures DecodeArgument(NO_ARGUMENT, c) != Err(Panic)
  {
    ArgumentPanics(NO_ARGUMENT, c);
    hide DecodeArgument, Modest, RecordOverruns;
    forall i | 0 <= i < |c|
      ensures !RecordOverruns(ArgumentKind, c, i)
    {
      ModestRecord(ArgumentKind, c, i);
    }
  }

  /** "Last One Wins" then holds without exception: with such lengths, decoding two parts of a request one after
      the other gives the same result, the same error and the same message left behind as decoding the whole. */
  lemma {:induction false} ModestConcat(m: Request, a: seq<byte>, b: seq<byte>)
    requires Modest(a + b) && DecodeRequest(m, a).Ok?
    ensures var m1 := DecodeRequest(m, a).value;
      && DecodeRequest(m, a + b) == DecodeRequest(m1, b)
      && Reached(REQUEST, m, a + b, 0) == Reached(REQUEST, m1, b, 0)
  {
    DecodeConcat(REQUEST, m, a, b);
    ModestNeverPanics(m, a + b);
    hide Decode, Reached;
  }

  // ---- Inputs ----------------------------------------------------------------------------------------------

  /** A tag with the largest int as its length, and nothing after it. */
  lemma {:induction false} HugeLength(tag: byte, s: seq<byte>)
    requires tag == 0x0a || tag == 0x12 || tag == 0x1a || tag == 0x3a
    requires s == [tag] + VarintBytes(MAX_INT)
    ensures ReadRecord(RequestKind, s, 0) == Err(Panic)
    ensures BrokenRecord(RequestKind, s, 0) == Overrun(tag / 8)
  {
    var length := VarintBytes(MAX_INT);
    TagByte(tag, length);
    VarintRoundTrip(MAX_INT, [tag], []);
    assert [tag] + length + [] == s;
    hide VarintBytes, ReadVarint, Sov;
  }

  /** Such a string or argument panics the decoder; an argument has been appended by then. */
  lemma {:induction false} HugeLengthPanics(m: Request, tag: byte, s: seq<byte>)
    requires tag == 0x0a || tag == 0x12 || tag == 0x1a || tag == 0x3a
    requires s == [tag] + VarintBytes(MAX_INT)
    ensures DecodeRequest(m, s) == Err(Panic)
    ensures Reached(REQUEST, m, s, 0)
            == if tag == 0x1a then m.(fields := m.fields.(args := m.fields.args + [NO_ARGUMENT])) else m
  {
    HugeLength(tag, s);
    hide ReadRecord, VarintBytes, BrokenRecord;
  }

  lemma {:induction false} Unfinished(s: seq<byte>, i: nat, left: nat)
    requires i <= |s| < i + left && forall k :: i <= k < |s| ==> s[k] >= 128
    ensures Scan(s, i, left) == Err(UnexpectedEOF) && Stops(s, i, left) == |s|
    decreases left
  {
    if i >= |s| {
    } else {
      Unfinished(s, i + 1, left - 1);
    }
  }

  /** A `Type` whose varint is cut off is left with the groups that were there; with none, it is cleared. */
  lemma {:induction false} HalfType(m: Argument, b: seq<byte>)
    requires |b| <= 9 && forall k :: 0 <= k < |b| ==> b[k] >= 128
    ensures DecodeArgument(m, [0x08] + b) == Err(UnexpectedEOF)
    ensures Reached(ARGUMENT, m, [0x08] + b, 0) == m.(fields := m.fields.(argType := ToInt32(Groups(b))))
  {
    var s := [0x08] + b;
    TagByte(0x08, b);
    Unfinished(s, 1, 10);
    assert s[1..|s|] == b;
    hide Groups, Scan, Stops;
    assert ReadVarint(s, 1) == Err(UnexpectedEOF);
  }
}
