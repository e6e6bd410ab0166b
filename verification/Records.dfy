/** The part of the decoder that all messages share: one record after another is read, known ones are
    applied to the message's fields and unknown ones are kept verbatim. */
module Records {
  import opened Wire
  import opened Skipping

  /** How a message declares a field number. */
  datatype Kind = Bytes | Number | Unknown

  /** One field as it was read. An unknown field keeps its raw bytes, tag included. */
  datatype Record =
    | BytesRecord(field: int32, content: seq<byte>)
    | NumberRecord(field: int32, value: uint64)
    | UnknownRecord(raw: seq<byte>)

  /** A message: its declared fields, and the bytes of the fields it does not declare
      (`XXX_unrecognized`; nil and empty are not told apart). */
  datatype Message<K> = Message(fields: K, unrecognized: seq<byte>)

  /** What a read that fails had got to, as far as it may show in the message: the groups read of a number, or
      a length whose end passes the largest int, which is found out when the bytes are sliced. */
  datatype Broken = Intact | HalfNumber(field: int32, groups: nat) | Overrun(field: int32)

  /** What a message type declares, what a record does to its fields, and what is left of them by a record that
      cannot be applied and by one that cannot be read. */
  datatype Schema<!K> = Schema(
    kind: int32 -> Kind,
    apply: (K, Record) -> Result<K>,
    abandon: (K, Record) -> K,
    broken: (K, Broken) -> K
  )

  /** The tag's field number: `int32(wire >> 3)`, so high bits of a long tag are lost. */
  function FieldNumber(wire: uint64): int32 {
    ToInt32(wire / 8)
  }

  // ---- Reading one record ---------------------------------------------------------------------------

  /** The record at `i`, and the index after it. */
  function ReadRecord(kind: int32 -> Kind, s: seq<byte>, i: nat): (r: Result<(Record, nat)>)
    requires i < |s|
    ensures r.Ok? ==> i < r.value.1 <= |s|
  {
    var (wire, j) :- ReadVarint(s, i);
    var field := FieldNumber(wire);
    if wire % 8 == 4 then Err(EndGroup)
    else if field <= 0 then Err(IllegalTag)
    else ReadContent(kind(field), field, wire % 8, s, i, j)
  }

  /** The same after the tag, which reaches from `i` to `j`. */
  function ReadContent(kind: Kind, field: int32, wireType: nat, s: seq<byte>, i: nat, j: nat)
    : (r: Result<(Record, nat)>)
    requires i < j <= |s|
    ensures r.Ok? ==> i < r.value.1 <= |s|
  {
    match kind
    case Bytes =>
      if wireType != 2 then Err(WrongWireType(field)) else
      var (content, k) :- ReadBytes(s, j);
      Ok((BytesRecord(field, content), k))
    case Number =>
      if wireType != 0 then Err(WrongWireType(field)) else
      var (v, k) :- ReadVarint(s, j);
      Ok((NumberRecord(field, v), k))
    case Unknown =>
      var (raw, k) :- ReadRaw(s, i);
      Ok((UnknownRecord(raw), k))
  }

  /** The bytes of the whole field at `i`, of a number that is not declared. */
  function ReadRaw(s: seq<byte>, i: nat): (r: Result<(seq<byte>, nat)>)
    requires i < |s|
    ensures r.Ok? ==> i < r.value.1 <= |s|
  {
    var n :- Skip(s[i..]);
    if n < 0 then Err(InvalidLength)
    else if i + n > MAX_INT then Err(Panic)
    else if i + n > |s| then Err(UnexpectedEOF)
    else Ok((s[i..i + n], i + n))
  }

  /** A length at `j` and that many bytes after it. The sum of index and length may pass the largest int:
      it then wraps below zero, escapes the bound check and panics as a slice bound. */
  function ReadBytes(s: seq<byte>, j: nat): (r: Result<(seq<byte>, nat)>)
    ensures r.Ok? ==> j < r.value.1 <= |s|
  {
    var (v, k) :- ReadVarint(s, j);
    var length := ToInt64(v);
    if length < 0 then Err(InvalidLength)
    else if k + length > MAX_INT then Err(Panic)
    else if k + length > |s| then Err(UnexpectedEOF)
    else Ok((s[k..k + length], k + length))
  }

  /** The record at `i` that cannot be read. */
  function BrokenRecord(kind: int32 -> Kind, s: seq<byte>, i: nat): Broken {
    match ReadVarint(s, i)
    case Err(_) => Intact
    case Ok((wire, j)) =>
      var field := FieldNumber(wire);
      if wire % 8 == 4 || field <= 0 then Intact
      else BrokenContent(kind(field), field, wire % 8, s, j)
  }

  function BrokenContent(kind: Kind, field: int32, wireType: nat, s: seq<byte>, j: nat): Broken
    requires j <= |s|
  {
    if kind.Number? && wireType == 0 && ReadVarint(s, j).Err? then
      HalfNumber(field, Groups(s[j..Stops(s, j, 10)]))
    else if kind.Bytes? && wireType == 2 && ReadBytes(s, j) == Err(Panic) then Overrun(field)
    else Intact
  }

  // ---- Decoding ---------------------------------------------------------------------------------------

  /** One record applied to a message. */
  function Apply<K>(schema: Schema<K>, m: Message<K>, rec: Record): Result<Message<K>> {
    if rec.UnknownRecord? then Ok(m.(unrecognized := m.unrecognized + rec.raw))
    else
      var fields :- schema.apply(m.fields, rec);
      Ok(m.(fields := fields))
  }

  /** `Unmarshal` of `s` onto `m` from index `i`. */
  function Decode<K>(schema: Schema<K>, m: Message<K>, s: seq<byte>, i: nat): Result<Message<K>>
    decreases if i <= |s| then |s| - i else 0
  {
    if i >= |s| then Ok(m) else
    var (rec, j) :- ReadRecord(schema.kind, s, i);
    var next :- Apply(schema, m, rec);
    Decode(schema, next, s, j)
  }

  /** What the message holds when decoding ends, be it with an error: all records before it are applied, and
      the failing one has left its trace. */
  function Reached<K>(schema: Schema<K>, m: Message<K>, s: seq<byte>, i: nat): Message<K>
    decreases if i <= |s| then |s| - i else 0
  {
    if i >= |s| then m
    else
      match ReadRecord(schema.kind, s, i)
      case Err(_) => m.(fields := schema.broken(m.fields, BrokenRecord(schema.kind, s, i)))
      case Ok((rec, j)) =>
        match Apply(schema, m, rec)
        case Err(_) => m.(fields := schema.abandon(m.fields, rec))
        case Ok(next) => Reached(schema, next, s, j)
  }

  /** Without an error that is the result. */
  lemma {:induction false} DecodeReaches<K>(schema: Schema<K>, m: Message<K>, s: seq<byte>, i: nat)
    requires Decode(schema, m, s, i).Ok?
    ensures Decode(schema, m, s, i) == Ok(Reached(schema, m, s, i))
    decreases if i <= |s| then |s| - i else 0
  {
    hide ReadRecord, Apply;
    if i >= |s| {
    } else {
      var (rec, j) := ReadRecord(schema.kind, s, i).value;
      DecodeReaches(schema, Apply(schema, m, rec).value, s, j);
    }
  }

  // ---- A record does not depend on its surroundings --------------------------------------------------

  lemma {:induction false} ReadBytesLocal(s: seq<byte>, i: nat, t: seq<byte>, k: nat)
    requires |t| <= MAX_INT && ReadBytes(s, i).Ok?
    requires var j := ReadBytes(s, i).value.1; k + j - i <= |t| && t[k..k + j - i] == s[i..j]
    ensures ReadBytes(t, k) == Ok((ReadBytes(s, i).value.0, k + ReadBytes(s, i).value.1 - i))
  {
    hide Scan, Value;
    var j := ReadBytes(s, i).value.1;
    var a := ReadVarint(s, i).value.1;
    SubSlice(s, i, j, t, k, i, a);
    SubSlice(s, i, j, t, k, a, j);
    ReadVarintLocal(s, i, t, k);
  }

  lemma {:induction false} SubSlice(s: seq<byte>, i: nat, j: nat, t: seq<byte>, k: nat, a: nat, b: nat)
    requires i <= a <= b <= j <= |s| && k + j - i <= |t| && t[k..k + j - i] == s[i..j]
    ensures t[k + a - i..k + b - i] == s[a..b]
  {
    forall x | 0 <= x < b - a
      ensures t[k + a - i..k + b - i][x] == s[a..b][x]
    {
      assert t[k..k + j - i][a - i + x] == s[i..j][a - i + x];
    }
  }

  lemma {:induction false} SkipSuffixLocal(s: seq<byte>, i: nat, n: nat, t: seq<byte>, k: nat)
    requires i + n <= |s| && Skip(s[i..]) == Ok(n) && n <= MAX_INT
    requires k + n <= |t| && t[k..k + n] == s[i..i + n]
    ensures Skip(t[k..]) == Ok(n)
  {
    hide Skip;
    assert s[i..][..n] == s[i..i + n];
    assert t[k..][..n] == t[k..k + n];
    SkipLocal(s[i..], t[k..]);
  }

  lemma {:induction false} TagWithin(kind: int32 -> Kind, s: seq<byte>, i: nat)
    requires i < |s| && ReadRecord(kind, s, i).Ok?
    ensures ReadVarint(s, i).Ok? && ReadVarint(s, i).value.1 <= ReadRecord(kind, s, i).value.1
  {
    hide Skip, Scan, Value, FieldNumber;
    var (wire, a) := ReadVarint(s, i).value;
    assert s[i..][0..a - i] == s[i..a];
    ReadVarintLocal(s, i, s[i..], 0);
    if kind(FieldNumber(wire)).Unknown? {
      SkipCoversTag(s[i..]);
    }
  }

  lemma {:induction false} ReadRecordLocal(kind: int32 -> Kind, s: seq<byte>, i: nat, t: seq<byte>, k: nat)
    requires |t| <= MAX_INT && i < |s| && ReadRecord(kind, s, i).Ok?
    requires var j := ReadRecord(kind, s, i).value.1; k + j - i <= |t| && t[k..k + j - i] == s[i..j]
    ensures k < |t|
    ensures ReadRecord(kind, t, k)
            == Ok((ReadRecord(kind, s, i).value.0, k + ReadRecord(kind, s, i).value.1 - i))
  {
    hide Skip, ReadVarint, ReadBytes, FieldNumber;
    var j := ReadRecord(kind, s, i).value.1;
    var (wire, a) := ReadVarint(s, i).value;
    TagWithin(kind, s, i);
    SubSlice(s, i, j, t, k, i, a);
    ReadVarintLocal(s, i, t, k);
    match kind(FieldNumber(wire))
    case Bytes =>
      SubSlice(s, i, j, t, k, a, j);
      ReadBytesLocal(s, a, t, k + a - i);
    case Number =>
      SubSlice(s, i, j, t, k, a, j);
      ReadVarintLocal(s, a, t, k + a - i);
    case Unknown =>
      SkipSuffixLocal(s, i, j - i, t, k);
  }

  // ---- The concatenation law --------------------------------------------------------------------------

  lemma {:induction false} DecodePrefix<K>(schema: Schema<K>, m: Message<K>, a: seq<byte>, i: nat, b: seq<byte>)
    requires |a + b| <= MAX_INT && i <= |a| && Decode(schema, m, a, i).Ok?
    ensures Decode(schema, m, a + b, i) == Decode(schema, Decode(schema, m, a, i).value, a + b, |a|)
    decreases |a| - i
  {
    hide ReadRecord, Apply;
    if i >= |a| {
    } else {
      var (rec, j) := ReadRecord(schema.kind, a, i).value;
      assert (a + b)[i..j] == a[i..j];
      ReadRecordLocal(schema.kind, a, i, a + b, i);
      DecodePrefix(schema, Apply(schema, m, rec).value, a, j, b);
    }
  }

  lemma {:induction false} SuffixParts(s: seq<byte>, i: nat, t: seq<byte>, k: nat, j: nat)
    requires i <= j <= |s| && k <= |t| && s[i..] == t[k..]
    ensures k + j - i <= |t| && t[k..k + j - i] == s[i..j] && t[k + j - i..] == s[j..]
  {
    assert |s| - i == |s[i..]| == |t[k..]| == |t| - k;
    assert s[i..j] == s[i..][..j - i];
    assert t[k..k + j - i] == t[k..][..j - i];
    assert s[j..] == s[i..][j - i..];
    assert t[k + j - i..] == t[k..][j - i..];
  }

  lemma {:induction false} ScanMoved(s: seq<byte>, i: nat, t: seq<byte>, k: nat, left: nat)
    requires i <= |s| && k <= |t| && s[i..] == t[k..]
    ensures match Scan(s, i, left)
            case Ok(j) => Scan(t, k, left) == Ok(k + j - i)
            case Err(e) => Scan(t, k, left) == Err(e)
    ensures Stops(t, k, left) == k + Stops(s, i, left) - i
    decreases left
  {
    assert |s| - i == |s[i..]| == |t[k..]| == |t| - k;
    if left > 0 && i < |s| {
      assert s[i] == s[i..][0] == t[k..][0] == t[k];
      SuffixParts(s, i, t, k, i + 1);
      ScanMoved(s, i + 1, t, k + 1, left - 1);
    }
  }

  lemma {:induction false} VarintMoved(s: seq<byte>, i: nat, t: seq<byte>, k: nat)
    requires i <= |s| && k <= |t| && s[i..] == t[k..]
    ensures match ReadVarint(s, i)
            case Ok((v, j)) => ReadVarint(t, k) == Ok((v, k + j - i))
            case Err(e) => ReadVarint(t, k) == Err(e)
    ensures Stops(t, k, 10) == k + Stops(s, i, 10) - i
    ensures t[k..Stops(t, k, 10)] == s[i..Stops(s, i, 10)] && s[Stops(s, i, 10)..] == t[Stops(t, k, 10)..]
  {
    ScanMoved(s, i, t, k, 10);
    SuffixParts(s, i, t, k, Stops(s, i, 10));
    hide Scan, Stops, Value;
  }

  /** Two reads of the same bytes agree, one of them `moved` further on, but for a length whose end passes the
      largest int only there. */
  ghost predicate SameRead(here: Result<(Record, nat)>, broken: Broken, there: Result<(Record, nat)>,
                           brokenThere: Broken, moved: nat)
  {
    match here
    case Ok((rec, j)) => there == Ok((rec, j + moved))
    case Err(e) =>
      || (there == Err(e) && brokenThere == broken)
      || (there == Err(Panic) && e == UnexpectedEOF)
  }

  lemma {:induction false} StopsAtEnd(s: seq<byte>, i: nat)
    requires ReadVarint(s, i).Ok?
    ensures ReadVarint(s, i).value.1 == Stops(s, i, 10)
  {
    hide Scan, Value;
  }

  lemma {:induction false} RecordMoved(kind: int32 -> Kind, s: seq<byte>, i: nat, t: seq<byte>, k: nat)
    requires |t| <= MAX_INT && i <= k && i < |s| && k < |t| && s[i..] == t[k..]
    ensures SameRead(ReadRecord(kind, s, i), BrokenRecord(kind, s, i),
                     ReadRecord(kind, t, k), BrokenRecord(kind, t, k), k - i)
  {
    hide ReadContent, BrokenContent, FieldNumber, ReadVarint, Stops;
    VarintMoved(s, i, t, k);
    if ReadVarint(s, i).Ok? {
      var (wire, j) := ReadVarint(s, i).value;
      StopsAtEnd(s, i);
      var field := FieldNumber(wire);
      ContentMoved(kind(field), field, wire % 8, s, i, j, t, k);
    }
  }

  lemma {:induction false} ContentMoved(kind: Kind, field: int32, wireType: nat, s: seq<byte>, i: nat, j: nat,
                                        t: seq<byte>, k: nat)
    requires |t| <= MAX_INT && i <= k && i < j <= |s| && k + j - i <= |t|
    requires s[i..] == t[k..] && s[j..] == t[k + j - i..]
    ensures SameRead(ReadContent(kind, field, wireType, s, i, j), BrokenContent(kind, field, wireType, s, j),
                     ReadContent(kind, field, wireType, t, k, k + j - i),
                     BrokenContent(kind, field, wireType, t, k + j - i), k - i)
  {
    hide Skip, ReadVarint, ReadRaw, Groups, ReadBytes, Stops;
    match kind
    case Bytes =>
      BytesMoved(s, j, t, k + j - i);
    case Number => VarintMoved(s, j, t, k + j - i);
    case Unknown => RawMoved(s, i, t, k);
  }

  lemma {:induction false} BytesMoved(s: seq<byte>, j: nat, t: seq<byte>, l: nat)
    requires |t| <= MAX_INT && j <= l && j <= |s| && l <= |t| && s[j..] == t[l..]
    ensures match ReadBytes(s, j)
            case Ok((c, end)) => ReadBytes(t, l) == Ok((c, l + end - j))
            case Err(e) => ReadBytes(t, l) == Err(e) || (ReadBytes(t, l) == Err(Panic) && e == UnexpectedEOF)
  {
    VarintMoved(s, j, t, l);
    assert |s| - j == |s[j..]| == |t[l..]| == |t| - l;
    if ReadBytes(s, j).Ok? {
      var k := ReadVarint(s, j).value.1;
      assert k == Stops(s, j, 10);
      hide ReadVarint, Stops;
      SuffixParts(s, k, t, l + k - j, ReadBytes(s, j).value.1);
    }
    hide ReadVarint;
  }

  lemma {:induction false} RawMoved(s: seq<byte>, i: nat, t: seq<byte>, k: nat)
    requires |t| <= MAX_INT && i <= k && i < |s| && k < |t| && s[i..] == t[k..]
    ensures match ReadRaw(s, i)
            case Ok((raw, j)) => ReadRaw(t, k) == Ok((raw, k + j - i))
            case Err(e) => ReadRaw(t, k) == Err(e) || (ReadRaw(t, k) == Err(Panic) && e == UnexpectedEOF)
  {
    hide Skip;
    assert |s| - i == |s[i..]| == |t[k..]| == |t| - k;
    if ReadRaw(s, i).Ok? {
      SuffixParts(s, i, t, k, ReadRaw(s, i).value.1);
    }
  }

  lemma {:induction false} DecodeMoved<K>(schema: Schema<K>, m: Message<K>, s: seq<byte>, i: nat,
                                          t: seq<byte>, k: nat)
    requires |t| <= MAX_INT && i <= k && i <= |s| && k <= |t| && s[i..] == t[k..]
    ensures || (Decode(schema, m, t, k) == Decode(schema, m, s, i)
                && Reached(schema, m, t, k) == Reached(schema, m, s, i))
            || (Decode(schema, m, t, k) == Err(Panic) && Decode(schema, m, s, i) == Err(UnexpectedEOF))
    decreases |s| - i
  {
    hide ReadRecord, Apply, BrokenRecord;
    assert |s| - i == |s[i..]| == |t[k..]| == |t| - k;
    if i >= |s| {
    } else {
      RecordMoved(schema.kind, s, i, t, k);
      if ReadRecord(schema.kind, s, i).Ok? {
        var (rec, j) := ReadRecord(schema.kind, s, i).value;
        SuffixParts(s, i, t, k, j);
        if Apply(schema, m, rec).Ok? {
          DecodeMoved(schema, Apply(schema, m, rec).value, s, j, t, k + j - i);
        }
      }
    }
  }

  lemma {:induction false} ReachedPrefix<K>(schema: Schema<K>, m: Message<K>, a: seq<byte>, i: nat, b: seq<byte>)
    requires |a + b| <= MAX_INT && i <= |a| && Decode(schema, m, a, i).Ok?
    ensures Reached(schema, m, a + b, i) == Reached(schema, Decode(schema, m, a, i).value, a + b, |a|)
    decreases |a| - i
  {
    hide ReadRecord, Apply;
    if i >= |a| {
    } else {
      var (rec, j) := ReadRecord(schema.kind, a, i).value;
      assert (a + b)[i..j] == a[i..j];
      ReadRecordLocal(schema.kind, a, i, a + b, i);
      ReachedPrefix(schema, Apply(schema, m, rec).value, a, j, b);
    }
  }

  /** "Last One Wins": decoding a concatenation is decoding its first part and then, onto the result, the
      second, with the same result, the same error and the same message left behind; but that a declared length
      may pass the largest int in the whole, which panics, and only the end of the input in the part. */
  lemma {:induction false} DecodeConcat<K>(schema: Schema<K>, m: Message<K>, a: seq<byte>, b: seq<byte>)
    requires |a + b| <= MAX_INT && Decode(schema, m, a, 0).Ok?
    ensures var m1 := Decode(schema, m, a, 0).value;
      || (Decode(schema, m, a + b, 0) == Decode(schema, m1, b, 0)
          && Reached(schema, m, a + b, 0) == Reached(schema, m1, b, 0))
      || (Decode(schema, m, a + b, 0) == Err(Panic) && Decode(schema, m1, b, 0) == Err(UnexpectedEOF))
  {
    hide Decode, Reached;
    DecodePrefix(schema, m, a, 0, b);
    ReachedPrefix(schema, m, a, 0, b);
    assert (a + b)[|a|..] == b[0..];
    DecodeMoved(schema, Decode(schema, m, a, 0).value, b, 0, a + b, |a|);
  }

  /** The form used to put encodings together. */
  lemma {:induction false} DecodeThen<K>(schema: Schema<K>, m: Message<K>, a: seq<byte>, m1: Message<K>,
                                         b: seq<byte>, m2: Message<K>)
    requires |a + b| <= MAX_INT
    requires Decode(schema, m, a, 0) == Ok(m1) && Decode(schema, m1, b, 0) == Ok(m2)
    ensures Decode(schema, m, a + b, 0) == Ok(m2)
  {
    hide Decode;
    DecodeConcat(schema, m, a, b);
  }

  // ---- Decoding reads records in order and applies them in order ------------------------------------

  function RecordsFrom(kind: int32 -> Kind, s: seq<byte>, i: nat): Result<seq<Record>>
    decreases if i <= |s| then |s| - i else 0
  {
    if i >= |s| then Ok([]) else
    var (rec, j) :- ReadRecord(kind, s, i);
    var rest :- RecordsFrom(kind, s, j);
    Ok([rec] + rest)
  }

  function ApplyAll<K>(schema: Schema<K>, m: Message<K>, recs: seq<Record>): Result<Message<K>>
    decreases |recs|
  {
    if recs == [] then Ok(m) else
    var next :- Apply(schema, m, recs[0]);
    ApplyAll(schema, next, recs[1..])
  }

  lemma {:induction false} DecodeIsApplyAll<K>(schema: Schema<K>, m: Message<K>, s: seq<byte>, i: nat)
    ensures Decode(schema, m, s, i).Ok? <==>
            && RecordsFrom(schema.kind, s, i).Ok?
            && ApplyAll(schema, m, RecordsFrom(schema.kind, s, i).value).Ok?
    ensures Decode(schema, m, s, i).Ok? ==>
              Decode(schema, m, s, i) == ApplyAll(schema, m, RecordsFrom(schema.kind, s, i).value)
    decreases if i <= |s| then |s| - i else 0
  {
    hide ReadRecord, Apply;
    if i < |s| && ReadRecord(schema.kind, s, i).Ok? {
      var (rec, j) := ReadRecord(schema.kind, s, i).value;
      if RecordsFrom(schema.kind, s, j).Ok? {
        var rest := RecordsFrom(schema.kind, s, j).value;
        assert ([rec] + rest)[0] == rec && ([rec] + rest)[1..] == rest;
      }
      if Apply(schema, m, rec).Ok? {
        DecodeIsApplyAll(schema, Apply(schema, m, rec).value, s, j);
      }
    }
  }

  // ---- Unknown fields ----------------------------------------------------------------------------------

  /** The bytes of the fields a message does not declare, one after another: `s` is cut into fields by
      `Skip` alone. */
  function UnknownBytes(kind: int32 -> Kind, s: seq<byte>): seq<byte>
    decreases |s|
  {
    if s == [] then [] else
    match (ReadVarint(s, 0), Skip(s))
    case (Ok(tag), Ok(n)) =>
      if 1 <= n <= |s| then
        (if kind(FieldNumber(tag.0)).Unknown? then s[..n] else []) + UnknownBytes(kind, s[n..])
      else []
    case _ => []
  }

  lemma PartOfRest(s: seq<byte>, i: nat, a: nat, b: nat)
    requires i <= a <= b <= |s|
    ensures s[i..][a - i..b - i] == s[a..b]
  {
  }

  /** Every record, known or not, reaches as far as `Skip` would go. */
  lemma {:induction false} RecordExtent(kind: int32 -> Kind, s: seq<byte>, i: nat)
    requires i < |s| && ReadRecord(kind, s, i).Ok?
    ensures var (rec, j) := ReadRecord(kind, s, i).value;
            && Skip(s[i..]) == Ok(j - i)
            && ReadVarint(s[i..], 0).Ok?
            && var unknown := kind(FieldNumber(ReadVarint(s[i..], 0).value.0)).Unknown?;
            && unknown == rec.UnknownRecord?
            && (unknown ==> rec.raw == s[i..j])
  {
    hide Scan, ReadVarint, FieldNumber, SkipGroup;
    var (wire, a) := ReadVarint(s, i).value;
    var t := s[i..];
    PartOfRest(s, i, i, a);
    ReadVarintLocal(s, i, t, 0);
    match kind(FieldNumber(wire))
    case Bytes =>
      var b := ReadVarint(s, a).value.1;
      PartOfRest(s, i, a, b);
      ReadVarintLocal(s, a, t, a - i);
    case Number =>
      var b := ReadVarint(s, a).value.1;
      PartOfRest(s, i, a, b);
      ReadVarintLocal(s, a, t, a - i);
      NumberScan(t, a - i);
    case Unknown =>
  }

  lemma NumberScan(t: seq<byte>, i: nat)
    requires ReadVarint(t, i).Ok?
    ensures Scan(t, i, 10) == Ok(ReadVarint(t, i).value.1)
  {
  }

  lemma NoUnknown(kind: int32 -> Kind, s: seq<byte>)
    requires s == []
    ensures UnknownBytes(kind, s) == []
  {
  }

  lemma {:induction false} UnknownStep(kind: int32 -> Kind, s: seq<byte>, i: nat)
    requires i < |s| && ReadRecord(kind, s, i).Ok?
    ensures var (rec, j) := ReadRecord(kind, s, i).value;
            UnknownBytes(kind, s[i..])
            == (if rec.UnknownRecord? then rec.raw else []) + UnknownBytes(kind, s[j..])
  {
    hide ReadRecord, ReadVarint, Skip, FieldNumber;
    var (rec, j) := ReadRecord(kind, s, i).value;
    RecordExtent(kind, s, i);
    assert s[i..][j - i..] == s[j..] && s[i..][..j - i] == s[i..j];
  }

  /** Unknown fields are kept verbatim, all of them and in order. */
  lemma {:induction false} UnknownKept<K>(schema: Schema<K>, m: Message<K>, s: seq<byte>, i: nat)
    requires i <= |s| && Decode(schema, m, s, i).Ok?
    ensures Decode(schema, m, s, i).value.unrecognized
            == m.unrecognized + UnknownBytes(schema.kind, s[i..])
    decreases |s| - i
  {
    hide ReadRecord, UnknownBytes;
    if i < |s| {
      var (rec, j) := ReadRecord(schema.kind, s, i).value;
      UnknownStep(schema.kind, s, i);
      UnknownKept(schema, Apply(schema, m, rec).value, s, j);
    } else {
      NoUnknown(schema.kind, s[i..]);
    }
  }

  /** Only whole fields with numbers that the message does not declare. */
  predicate WholeUnknown(kind: int32 -> Kind, u: seq<byte>, i: nat)
    decreases if i <= |u| then |u| - i else 0
  {
    i >= |u| ||
    match ReadRecord(kind, u, i)
    case Ok((UnknownRecord(_), j)) => WholeUnknown(kind, u, j)
    case _ => false
  }

  lemma {:induction false} DecodeUnknown<K>(schema: Schema<K>, m: Message<K>, u: seq<byte>, i: nat)
    requires i <= |u| && WholeUnknown(schema.kind, u, i)
    ensures Decode(schema, m, u, i) == Ok(m.(unrecognized := m.unrecognized + u[i..]))
    decreases |u| - i
  {
    hide ReadVarint, Skip, FieldNumber, ReadRecord;
    if i < |u| {
      var (rec, j) := ReadRecord(schema.kind, u, i).value;
      RecordExtent(schema.kind, u, i);
      DecodeUnknown(schema, Apply(schema, m, rec).value, u, j);
      assert u[i..j] + u[j..] == u[i..];
      assert m.unrecognized + u[i..j] + u[j..] == m.unrecognized + u[i..];
    } else {
      assert m.unrecognized + u[i..] == m.unrecognized;
    }
  }

  lemma {:induction false} WholeUnknownAppend(kind: int32 -> Kind, u: seq<byte>, i: nat, w: seq<byte>)
    requires i <= |u| && |u + w| <= MAX_INT && WholeUnknown(kind, u, i) && WholeUnknown(kind, w, 0)
    ensures WholeUnknown(kind, u + w, i)
    decreases |u| - i
  {
    hide ReadRecord;
    if i < |u| {
      var j := ReadRecord(kind, u, i).value.1;
      assert (u + w)[i..j] == u[i..j];
      ReadRecordLocal(kind, u, i, u + w, i);
      WholeUnknownAppend(kind, u, j, w);
    } else {
      assert (u + w)[|u|..] == w[0..];
      WholeUnknownMoved(kind, w, 0, u + w, |u|);
    }
  }

  lemma {:induction false} WholeUnknownMoved(kind: int32 -> Kind, s: seq<byte>, i: nat, t: seq<byte>, k: nat)
    requires |t| <= MAX_INT && i <= |s| && k <= |t| && s[i..] == t[k..] && WholeUnknown(kind, s, i)
    ensures WholeUnknown(kind, t, k)
    decreases |s| - i
  {
    hide ReadRecord;
    assert |s| - i == |s[i..]| == |t[k..]| == |t| - k;
    if i >= |s| {
    } else {
      var j := ReadRecord(kind, s, i).value.1;
      SuffixParts(s, i, t, k, j);
      ReadRecordLocal(kind, s, i, t, k);
      WholeUnknownMoved(kind, s, j, t, k + j - i);
    }
  }

  /** What decoding keeps is whole unknown fields again, so it can be encoded and decoded anew. */
  lemma {:induction false} KeptIsWhole<K>(schema: Schema<K>, m: Message<K>, s: seq<byte>, i: nat)
    requires i <= |s| && Decode(schema, m, s, i).Ok? && WholeUnknown(schema.kind, m.unrecognized, 0)
    requires |m.unrecognized| + |s| - i <= MAX_INT
    ensures WholeUnknown(schema.kind, Decode(schema, m, s, i).value.unrecognized, 0)
    decreases |s| - i
  {
    hide ReadRecord, ReadVarint, Skip, FieldNumber;
    if i >= |s| {
    } else {
      var (rec, j) := ReadRecord(schema.kind, s, i).value;
      RecordExtent(schema.kind, s, i);
      if rec.UnknownRecord? {
        assert s[i..j][0..j - i] == s[i..j];
        ReadRecordLocal(schema.kind, s, i, s[i..j], 0);
        WholeUnknownAppend(schema.kind, m.unrecognized, 0, s[i..j]);
      }
      KeptIsWhole(schema, Apply(schema, m, rec).value, s, j);
    }
  }

  // ---- What a record is ----------------------------------------------------------------------------------

  /** What a field of the grammar is to a message: nothing if it ends a group, its number is not positive, or it
      has another wire type than is declared. */
  function Meaning(kind: int32 -> Kind, f: Field): Option<Record> {
    var number := FieldNumber(Value(f.tag));
    if number <= 0 || f.GroupEnd? then None
    else
      match kind(number)
      case Number => if f.Varint? then Some(NumberRecord(number, Value(f.number))) else None
      case Bytes => if f.Delimited? then Some(BytesRecord(number, f.content)) else None
      case Unknown => Some(UnknownRecord(Flat(f)))
  }

  lemma {:induction false} FieldTag(f: Field, rest: seq<byte>)
    requires WellFormed(f)
    ensures ReadVarint(Flat(f) + rest, 0) == Ok((Value(f.tag), |f.tag|)) && f.tag != []
    ensures |f.tag| <= |Flat(f)|
    ensures var w := Value(f.tag) % 8;
      && (w == 0 <==> f.Varint?) && (w == 1 || w == 5 <==> f.Fixed?) && (w == 2 <==> f.Delimited?)
      && (w == 3 <==> f.Group?) && (w == 4 <==> f.GroupEnd?)
  {
    var more := Flat(f)[|f.tag|..] + rest;
    assert Flat(f) + rest == f.tag + more;
    TagRead(f.tag, Value(f.tag) % 8, more);
    hide Value;
  }

  lemma {:induction false} NumberRead(tag: seq<byte>, number: seq<byte>, rest: seq<byte>)
    requires IsVarint(number)
    ensures ReadVarint(tag + number + rest, |tag|) == Ok((Value(number), |tag + number|))
  {
    VarintAt(tag + number + rest, |tag|, number);
  }

  lemma {:induction false} BytesRead(tag: seq<byte>, length: seq<byte>, content: seq<byte>, rest: seq<byte>)
    requires IsVarint(length) && Value(length) == |content| && |tag + length + content + rest| <= MAX_INT
    ensures ReadBytes(tag + length + content + rest, |tag|) == Ok((content, |tag + length + content|))
  {
    var s := tag + length + content + rest;
    VarintAt(s, |tag|, length);
    hide ReadVarint, Scan, Value;
    assert s[|tag + length|..|tag + length + content|] == content;
  }

  /** The number of a declared field is read if its wire type is that of a number, and nothing else is. */
  lemma {:induction false} NumberContent(f: Field, number: int32, rest: seq<byte>)
    requires WellFormed(f) && |f.tag| > 0
    ensures var s := Flat(f) + rest;
      && |f.tag| <= |s|
      && ReadContent(Number, number, Value(f.tag) % 8, s, 0, |f.tag|)
         == if f.Varint? then Ok((NumberRecord(number, Value(f.number)), |Flat(f)|))
            else Err(WrongWireType(number))
  {
    FieldTag(f, rest);
    if f.Varint? {
      NumberRead(f.tag, f.number, rest);
    }
    hide ReadVarint, ReadBytes, ReadRaw, Value, IsTag, IsVarint, FlatMembers, WellFormed;
  }

  lemma {:induction false} BytesContent(f: Field, number: int32, rest: seq<byte>)
    requires WellFormed(f) && |f.tag| > 0 && |Flat(f) + rest| <= MAX_INT
    ensures var s := Flat(f) + rest;
      && |f.tag| <= |s|
      && ReadContent(Bytes, number, Value(f.tag) % 8, s, 0, |f.tag|)
         == if f.Delimited? then Ok((BytesRecord(number, f.content), |Flat(f)|))
            else Err(WrongWireType(number))
  {
    FieldTag(f, rest);
    if f.Delimited? {
      BytesRead(f.tag, f.length, f.content, rest);
    }
    hide ReadVarint, ReadBytes, ReadRaw, Value, IsTag, IsVarint, FlatMembers, WellFormed;
  }

  lemma {:induction false} RawContent(f: Field, number: int32, rest: seq<byte>)
    requires WellFormed(f) && |f.tag| > 0 && |Flat(f) + rest| <= MAX_INT
    ensures |Flat(f)| > 0
    ensures var s := Flat(f) + rest;
      && |f.tag| <= |s|
      && ReadContent(Unknown, number, Value(f.tag) % 8, s, 0, |f.tag|) == Ok((UnknownRecord(Flat(f)), |Flat(f)|))
  {
    FieldTag(f, rest);
    SkipsField(f, rest);
    var s := Flat(f) + rest;
    assert s[0..] == s && s[0..|Flat(f)|] == Flat(f);
    hide Skip, Flat, WellFormed, ReadVarint;
  }

  /** Whatever follows it, a field is read as what it means. */
  lemma {:induction false} FieldRead(kind: int32 -> Kind, f: Field, rest: seq<byte>)
    requires WellFormed(f) && |Flat(f) + rest| <= MAX_INT
    ensures |Flat(f)| > 0
    ensures match Meaning(kind, f)
            case Some(rec) => ReadRecord(kind, Flat(f) + rest, 0) == Ok((rec, |Flat(f)|))
            case None => ReadRecord(kind, Flat(f) + rest, 0).Err?
  {
    FieldTag(f, rest);
    var number := FieldNumber(Value(f.tag));
    RawContent(f, number, rest);
    NumberContent(f, number, rest);
    BytesContent(f, number, rest);
    hide ReadVarint, ReadContent, FieldNumber, Value, Flat, WellFormed;
  }

  /** A record stands at `i` and ends at `j` exactly if these bytes are a field of the grammar that means it. */
  lemma {:induction false} ReadRecordExact(kind: int32 -> Kind, s: seq<byte>, i: nat, rec: Record, j: nat)
    requires i < |s| <= MAX_INT && i <= j <= |s|
    ensures ReadRecord(kind, s, i) == Ok((rec, j)) <==>
            exists f :: WellFormed(f) && Flat(f) == s[i..j] && Meaning(kind, f) == Some(rec)
  {
    hide ReadRecord, Skip, WellFormed, Flat, Meaning, ReadVarint, FieldNumber;
    var t := s[i..];
    if ReadRecord(kind, s, i) == Ok((rec, j)) {
      RecordExtent(kind, s, i);
      var f := FieldOf(t);
      assert t[..j - i] == s[i..j] && t[0..j - i] == s[i..j];
      assert t == Flat(f) + s[j..];
      FieldRead(kind, f, s[j..]);
      ReadRecordLocal(kind, s, i, t, 0);
    }
    forall f | WellFormed(f) && Flat(f) == s[i..j] && Meaning(kind, f) == Some(rec)
      ensures ReadRecord(kind, s, i) == Ok((rec, j))
    {
      assert t == Flat(f) + s[j..];
      FieldRead(kind, f, s[j..]);
      assert t[0..j - i] == s[i..j];
      ReadRecordLocal(kind, t, 0, s, i);
    }
  }
}
