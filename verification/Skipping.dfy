/** `skipExchange` (golang-receiver/exchange/exchange.pb.go): how far the field at the head of a slice
    reaches, and the field grammar of the Protocol Buffers encoding that it recognises. */
module Skipping {
  import opened Wire

  // ---- What the code computes -------------------------------------------------------------------

  /** The number of bytes the first field of `s` takes. Fixed-width and length-delimited fields are not
      checked against the end of `s`, and a huge declared length wraps to a negative result. */
  function Skip(s: seq<byte>): (r: Result<int>)
    ensures r.Ok? ==> r.value >= 1 || r.value < 0
    decreases |s|, 0
  {
    if |s| == 0 then Err(Panic) else
    var (wire, i) :- ReadVarint(s, 0);
    if wire % 8 == 3 then
      var n :- SkipGroup(s, i);
      Ok(n)
    else
      SkipPlain(s, wire % 8, i)
  }

  /** The wire types that do not nest, from the index after the tag. */
  function SkipPlain(s: seq<byte>, wireType: nat, i: nat): (r: Result<int>)
    requires 1 <= i <= 10
    ensures r.Ok? ==> r.value >= 1 || r.value < 0
  {
    match wireType
    case 0 => var j :- Scan(s, i, 10); Ok(j)
    case 1 => Ok(i + 8)
    case 2 =>
      var (v, j) :- ReadVarint(s, i);
      var length := ToInt64(v);
      if length < 0 then Err(InvalidLength) else Ok(AddInt(j, length))
    case 4 => Ok(i)
    case 5 => Ok(i + 4)
    case _ => Err(IllegalWireType)
  }

  /** The members of a group from `start` to the index after its end tag. A member whose length wrapped
      leaves a negative index, which panics at the next read. */
  function SkipGroup(s: seq<byte>, start: nat): (r: Result<nat>)
    ensures r.Ok? ==> start < r.value <= |s|
    decreases if start <= |s| then |s| - start else 0, 1
  {
    var (inner, i) :- ReadVarint(s, start);
    if inner % 8 == 4 then Ok(i) else
    var next :- Skip(s[start..]);
    if next < 0 || start + next > MAX_INT then Err(Panic)
    else SkipGroup(s, start + next)
  }

  lemma {:induction false} SkipCoversTag(s: seq<byte>)
    requires Skip(s).Ok? && Skip(s).value >= 0
    ensures ReadVarint(s, 0).Ok? && Skip(s).value >= ReadVarint(s, 0).value.1
  {
    hide Scan, Value;
  }

  /** The result is a Go int. */
  lemma {:induction false} SkipBound(s: seq<byte>)
    requires |s| <= MAX_INT && Skip(s).Ok?
    ensures -TWO_63 <= Skip(s).value <= MAX_INT
  {
    hide Scan, Value;
  }

  // ---- The grammar ------------------------------------------------------------------------------

  /** A field as the encoding defines it. Every byte of it is kept, since a tag or a length may be
      written with more bytes than it needs. */
  datatype Field =
    | Varint(tag: seq<byte>, number: seq<byte>)
    | Fixed(tag: seq<byte>, content: seq<byte>)
    | Delimited(tag: seq<byte>, length: seq<byte>, content: seq<byte>)
    | Group(tag: seq<byte>, members: Fields, end: seq<byte>)
    | GroupEnd(tag: seq<byte>)

  datatype Fields = Nil | Cons(head: Field, tail: Fields)

  predicate IsTag(b: seq<byte>, wireType: nat) {
    IsVarint(b) && Value(b) % 8 == wireType
  }

  predicate WellFormed(f: Field) {
    match f
    case Varint(tag, number) => IsTag(tag, 0) && IsVarint(number)
    case Fixed(tag, content) => (IsTag(tag, 1) && |content| == 8) || (IsTag(tag, 5) && |content| == 4)
    case Delimited(tag, length, content) =>
      IsTag(tag, 2) && IsVarint(length) && Value(length) == |content|
    case Group(tag, members, end) => IsTag(tag, 3) && WellFormedMembers(members) && IsTag(end, 4)
    case GroupEnd(tag) => IsTag(tag, 4)
  }

  /** Members of a group: an end tag closes the group, so it is not one of them. */
  predicate WellFormedMembers(fs: Fields) {
    match fs
    case Nil => true
    case Cons(f, rest) => WellFormed(f) && !f.GroupEnd? && WellFormedMembers(rest)
  }

  function Flat(f: Field): seq<byte> {
    match f
    case Varint(tag, number) => tag + number
    case Fixed(tag, content) => tag + content
    case Delimited(tag, length, content) => tag + length + content
    case Group(tag, members, end) => tag + FlatMembers(members) + end
    case GroupEnd(tag) => tag
  }

  function FlatMembers(fs: Fields): seq<byte> {
    match fs
    case Nil => []
    case Cons(f, rest) => Flat(f) + FlatMembers(rest)
  }

  // ---- Every field is recognised ------------------------------------------------------------------

  lemma {:induction false} TagRead(tag: seq<byte>, wireType: nat, rest: seq<byte>)
    requires IsTag(tag, wireType)
    ensures ReadVarint(tag + rest, 0) == Ok((Value(tag), |tag|))
    ensures Value(tag) % 8 == wireType
  {
    var s := tag + rest;
    assert s[0..|tag|] == tag;
    ScanAccepts(s, 0, |tag|, 10);
  }

  lemma {:induction false} VarintAt(s: seq<byte>, i: nat, b: seq<byte>)
    requires IsVarint(b) && i + |b| <= |s| && s[i..i + |b|] == b
    ensures Scan(s, i, 10) == Ok(i + |b|)
    ensures ReadVarint(s, i) == Ok((Value(b), i + |b|))
  {
    ScanAccepts(s, i, i + |b|, 10);
  }

  lemma {:induction false} SkipsVarint(tag: seq<byte>, number: seq<byte>, rest: seq<byte>)
    requires IsTag(tag, 0) && IsVarint(number)
    ensures Skip(tag + number + rest) == Ok(|tag + number|)
  {
    var s := tag + number + rest;
    assert s == tag + (number + rest);
    TagRead(tag, 0, number + rest);
    VarintAt(s, |tag|, number);
  }

  lemma {:induction false} SkipsFixed(tag: seq<byte>, content: seq<byte>, rest: seq<byte>)
    requires WellFormed(Fixed(tag, content))
    ensures Skip(tag + content + rest) == Ok(|tag + content|)
  {
    assert tag + content + rest == tag + (content + rest);
    TagRead(tag, Value(tag) % 8, content + rest);
  }

  /** A field of 64 bits takes eight bytes after its tag, one of 32 bits four. */
  lemma {:induction false} SkipsFixedBytes(b: seq<byte>, rest: seq<byte>)
    ensures |b| == 8 ==> Skip([0x09] + b + rest) == Ok(9)
    ensures |b| == 4 ==> Skip([0x0d] + b + rest) == Ok(5)
  {
    assert [0x09][1..] == [] && [0x0d][1..] == [];
    assert IsTag([0x09], 1) && IsTag([0x0d], 5);
    if |b| == 8 {
      SkipsFixed([0x09], b, rest);
    }
    if |b| == 4 {
      SkipsFixed([0x0d], b, rest);
    }
  }

  lemma {:induction false} SkipsDelimited(tag: seq<byte>, length: seq<byte>, content: seq<byte>, rest: seq<byte>)
    requires WellFormed(Delimited(tag, length, content)) && |tag + length + content| <= MAX_INT
    ensures Skip(tag + length + content + rest) == Ok(|tag + length + content|)
  {
    hide Scan, Groups, SkipGroup;
    var s := tag + length + content + rest;
    assert s == tag + (length + content + rest);
    TagRead(tag, 2, length + content + rest);
    VarintAt(s, |tag|, length);
  }

  lemma {:induction false} SkipsEnd(tag: seq<byte>, rest: seq<byte>)
    requires IsTag(tag, 4)
    ensures Skip(tag + rest) == Ok(|tag|)
  {
    TagRead(tag, 4, rest);
  }

  /** Whatever follows it, a field is skipped exactly. */
  lemma {:induction false} SkipsField(f: Field, rest: seq<byte>)
    requires WellFormed(f) && |Flat(f)| <= MAX_INT
    ensures Skip(Flat(f) + rest) == Ok(|Flat(f)|)
    decreases f, 1
  {
    hide SkipGroup, SkipPlain, Scan, Groups, IsTag, IsVarint;
    var s := Flat(f) + rest;
    match f
    case Varint(tag, number) =>
      SkipsVarint(tag, number, rest);
    case Fixed(tag, content) =>
      SkipsFixed(tag, content, rest);
    case Delimited(tag, length, content) =>
      SkipsDelimited(tag, length, content, rest);
    case Group(tag, members, end) =>
      var after := FlatMembers(members) + (end + rest);
      assert s == tag + after;
      TagRead(tag, 3, after);
      SkipsMembers(s, |tag|, members, end, rest);
    case GroupEnd(tag) =>
      SkipsEnd(tag, rest);
  }

  lemma {:induction false} SkipsMembers(s: seq<byte>, i: nat, fs: Fields, end: seq<byte>, rest: seq<byte>)
    requires WellFormedMembers(fs) && IsTag(end, 4)
    requires i <= |s| && s[i..] == FlatMembers(fs) + (end + rest)
    requires i + |FlatMembers(fs)| + |end| <= MAX_INT
    ensures SkipGroup(s, i) == Ok(i + |FlatMembers(fs)| + |end|)
    decreases fs, 0
  {
    hide Skip, SkipGroup, SkipPlain, ReadVarint, Scan, Value, Groups, IsTag, IsVarint, WellFormed, Flat;
    match fs
    case Nil =>
      SkipGroupEnds(s, i, end, rest);
    case Cons(f, more) =>
      var after := FlatMembers(more) + (end + rest);
      DropHead(s, i, Flat(f), FlatMembers(more), end + rest);
      SkipsField(f, after);
      SkipGroupMember(s, i, f, after);
      SkipsMembers(s, i + |Flat(f)|, more, end, rest);
  }

  lemma {:induction false} DropHead(s: seq<byte>, i: nat, a: seq<byte>, b: seq<byte>, c: seq<byte>)
    requires i <= |s| && s[i..] == a + b + c
    ensures s[i..] == a + (b + c) && i + |a| <= |s| && s[i + |a|..] == b + c
  {
    assert s[i + |a|..] == s[i..][|a|..];
  }

  lemma {:induction false} SkipGroupEnds(s: seq<byte>, i: nat, end: seq<byte>, rest: seq<byte>)
    requires IsTag(end, 4) && i <= |s| && s[i..] == [] + (end + rest)
    ensures SkipGroup(s, i) == Ok(i + |end|)
  {
    assert s[i..i + |end|] == end;
    VarintAt(s, i, end);
  }

  lemma {:induction false} SkipGroupMember(s: seq<byte>, i: nat, f: Field, after: seq<byte>)
    requires WellFormed(f) && !f.GroupEnd? && i + |Flat(f)| <= MAX_INT
    requires i <= |s| && s[i..] == Flat(f) + after
    requires Skip(Flat(f) + after) == Ok(|Flat(f)|)
    ensures SkipGroup(s, i) == SkipGroup(s, i + |Flat(f)|)
  {
    hide SkipPlain, Scan, Groups, Value, IsTag, IsVarint, WellFormed, Flat, FlatMembers;
    MemberTag(f, after);
    ReadVarintLocal(s[i..], 0, s, i);
    GroupStep(s, i, |Flat(f)|);
  }

  /** A member opens with a tag that does not close the group. */
  lemma {:induction false} MemberTag(f: Field, rest: seq<byte>)
    requires WellFormed(f) && !f.GroupEnd?
    ensures var r := ReadVarint(Flat(f) + rest, 0); r.Ok? && r.value.0 % 8 != 4
  {
    var tag := f.tag;
    var more := Flat(f)[|tag|..] + rest;
    assert Flat(f) + rest == tag + more;
    TagRead(tag, Value(tag) % 8, more);
  }

  // ---- Only fields are recognised ------------------------------------------------------------------

  lemma {:induction false} TagIs(s: seq<byte>, i: nat)
    requires ReadVarint(s, i).Ok?
    ensures var (v, j) := ReadVarint(s, i).value;
            IsVarint(s[i..j]) && Value(s[i..j]) == v
  {
    ScanFinds(s, i, 10);
  }

  /** The field that `Skip` passes over. */
  lemma {:induction false} FieldOf(s: seq<byte>) returns (f: Field)
    requires Skip(s).Ok? && 1 <= Skip(s).value <= |s|
    ensures WellFormed(f) && Flat(f) == s[..Skip(s).value]
    ensures f.GroupEnd? <==> ReadVarint(s, 0).value.0 % 8 == 4
    decreases |s|, 1
  {
    var (wire, i) := ReadVarint(s, 0).value;
    if wire % 8 == 3 {
      var members, end := MembersOf(s, i, SkipGroup(s, i).value);
      GroupField(s, wire, i, members, end);
      f := Group(s[..i], members, end);
    } else {
      f := PlainFieldOf(s, wire, i);
    }
  }

  lemma {:induction false} GroupField(s: seq<byte>, wire: uint64, i: nat, members: Fields, end: seq<byte>)
    requires ReadVarint(s, 0) == Ok((wire, i)) && wire % 8 == 3
    requires SkipGroup(s, i).Ok? && WellFormedMembers(members) && IsTag(end, 4)
    requires FlatMembers(members) + end == s[i..SkipGroup(s, i).value]
    ensures Skip(s) == Ok(SkipGroup(s, i).value)
    ensures var f := Group(s[..i], members, end); WellFormed(f) && Flat(f) == s[..SkipGroup(s, i).value]
  {
    hide Scan, Value, IsVarint, SkipPlain;
    TagIs(s, 0);
    assert s[..i] == s[0..i];
    assert s[..i] + FlatMembers(members) + end == s[..i] + (FlatMembers(members) + end);
  }

  lemma ThreeParts(s: seq<byte>, i: nat, j: nat, n: nat)
    requires i <= j <= n <= |s|
    ensures s[0..i] + s[i..j] + s[j..n] == s[..n] && s[0..i] + s[i..n] == s[..n]
  {
  }

  lemma {:induction false} PlainFieldOf(s: seq<byte>, wire: uint64, i: nat) returns (f: Field)
    requires ReadVarint(s, 0) == Ok((wire, i)) && wire % 8 != 3
    requires var r := SkipPlain(s, wire % 8, i); r.Ok? && i <= r.value <= |s|
    ensures WellFormed(f) && Flat(f) == s[..SkipPlain(s, wire % 8, i).value]
    ensures f.GroupEnd? <==> wire % 8 == 4
  {
    hide Groups, SkipGroup, Value, FlatMembers, WellFormedMembers;
    var n := SkipPlain(s, wire % 8, i).value;
    TagIs(s, 0);
    ThreeParts(s, i, n, n);
    if wire % 8 == 0 {
      ScanFinds(s, i, 10);
      f := Varint(s[0..i], s[i..n]);
    } else if wire % 8 == 2 {
      TagIs(s, i);
      var j := ReadVarint(s, i).value.1;
      f := Delimited(s[0..i], s[i..j], s[j..n]);
      ThreeParts(s, i, j, n);
    } else if wire % 8 == 4 {
      f := GroupEnd(s[0..i]);
    } else {
      f := Fixed(s[0..i], s[i..n]);
    }
  }

  lemma {:induction false} Joined(s: seq<byte>, i: nat, j: nat, k: nat, a: seq<byte>, b: seq<byte>, c: seq<byte>)
    requires i <= j <= k <= |s| && a == s[i..][..j - i] && b + c == s[j..k]
    ensures a + b + c == s[i..k]
  {
    assert a + b + c == a + (b + c);
  }

  lemma GroupStep(s: seq<byte>, start: nat, next: int)
    requires ReadVarint(s, start).Ok? && ReadVarint(s, start).value.0 % 8 != 4 && Skip(s[start..]) == Ok(next)
    ensures SkipGroup(s, start)
            == if next < 0 || start + next > MAX_INT then Err(Panic) else SkipGroup(s, start + next)
  {
  }

  lemma {:induction false} SkipGroupStep(s: seq<byte>, start: nat) returns (next: nat)
    requires SkipGroup(s, start).Ok? && ReadVarint(s, start).value.0 % 8 != 4
    ensures Skip(s[start..]) == Ok(next) && 1 <= next <= |s| - start
    ensures SkipGroup(s, start + next) == SkipGroup(s, start)
    ensures ReadVarint(s[start..], 0).Ok? && ReadVarint(s[start..], 0).value.0 % 8 != 4
  {
    next := Skip(s[start..]).value;
    ReadVarintLocal(s, start, s[start..], 0);
  }

  lemma {:induction false} MembersOf(s: seq<byte>, start: nat, stop: nat) returns (fs: Fields, end: seq<byte>)
    requires SkipGroup(s, start) == Ok(stop)
    ensures WellFormedMembers(fs) && IsTag(end, 4) && FlatMembers(fs) + end == s[start..stop]
    decreases if start <= |s| then |s| - start else 0, 2
  {
    hide Skip, SkipGroup, ReadVarint, IsTag, Flat, WellFormed;
    var wireType, i := GroupTag(s, start, stop);
    if wireType == 4 {
      fs, end := Nil, s[start..i];
    } else {
      var next := SkipGroupStep(s, start);
      var f := FieldOf(s[start..]);
      var rest;
      rest, end := MembersOf(s, start + next, stop);
      fs := Cons(f, rest);
      Joined(s, start, start + next, stop, Flat(f), FlatMembers(rest), end);
    }
  }

  lemma {:induction false} GroupTag(s: seq<byte>, start: nat, stop: nat) returns (wireType: nat, i: nat)
    requires SkipGroup(s, start) == Ok(stop)
    ensures start < i <= |s| && ReadVarint(s, start).Ok? && wireType == ReadVarint(s, start).value.0 % 8
    ensures wireType == 4 ==> i == stop && IsTag(s[start..i], 4)
  {
    wireType, i := ReadVarint(s, start).value.0 % 8, ReadVarint(s, start).value.1;
    TagIs(s, start);
  }

  /** `skipExchange` succeeds within its slice exactly on the slices that open with a field, and returns
      the length of that field. */
  lemma {:induction false} SkipExact(s: seq<byte>, n: nat)
    requires n <= |s| <= MAX_INT
    ensures Skip(s) == Ok(n) <==> exists f :: WellFormed(f) && Flat(f) == s[..n]
  {
    hide Skip, WellFormed, Flat;
    if Skip(s) == Ok(n) {
      var f := FieldOf(s);
    }
    forall f | WellFormed(f) && Flat(f) == s[..n]
      ensures Skip(s) == Ok(n)
    {
      assert s == Flat(f) + s[n..];
      SkipsField(f, s[n..]);
    }
  }

  /** No field is a proper prefix of another. */
  lemma {:induction false} FieldsPrefixFree(f: Field, g: Field, x: seq<byte>, y: seq<byte>)
    requires WellFormed(f) && WellFormed(g) && |Flat(f)| <= MAX_INT && |Flat(g)| <= MAX_INT
    requires Flat(f) + x == Flat(g) + y
    ensures Flat(f) == Flat(g) && x == y
  {
    hide Skip, WellFormed, Flat;
    SkipsField(f, x);
    SkipsField(g, y);
    assert Flat(f) == (Flat(f) + x)[..|Flat(f)|] && x == (Flat(f) + x)[|Flat(f)|..];
    assert Flat(g) == (Flat(g) + y)[..|Flat(g)|] && y == (Flat(g) + y)[|Flat(g)|..];
  }

  /** The result does not depend on the bytes after the field. */
  lemma {:induction false} SkipLocal(s: seq<byte>, t: seq<byte>)
    requires Skip(s).Ok? && 1 <= Skip(s).value <= |s| && Skip(s).value <= MAX_INT
    requires Skip(s).value <= |t| && t[..Skip(s).value] == s[..Skip(s).value]
    ensures Skip(t) == Skip(s)
  {
    hide Skip, WellFormed, Flat;
    var n := Skip(s).value;
    var f := FieldOf(s);
    assert t == s[..n] + t[n..];
    SkipsField(f, t[n..]);
  }

  /** The one way to a negative result: a length-delimited field at the head whose end lies beyond the
      largest int. */
  lemma SkipNegative(s: seq<byte>)
    requires Skip(s).Ok?
    ensures Skip(s).value < 0 <==>
            && ReadVarint(s, 0).value.0 % 8 == 2
            && var (v, j) := ReadVarint(s, ReadVarint(s, 0).value.1).value; j + v > MAX_INT
  {
  }

  // ---- The code ----------------------------------------------------------------------------------------

  /** `skipExchange`, with its recursion into groups. `dAtA` is a Go slice, so no longer than MAX_INT. */
  method SkipExchange(dAtA: seq<byte>) returns (r: Result<int>)
    requires |dAtA| <= MAX_INT
    ensures r == Skip(dAtA)
    decreases |dAtA|
  {
    hide Scan, Groups;
    if |dAtA| == 0 {
      return Err(Panic);  // panic("unreachable")
    }
    var wire, iNdEx, err := ReadVarintLoop(dAtA, 0, 64);
    if err.Err? {
      return Err(err.error);
    }
    match wire % 8 {
      case 0 =>
        var _, next, e := ReadVarintLoop(dAtA, iNdEx, 64);
        r := if e.Ok? then Ok(next) else Err(e.error);
      case 1 =>
        r := Ok(iNdEx + 8);
      case 2 =>
        var v, next, e := ReadVarintLoop(dAtA, iNdEx, 64);
        if e.Err? {
          return Err(e.error);
        }
        var length := ToInt64(v);
        if length < 0 {
          return Err(InvalidLength);
        }
        r := Ok(AddInt(next, length));
      case 3 =>
        var at := iNdEx;
        while true
          invariant 1 <= at
          invariant SkipGroup(dAtA, iNdEx) == SkipGroup(dAtA, at)
          decreases if at <= |dAtA| then |dAtA| - at else 0
        {
          var start := at;
          var inner, next, e := ReadVarintLoop(dAtA, at, 64);
          if e.Err? {
            return Err(e.error);
          }
          if inner % 8 == 4 {
            return Ok(next);
          }
          var skipped := SkipExchange(dAtA[start..]);
          if skipped.Err? {
            return Err(skipped.error);
          }
          WrapStaysNegative(dAtA[start..], start);
          GroupStep(dAtA, start, skipped.value);
          var moved := AddInt(start, skipped.value);
          if moved < 0 {
            return Err(Panic);  // the next read indexes below zero
          }
          at := moved;
        }
      case 4 =>
        r := Ok(iNdEx);
      case 5 =>
        r := Ok(iNdEx + 4);
      case _ =>
        r := Err(IllegalWireType);
    }
  }

  /** A length that wrapped stays negative when the start of the member is added to it. */
  lemma WrapStaysNegative(s: seq<byte>, start: nat)
    requires Skip(s).Ok? && start + |s| <= MAX_INT
    ensures Skip(s).value < 0 ==> start + Skip(s).value < 0
  {
  }
}
