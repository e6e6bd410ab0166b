/** Bytes, errors and base-128 varints, as the generated Go codec reads and writes them
    (golang-receiver/exchange/exchange.pb.go). */
module Wire {

  const TWO_31 := 0x8000_0000
  const TWO_32 := 0x1_0000_0000
  const TWO_63 := 0x8000_0000_0000_0000
  const TWO_64 := 0x1_0000_0000_0000_0000

  /** The largest value of Go's `int`, and so the longest slice. */
  const MAX_INT := TWO_63 - 1

  type byte = x: int | 0 <= x < 256
  type int32 = x: int | -TWO_31 <= x < TWO_31
  type uint64 = x: int | 0 <= x < TWO_64

  /** Why decoding stopped. `Panic` is a Go run-time panic: an index or slice bound out of range. */
  datatype Error =
    | IntOverflow
    | UnexpectedEOF
    | InvalidLength
    | EndGroup
    | IllegalTag
    | WrongWireType(field: int)
    | IllegalWireType
    | Panic

  datatype Result<+T> = Ok(value: T) | Err(error: Error) {
    predicate IsFailure() {
      Err?
    }

    function PropagateFailure<U>(): Result<U>
      requires Err?
    {
      Err(error)
    }

    function Extract(): T
      requires Ok?
    {
      value
    }
  }

  datatype Option<+T> = None | Some(value: T)

  lemma Regroup<T>(a: seq<T>, b: seq<T>, c: seq<T>)
    ensures a + b + c == a + (b + c)
  {
  }

  // ---- Width conversions --------------------------------------------------------------------

  /** Go's `int32(x)` of an unsigned value. */
  function ToInt32(x: nat): int32 {
    var y := x % TWO_32;
    if y >= TWO_31 then y - TWO_32 else y
  }

  /** Go's `int(x)` of a uint64. */
  function ToInt64(x: uint64): int {
    if x >= TWO_63 then x - TWO_64 else x
  }

  /** Go's `uint64(x)` of an int32: sign extension. */
  function SignExtend(x: int32): uint64 {
    if x < 0 then x + TWO_64 else x
  }

  /** Go's `int` addition, for sums that can only pass the upper end. */
  function AddInt(x: int, y: int): int
    requires -TWO_63 <= x + y < TWO_64
  {
    if x + y > MAX_INT then x + y - TWO_64 else x + y
  }

  // ---- Reading ------------------------------------------------------------------------------

  /** Where the varint that starts at `i` ends, when at most `left` bytes may still be read. */
  function Scan(s: seq<byte>, i: nat, left: nat): (r: Result<nat>)
    ensures r.Ok? ==> i < r.value <= |s| && r.value <= i + left
    decreases left
  {
    if left == 0 then Err(IntOverflow)
    else if i >= |s| then Err(UnexpectedEOF)
    else if s[i] < 128 then Ok(i + 1)
    else Scan(s, i + 1, left - 1)
  }

  /** How far the varint loop gets from `i`: past the last byte of a varint, or to where it gives up. */
  function Stops(s: seq<byte>, i: nat, left: nat): (j: nat)
    ensures i <= j && (i <= |s| ==> j <= |s|) && (Scan(s, i, left).Ok? ==> j == Scan(s, i, left).value)
    decreases left
  {
    if left == 0 || i >= |s| then i
    else if s[i] < 128 then i + 1
    else Stops(s, i + 1, left - 1)
  }

  /** The number written in little-endian groups of seven bits. */
  function Groups(b: seq<byte>): nat {
    if |b| == 0 then 0 else b[0] % 128 + 128 * Groups(b[1..])
  }

  /** What a 64-bit variable keeps of them. */
  function Value(b: seq<byte>): uint64 {
    Groups(b) % TWO_64
  }

  /** A 64-bit varint at `i`: its value and the index after it. */
  function ReadVarint(s: seq<byte>, i: nat): (r: Result<(uint64, nat)>)
    ensures r.Ok? ==> i < r.value.1 <= |s| && r.value.1 <= i + 10
  {
    var j :- Scan(s, i, 10);
    Ok((Value(s[i..j]), j))
  }

  /** Ten bytes at most, every one but the last with its top bit set. */
  predicate IsVarint(b: seq<byte>) {
    && 1 <= |b| <= 10
    && (forall k :: 0 <= k < |b| - 1 ==> b[k] >= 128)
    && b[|b| - 1] < 128
  }

  lemma {:induction false} ScanFinds(s: seq<byte>, i: nat, left: nat)
    requires left <= 10
    ensures Scan(s, i, left).Ok? ==>
              var j := Scan(s, i, left).value;
              IsVarint(s[i..j])
    decreases left
  {
    if left > 0 && i < |s| && s[i] >= 128 {
      ScanFinds(s, i + 1, left - 1);
      if Scan(s, i, left).Ok? {
        var j := Scan(s, i, left).value;
        assert s[i..j] == [s[i]] + s[i + 1..j];
      }
    }
  }

  lemma {:induction false} ScanAccepts(s: seq<byte>, i: nat, j: nat, left: nat)
    requires i < j <= |s| && IsVarint(s[i..j]) && j - i <= left
    ensures Scan(s, i, left) == Ok(j)
    decreases left
  {
    var b := s[i..j];
    assert b[0] == s[i];
    if j - i > 1 {
      var c := s[i + 1..j];
      assert c == b[1..];
      ScanAccepts(s, i + 1, j, left - 1);
    }
  }

  /** A successful read looks only at the bytes it consumes, wherever they stand. */
  lemma {:induction false} ReadVarintLocal(s: seq<byte>, i: nat, t: seq<byte>, k: nat)
    requires ReadVarint(s, i).Ok?
    requires var j := ReadVarint(s, i).value.1; k + j - i <= |t| && t[k..k + j - i] == s[i..j]
    ensures ReadVarint(t, k) == Ok((ReadVarint(s, i).value.0, k + ReadVarint(s, i).value.1 - i))
  {
    var j := ReadVarint(s, i).value.1;
    ScanFinds(s, i, 10);
    ScanAccepts(t, k, k + j - i, 10);
  }

  /** The reader accepts exactly the byte strings of the encoding's "Base 128 Varints" section
      (the tenth byte may carry bits that do not fit, which are dropped). */
  lemma {:induction false} ReadVarintExact(s: seq<byte>, i: nat, j: nat)
    requires i < j <= |s|
    ensures IsVarint(s[i..j]) <==> Scan(s, i, 10) == Ok(j)
  {
    ScanFinds(s, i, 10);
    if IsVarint(s[i..j]) {
      ScanAccepts(s, i, j, 10);
    }
  }

  lemma {:induction false} ScanError(s: seq<byte>, i: nat, left: nat)
    ensures Scan(s, i, left) != Err(Panic)
    decreases left
  {
    if left > 0 && i < |s| {
      ScanError(s, i + 1, left - 1);
    }
  }

  /** Reading a varint never panics. */
  lemma {:induction false} VarintError(s: seq<byte>, i: nat)
    ensures ReadVarint(s, i) != Err(Panic) && Scan(s, i, 10) != Err(Panic)
  {
    ScanError(s, i, 10);
  }

  // ---- Writing ------------------------------------------------------------------------------

  function VarintBytes(v: nat): (b: seq<byte>) {
    if v < 128 then [v] else [v % 128 + 128] + VarintBytes(v / 128)
  }

  /** `sovExchange`: how many bytes a varint takes. */
  function Sov(v: nat): nat {
    if v < 128 then 1 else 1 + Sov(v / 128)
  }

  lemma {:induction false} VarintBytesMeaning(v: nat)
    ensures Groups(VarintBytes(v)) == v && |VarintBytes(v)| == Sov(v)
  {
    if v >= 128 {
      VarintBytesMeaning(v / 128);
      assert VarintBytes(v)[1..] == VarintBytes(v / 128);
    } else {
      assert VarintBytes(v)[1..] == [];
    }
  }

  function Pow128(n: nat): nat {
    if n == 0 then 1 else 128 * Pow128(n - 1)
  }

  lemma {:induction false} VarintBytesShape(v: nat, n: nat)
    requires 1 <= n <= 10 && v < Pow128(n)
    ensures 1 <= |VarintBytes(v)| <= n && IsVarint(VarintBytes(v))
  {
    if v >= 128 {
      assert Pow128(1) == 128 * Pow128(0);
      assert v / 128 < Pow128(n - 1);
      VarintBytesShape(v / 128, n - 1);
    }
  }

  lemma {:induction false} Pow128Ten()
    ensures Pow128(10) == 0x40_0000_0000_0000_0000 && Pow128(9) == TWO_63
  {
    assert Pow128(0) == 1;
    assert Pow128(1) == 0x80;
    assert Pow128(2) == 0x4000;
    assert Pow128(3) == 0x20_0000;
    assert Pow128(4) == 0x1000_0000;
    assert Pow128(5) == 0x8_0000_0000;
    assert Pow128(6) == 0x400_0000_0000;
    assert Pow128(7) == 0x2_0000_0000_0000;
    assert Pow128(8) == 0x100_0000_0000_0000;
    assert Pow128(9) == TWO_63;
  }

  /** Every uint64 is written in `Sov(v)` bytes, one to ten of them, and read back from them. */
  lemma {:induction false} VarintRoundTrip(v: uint64, before: seq<byte>, after: seq<byte>)
    ensures 1 <= Sov(v) <= 10 && |VarintBytes(v)| == Sov(v) && IsVarint(VarintBytes(v))
    ensures ReadVarint(before + VarintBytes(v) + after, |before|) == Ok((v, |before| + Sov(v)))
  {
    hide VarintBytes, Sov, Groups, Pow128;
    Pow128Ten();
    VarintBytesShape(v, 10);
    VarintBytesMeaning(v);
    var s := before + VarintBytes(v) + after;
    assert s[|before|..|before| + Sov(v)] == VarintBytes(v);
    ScanAccepts(s, |before|, |before| + Sov(v), 10);
  }

  /** No varint of the same value is shorter than the one written. */
  lemma {:induction false} VarintShortest(b: seq<byte>)
    requires |b| >= 1
    ensures |b| >= Sov(Groups(b))
  {
    if |b| > 1 {
      VarintShortest(b[1..]);
      if Groups(b) >= 128 {
        assert Groups(b) / 128 == Groups(b[1..]);
      }
    } else {
      assert b[1..] == [];
    }
  }

  /** A negative int32 is sign-extended to ten bytes, and the 32-bit read loop, which keeps the low
      32 bits of the same groups, gives it back. */
  lemma {:induction false} Int32RoundTrip(x: int32)
    ensures ToInt32(SignExtend(x)) == x
    ensures x < 0 ==> Sov(SignExtend(x)) == 10
  {
    hide Sov, VarintBytes, ReadVarint, IsVarint, Pow128;
    if x < 0 {
      Pow128Ten();
      SovLower(SignExtend(x), 9);
      VarintRoundTrip(SignExtend(x), [], []);
    }
  }

  /** The conversions between widths keep the low bits, and the ranges of their results leave no choice. */
  lemma {:induction false} TwosComplement(x: nat, y: uint64, z: int32)
    ensures ToInt32(x) % TWO_32 == x % TWO_32 && -TWO_31 <= ToInt32(x) < TWO_31
    ensures ToInt64(y) % TWO_64 == y && -TWO_63 <= ToInt64(y) < TWO_63
    ensures SignExtend(z) % TWO_64 == z % TWO_64
  {
  }

  /** The example of the encoding's "Base 128 Varints" section. */
  lemma {:induction false} VarintExample()
    ensures VarintBytes(300) == [0xac, 0x02] && VarintBytes(150) == [0x96, 0x01]
  {
    assert VarintBytes(2) == [2] && VarintBytes(1) == [1];
  }

  lemma {:induction false} SovLower(v: nat, n: nat)
    requires v >= Pow128(n)
    ensures Sov(v) > n
  {
    if n == 0 {
    } else {
      SovLower(v / 128, n - 1);
      Pow128Positive(n - 1);
    }
  }

  lemma {:induction false} Pow128Positive(n: nat)
    ensures Pow128(n) > 0
  {
    if n == 0 {
    } else {
      Pow128Positive(n - 1);
    }
  }

  // ---- The loops of the generated code --------------------------------------------------------

  lemma {:induction false} GroupsSnoc(b: seq<byte>, x: byte)
    ensures Groups(b + [x]) == Groups(b) + (x % 128) * Pow128(|b|)
  {
    if |b| == 0 {
      assert b + [x] == [x] && [x][1..] == [];
    } else {
      GroupsSnoc(b[1..], x);
      assert (b + [x])[1..] == b[1..] + [x];
      assert Pow128(|b|) == 128 * Pow128(|b| - 1);
    }
  }

  lemma ScanStep(s: seq<byte>, i: nat, left: nat)
    ensures Scan(s, i, left) == if left == 0 then Err(IntOverflow)
                                else if i >= |s| then Err(UnexpectedEOF)
                                else if s[i] < 128 then Ok(i + 1)
                                else Scan(s, i + 1, left - 1)
  {
  }

  lemma StopsStep(s: seq<byte>, i: nat, left: nat)
    ensures Stops(s, i, left) == if left == 0 || i >= |s| then i
                                 else if s[i] < 128 then i + 1
                                 else Stops(s, i + 1, left - 1)
  {
  }

  // ---- Bits ------------------------------------------------------------------------------------------

  function Pow2(n: nat): (p: nat)
    ensures p > 0
  {
    if n == 0 then 1 else 2 * Pow2(n - 1)
  }

  /** Bitwise or. */
  function BitOr(x: nat, y: nat): nat
    decreases x
  {
    if x == 0 then y else (if x % 2 == 1 || y % 2 == 1 then 1 else 0) + 2 * BitOr(x / 2, y / 2)
  }

  /** `x << shift` in a variable of that many bits, whatever the shift. */
  function ShiftLeft(x: nat, shift: nat, width: nat): nat {
    x * Pow2(shift) % Pow2(width)
  }

  lemma {:induction false} Pow2Sum(m: nat, n: nat)
    ensures Pow2(m + n) == Pow2(m) * Pow2(n)
  {
    if m == 0 {
    } else {
      Pow2Sum(m - 1, n);
      assert Pow2(m + n) == 2 * (Pow2(m - 1) * Pow2(n)) == (2 * Pow2(m - 1)) * Pow2(n);
    }
  }

  lemma Pow2Step(k: nat)
    ensures Pow2(0) == 1 && Pow2(k + 1) == 2 * Pow2(k)
  {
  }

  lemma {:induction false} Pow2Values()
    ensures Pow2(7) == 128 && Pow2(32) == TWO_32 && Pow2(64) == TWO_64
  {
    hide Pow2;
    Pow2Step(0);
    Pow2Sum(1, 1);
    Pow2Sum(2, 1);
    Pow2Sum(2, 2);
    Pow2Sum(4, 3);
    Pow2Sum(4, 4);
    Pow2Sum(8, 8);
    Pow2Sum(16, 16);
    Pow2Sum(32, 32);
  }

  lemma {:induction false} Pow2OfGroups(k: nat)
    ensures Pow2(7 * k) == Pow128(k)
  {
    if k == 0 {
    } else {
      Pow2OfGroups(k - 1);
      Pow2Sum(7, 7 * (k - 1));
      Pow2Values();
    }
  }

  lemma {:induction false} OrStepDown(x: nat, y: nat)
    ensures BitOr(0, y) == y
    ensures BitOr(x, 2 * y) == x % 2 + 2 * BitOr(x / 2, y)
  {
    if x > 0 {
      assert 2 * y % 2 == 0 && 2 * y / 2 == y;
    } else {
      assert BitOr(0, 2 * y) == 2 * y && BitOr(0 / 2, y) == y;
    }
  }

  lemma Moved(a: int, b: int, c: int)
    ensures a * (b * c) == (a * b) * c == b * (a * c)
  {
  }

  /** Bits below `2^k` and a multiple of it do not overlap, so joining them is adding them. */
  lemma {:induction false} OrIsSum(x: nat, q: nat, k: nat)
    requires x < Pow2(k)
    ensures BitOr(x, q * Pow2(k)) == x + q * Pow2(k)
    decreases k
  {
    hide BitOr, Pow2;
    Pow2Step(if k == 0 then 0 else k - 1);
    if k == 0 {
      OrStepDown(x, q);
      assert x == 0 && q * Pow2(k) == q;
    } else {
      var y := q * Pow2(k - 1);
      Moved(q, 2, Pow2(k - 1));
      OrIsSum(x / 2, q, k - 1);
      OrStepDown(x, y);
      assert q * Pow2(k) == 2 * y;
    }
  }

  /** Division with remainder has one answer. */
  lemma {:induction false} RemainderIs(x: nat, m: nat, q: nat, r: nat)
    requires r < m && x == q * m + r
    ensures x % m == r && x / m == q
  {
    var k := x / m - q;
    assert x == m * (x / m) + x % m;
    assert m * k == m * (x / m) - m * q == r - x % m;
    assert k >= 1 ==> m * (k - 1) >= 0 && m * k == m + m * (k - 1);
    assert k <= -1 ==> m * (-1 - k) >= 0 && m * k + m + m * (-1 - k) == 0;
  }

  lemma {:induction false} Scaled(a: nat, b: nat, p: nat)
    requires a <= b
    ensures a * p <= b * p
  {
    assert (b - a) * p >= 0;
    assert b * p == a * p + (b - a) * p;
  }

  lemma {:induction false} KeptAndLost(group: nat, d: nat, p: nat) returns (kept: nat, lost: nat)
    requires d > 0 && p > 0
    ensures group * p == lost * (d * p) + kept * p && kept * p + p <= d * p
    ensures d * p > 0 && group * p % (d * p) == kept * p
  {
    kept, lost := group % d, group / d;
    var whole := lost * d;
    assert group == whole + kept;
    assert (whole + kept) * p == whole * p + kept * p;
    Moved(lost, d, p);
    Scaled(kept + 1, d, p);
    assert (kept + 1) * p == kept * p + p;
    RemainderIs(group * p, d * p, lost, kept * p);
  }

  /** A group's bits that still fit, and those that are shifted out. */
  lemma {:induction false} Shifted(group: nat, shift: nat, width: nat) returns (kept: nat, lost: nat)
    ensures ShiftLeft(group, shift, width) == kept * Pow2(shift)
    ensures group * Pow2(shift) == lost * Pow2(width) + kept * Pow2(shift)
    ensures if shift <= width then kept * Pow2(shift) + Pow2(shift) <= Pow2(width) else kept == 0
  {
    if shift <= width {
      Pow2Sum(width - shift, shift);
      hide Pow2;
      kept, lost := KeptAndLost(group, Pow2(width - shift), Pow2(shift));
    } else {
      Pow2Sum(shift - width, width);
      hide Pow2;
      kept, lost := 0, group * Pow2(shift - width);
      Moved(group, Pow2(shift - width), Pow2(width));
      RemainderIs(group * Pow2(shift), Pow2(width), lost, 0);
    }
  }

  /** One statement `v |= group << shift` of a loop: with only bits below the shift set, it adds the group at
      its place, without those of its bits that the variable does not hold. */
  lemma {:induction false} OrStep(v: nat, group: nat, shift: nat, width: nat)
    requires v < Pow2(shift) && v < Pow2(width)
    ensures BitOr(v, ShiftLeft(group, shift, width)) == (v + group * Pow2(shift)) % Pow2(width)
  {
    hide BitOr, ShiftLeft, Pow2;
    var kept, lost := Shifted(group, shift, width);
    var p, m := Pow2(shift), Pow2(width);
    var held, all, out := kept * p, group * p, lost * m;
    if shift <= width {
      OrIsSum(v, kept, shift);
    } else {
      OrIsSum(v, 0, width);
      assert held == 0 == 0 * m;
    }
    assert v + all == out + (v + held) && v + held < m;
    RemainderIs(v + all, m, lost, v + held);
  }

  /** The bits a variable of 64 or 32 bits holds. */
  function Modulus(width: nat): nat {
    if width == 64 then TWO_64 else TWO_32
  }

  lemma {:induction false} GroupsBound(b: seq<byte>)
    ensures Groups(b) < Pow128(|b|)
  {
    if |b| == 0 {
    } else {
      GroupsBound(b[1..]);
    }
  }

  lemma {:induction false} ModAdd(g: nat, y: nat, m: nat)
    requires m > 0
    ensures (g % m + y) % m == (g + y) % m
  {
    var q, v := g / m, g % m;
    var c, r := (v + y) / m, (v + y) % m;
    assert g == q * m + v && v + y == c * m + r;
    Distributes(q, c, m);
    RemainderIs(g + y, m, q + c, r);
  }

  lemma Distributes(a: nat, b: nat, m: nat)
    ensures (a + b) * m == a * m + b * m
  {
  }

  /** What a variable holds of the groups from `i` to `j`. */
  function SoFar(s: seq<byte>, i: nat, j: nat, width: nat): nat {
    if i <= j <= |s| then Groups(s[i..j]) % Modulus(width) else 0
  }

  lemma NothingYet(s: seq<byte>, i: nat, width: nat)
    ensures SoFar(s, i, i, width) == 0
  {
  }

  /** What the next byte of a varint does to the variable. */
  lemma {:induction false} ReadOneMore(s: seq<byte>, start: nat, i: nat, width: nat)
    requires width == 64 || width == 32
    requires start <= i < |s|
    ensures BitOr(SoFar(s, start, i, width), ShiftLeft(s[i] % 128, 7 * (i - start), width))
            == SoFar(s, start, i + 1, width)
  {
    var b, group, shift := s[start..i], s[i] % 128, 7 * (i - start);
    assert s[start..i + 1] == b + [s[i]];
    GroupsSnoc(b, s[i]);
    GroupsBound(b);
    Pow2OfGroups(i - start);
    Pow2Values();
    hide Groups, Pow128, Pow2, ShiftLeft, BitOr;
    GroupJoins(Groups(b), group, shift, width);
  }

  lemma {:induction false} ModBelow(g: nat, m: nat)
    requires m > 0
    ensures 0 <= g % m < m && g % m <= g
  {
    assert g == g / m * m + g % m;
    assert g / m >= 0 && g / m * m >= 0;
  }

  lemma {:induction false} GroupJoins(g: nat, group: nat, shift: nat, width: nat)
    requires width == 64 || width == 32
    requires g < Pow2(shift) && Pow2(width) == Modulus(width)
    ensures BitOr(g % Modulus(width), ShiftLeft(group, shift, width)) == (g + group * Pow2(shift)) % Modulus(width)
  {
    hide Modulus, Pow2, ShiftLeft, BitOr;
    var m := Modulus(width);
    ModAdd(g, group * Pow2(shift), m);
    ModBelow(g, m);
    OrStep(g % m, group, shift, width);
  }

  /** Read the varint at `start` into a variable of 64 bits, as for the uint64 and int loops, or of 32, as for
      the int32 ones. After an error the variable holds what had been read. The code repeats this loop inline
      for every tag, length and scalar. */
  method ReadVarintLoop(dAtA: seq<byte>, start: nat, width: nat)
    returns (v: nat, next: nat, err: Result<()>)
    requires width == 64 || width == 32
    ensures err == (match Scan(dAtA, start, 10) case Ok(_) => Ok(()) case Err(e) => Err(e))
    ensures err.Ok? ==> Scan(dAtA, start, 10) == Ok(next)
    ensures next == Stops(dAtA, start, 10) && v == SoFar(dAtA, start, next, width)
  {
    hide Scan, Stops, BitOr, ShiftLeft, SoFar;
    NothingYet(dAtA, start, width);
    var iNdEx := start;
    var shift := 0;
    v, next, err := 0, start, Ok(());
    while true
      invariant 0 <= shift <= 70 && shift == 7 * (iNdEx - start)
      invariant start < iNdEx ==> iNdEx <= |dAtA|
      invariant v == SoFar(dAtA, start, iNdEx, width)
      invariant Scan(dAtA, start, 10) == Scan(dAtA, iNdEx, 10 - (iNdEx - start))
      invariant Stops(dAtA, start, 10) == Stops(dAtA, iNdEx, 10 - (iNdEx - start))
      invariant err.Ok?
      decreases 70 - shift
    {
      ScanStep(dAtA, iNdEx, 10 - (iNdEx - start));
      StopsStep(dAtA, iNdEx, 10 - (iNdEx - start));
      if shift >= 64 {
        return v, iNdEx, Err(IntOverflow);
      }
      if iNdEx >= |dAtA| {
        return v, iNdEx, Err(UnexpectedEOF);
      }
      var b := dAtA[iNdEx];
      iNdEx := iNdEx + 1;
      ReadOneMore(dAtA, start, iNdEx - 1, width);
      v := BitOr(v, ShiftLeft(b % 128, shift, width));
      if b < 128 {
        return v, iNdEx, Ok(());
      }
      shift := shift + 7;
    }
  }

  /** `now` is `was` with `done` written at `lo`. */
  ghost predicate Wrote(now: seq<byte>, was: seq<byte>, lo: nat, done: seq<byte>) {
    && |now| == |was| && lo + |done| <= |was|
    && now == was[..lo] + done + was[lo + |done|..]
  }

  lemma {:induction false} WroteMore(a: seq<byte>, b: seq<byte>, c: seq<byte>, lo: nat, d: seq<byte>, e: seq<byte>)
    requires Wrote(b, a, lo, d) && Wrote(c, b, lo + |d|, e)
    ensures Wrote(c, a, lo, d + e)
  {
    assert b[..lo + |d|] == a[..lo] + d;
    assert b[lo + |d| + |e|..] == a[lo + |d| + |e|..];
  }

  lemma WroteNothing(a: seq<byte>, lo: nat)
    requires lo <= |a|
    ensures Wrote(a, a, lo, [])
  {
  }

  /** `encodeVarintExchange`: writes `v` at `offset` and returns the index after it. */
  method EncodeVarint(dAtA: array<byte>, offset: nat, v: uint64) returns (next: nat)
    requires offset + Sov(v) <= dAtA.Length
    modifies dAtA
    ensures next == offset + Sov(v)
    ensures Wrote(dAtA[..], old(dAtA[..]), offset, VarintBytes(v))
  {
    hide Groups, BitOr;
    var x: nat, i := v, offset;
    VarintBytesMeaning(v);
    ghost var done: seq<byte> := [];
    while x >= 128
      invariant offset <= i
      invariant |done| == i - offset && done + VarintBytes(x) == VarintBytes(v)
      invariant forall k :: 0 <= k < i - offset ==> dAtA[offset + k] == done[k]
      invariant forall k :: 0 <= k < offset || i <= k < dAtA.Length ==> dAtA[k] == old(dAtA[k])
    {
      WriteOne(done, x);
      NonEmptyVarint(x);
      TopBit(x % 128);
      dAtA[i] := BitOr(x % 128, 128);
      done := done + [x % 128 + 128];
      i := i + 1;
      x := x / 128;
    }
    assert VarintBytes(x) == [x];
    dAtA[i] := x;
    next := i + 1;
    assert VarintBytes(v) == done + [x] && next == offset + |done| + 1;
    WroteElements(dAtA[..], old(dAtA[..]), offset, done + [x]);
  }

  lemma WroteElements(now: seq<byte>, was: seq<byte>, lo: nat, done: seq<byte>)
    requires |now| == |was| && lo + |done| <= |was|
    requires forall k :: 0 <= k < |done| ==> now[lo + k] == done[k]
    requires forall k :: 0 <= k < lo || lo + |done| <= k < |now| ==> now[k] == was[k]
    ensures Wrote(now, was, lo, done)
  {
  }

  lemma {:induction false} TopBit(x: nat)
    requires x < 128
    ensures BitOr(x, 128) == x + 128
  {
    Pow2Values();
    OrIsSum(x, 1, 7);
  }

  lemma NonEmptyVarint(x: nat)
    ensures |VarintBytes(x)| >= 1
  {
  }

  lemma WriteOne(done: seq<byte>, x: nat)
    requires x >= 128
    ensures done + VarintBytes(x) == done + [x % 128 + 128] + VarintBytes(x / 128)
  {
  }

  /** `sovExchange`. */
  method SovLoop(v: uint64) returns (n: nat)
    ensures n == |VarintBytes(v)| && 1 <= n <= 10
  {
    var x: nat := v;
    n := 0;
    VarintBytesMeaning(v);
    VarintRoundTrip(v, [], []);
    while true
      invariant 0 <= x && n + Sov(x) == Sov(v)
      decreases x + if n == 0 then 1 else 0
    {
      n := n + 1;
      x := x / 128;
      if x == 0 {
        break;
      }
    }
  }
}
