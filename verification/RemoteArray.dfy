/** Arrays kept by the C++ receiver (cpp-receiver/helpers.h, cpp-receiver/main.cpp) and the Kotlin
    `ArrayHandle` that makes them look local (ProcessDataExchange.kt). */
module RemoteArray {
  import opened Wire
  import opened Decimal

  type int8 = x: int | -128 <= x < 128

  /** A Kotlin `Char`: 16 bits. */
  type char16 = x: nat | x < 0x1_0000

  // ---- Characters on their way ---------------------------------------------------------------------------

  /** `static_cast<char>` of the integer that was sent: its low byte, signed. */
  function ToByte(x: int): int8 {
    var low := x % 256;
    if low >= 128 then low - 256 else low
  }

  /** Kotlin's `Long.toChar`: the low 16 bits. */
  function ToChar16(x: int): char16 {
    x % 0x1_0000
  }

  /** What is read back of a character that was stored. */
  function Stored(c: char16): char16 {
    ToChar16(ToByte(c))
  }

  /** What is read of an array of bytes. */
  function AsChars(bytes: seq<int8>): (s: seq<char16>)
    ensures |s| == |bytes| && forall i :: 0 <= i < |s| ==> s[i] == ToChar16(bytes[i])
  {
    seq(|bytes|, i requires 0 <= i < |bytes| => ToChar16(bytes[i]))
  }

  function StoredAll(s: seq<char16>): (t: seq<char16>)
    ensures |t| == |s| && forall i :: 0 <= i < |s| ==> t[i] == Stored(s[i])
  {
    seq(|s|, i requires 0 <= i < |s| => Stored(s[i]))
  }

  predicate Survives(c: char16) {
    c < 128 || c >= 0xff80
  }

  /** Exactly the characters below 128 and the last 128 survive; all others are turned into one of those. */
  lemma StoredExact(c: char16)
    ensures Stored(c) == c <==> Survives(c)
    ensures Survives(Stored(c)) && Stored(c) % 256 == c % 256
  {
  }

  lemma {:induction false} StoredAllExact(s: seq<char16>)
    ensures StoredAll(s) == s <==> forall i :: 0 <= i < |s| ==> Survives(s[i])
  {
    forall i | 0 <= i < |s|
      ensures Stored(s[i]) == s[i] <==> Survives(s[i])
    {
      StoredExact(s[i]);
    }
    hide Stored, Survives;
    if StoredAll(s) == s {
      assert forall i :: 0 <= i < |s| ==> StoredAll(s)[i] == s[i];
    }
  }

  // ---- Ids -------------------------------------------------------------------------------------------------

  /** The id of the `n`-th use of the 64-bit counter. */
  function IdOf(n: nat): string {
    Natural(n % TWO_64)
  }

  lemma {:induction false} NumeralsDiffer(a: nat, b: nat)
    ensures Natural(a) == Natural(b) <==> a == b
  {
    NaturalReadsBack(a);
    NaturalReadsBack(b);
    hide Natural;
  }

  lemma {:induction false} GoneRound(m: nat, d: nat, k: nat)
    requires k > 0
    ensures (m + d) % k == m % k <==> d % k == 0
  {
    ModBelow(m, k);
    ModBelow(d, k);
    ModAdd(m, d, k);
    ModAdd(d, m % k, k);
    var a, r := m % k, d % k;
    assert (m + d) % k == (r + a) % k;
    RemainderIs(r + a, k, if r + a < k then 0 else 1, if r + a < k then r + a else r + a - k);
  }

  /** Two uses get the same id exactly when the counter has gone round between them, any number of times. */
  lemma {:induction false} IdsRepeatAfterWrap(m: nat, n: nat)
    requires m <= n
    ensures IdOf(m) == IdOf(n) <==> (n - m) % TWO_64 == 0
  {
    GoneRound(m, n - m, TWO_64);
    NumeralsDiffer(m % TWO_64, n % TWO_64);
    hide Natural;
  }

  lemma CounterStep(n: nat)
    ensures (n + 1) % TWO_64 == if n % TWO_64 == TWO_64 - 1 then 0 else n % TWO_64 + 1
  {
  }

  // ---- The receiver ----------------------------------------------------------------------------------------

  /** What a pointer of `persistence` leads to. Handle arrays hold values of the library's type `V`, and a
      single value is what an element's id stands for. */
  datatype Cell<V> = Chars(cs: array<int8>) | Handles(hs: array<V>) | Single(v: V)

  function Block<V>(cell: Cell<V>): object? {
    match cell
    case Chars(cs) => cs
    case Handles(hs) => hs
    case Single(_) => null
  }

  /** All of these ids were issued in the first `uses` uses of the counter. */
  ghost predicate Issued(ids: set<string>, uses: nat) {
    forall id :: id in ids ==> exists n: nat :: n < uses && IdOf(n) == id
  }

  lemma {:induction false} NewId(ids: set<string>, uses: nat)
    requires Issued(ids, uses)
    ensures uses < TWO_64 ==> IdOf(uses) !in ids
    ensures Issued(ids, uses + 1) && Issued(ids + {IdOf(uses)}, uses + 1)
  {
    hide IdOf;
    if uses < TWO_64 && IdOf(uses) in ids {
      var n: nat :| n < uses && IdOf(n) == IdOf(uses);
      IdsRepeatAfterWrap(n, uses);
      assert false;
    }
  }

  class Receiver<V> {
    /** A value of `V` with all bytes zero, as `calloc` leaves it. */
    const zero: V
    var counter: uint64
    var persistence: map<string, Cell<V>>
    ghost var uses: nat

    /** No two ids lead to the same array. */
    ghost predicate Valid()
      reads this
    {
      && counter == uses % TWO_64
      && forall a, b :: a in persistence && b in persistence && a != b && Block(persistence[a]) != null ==>
           Block(persistence[a]) != Block(persistence[b])
    }

    /** All ids in use were issued by the counter. */
    ghost predicate OnlyIssued()
      reads this
    {
      Issued(persistence.Keys, uses)
    }

    constructor (zero: V)
      ensures Valid() && OnlyIssued() && persistence == map[] && this.zero == zero
    {
      this.zero, counter, persistence, uses := zero, 0, map[], 0;
    }

    /** The id that a response gets: the one asked for, or the next number. As long as the counter has not
        wrapped, a number it gives is not in use. */
    method AssignId(requested: string) returns (id: string)
      requires Valid()
      modifies this`counter, this`uses
      ensures Valid() && persistence == old(persistence) && uses == old(uses) + (if requested == "" then 1 else 0)
      ensures requested != "" ==> id == requested
      ensures requested == "" ==> id == IdOf(old(uses))
      ensures old(OnlyIssued()) ==> OnlyIssued()
      ensures requested == "" && old(OnlyIssued()) ==> Issued(persistence.Keys + {id}, uses)
      ensures requested == "" && old(OnlyIssued()) && uses <= TWO_64 ==> id !in persistence
    {
      if requested != "" {
        return requested;
      }
      hide Natural;
      id := Natural(counter);
      CounterStep(uses);
      counter := if counter == TWO_64 - 1 then 0 else counter + 1;
      uses := uses + 1;
      if old(OnlyIssued()) {
        NewId(persistence.Keys, uses - 1);
      }
    }

    /** Store a new object: under a fresh id nothing is overwritten. */
    method Put(id: string, cell: Cell<V>)
      requires Valid()
      requires forall a :: a in persistence ==>
                 Block(persistence[a]) == null || Block(persistence[a]) != Block(cell)
      modifies this`persistence
      ensures Valid() && persistence == old(persistence)[id := cell]
    {
      persistence := persistence[id := cell];
    }

    /** `librarylink_mem_alloc<char>`. */
    method AllocateChars(size: nat) returns (id: string)
      requires Valid() && OnlyIssued() && uses < TWO_64
      modifies this
      ensures Valid() && OnlyIssued() && uses == old(uses) + 1
      ensures id !in old(persistence)
      ensures id in persistence && persistence == old(persistence)[id := persistence[id]]
      ensures persistence[id].Chars? && fresh(persistence[id].cs)
      ensures persistence[id].cs[..] == seq(size, _ => 0)
    {
      hide Issued, IdOf;
      id := AssignId("");
      var cells := new int8[size](_ => 0);
      Put(id, Chars(cells));
      assert persistence.Keys == old(persistence).Keys + {id};
    }

    /** `librarylink_mem_alloc<T>` for a library type. */
    method AllocateHandles(size: nat) returns (id: string)
      requires Valid() && OnlyIssued() && uses < TWO_64
      modifies this
      ensures Valid() && OnlyIssued() && uses == old(uses) + 1
      ensures id !in old(persistence)
      ensures id in persistence && persistence == old(persistence)[id := persistence[id]]
      ensures persistence[id].Handles? && fresh(persistence[id].hs)
      ensures persistence[id].hs[..] == seq(size, _ => zero)
    {
      hide Issued, IdOf;
      id := AssignId("");
      var cells := new V[size](_ => zero);
      Put(id, Handles(cells));
      assert persistence.Keys == old(persistence).Keys + {id};
    }

    /** `librarylink_set<char>`: the request takes an id, but nothing is stored under it. */
    method SetChar(objectID: string, pos: nat, value: int)
      requires Valid() && OnlyIssued()
      requires objectID in persistence && persistence[objectID].Chars? && pos < persistence[objectID].cs.Length
      modifies this`counter, this`uses, persistence[objectID].cs
      ensures Valid() && OnlyIssued() && uses == old(uses) + 1
      ensures persistence[objectID].cs[..] == old(persistence[objectID].cs[..])[pos := ToByte(value)]
    {
      hide Issued, IdOf, ToByte;
      var id := AssignId("");
      persistence[objectID].cs[pos] := ToByte(value);
    }

    /** `librarylink_get<char>`. */
    method GetChar(objectID: string, pos: nat) returns (value: int)
      requires Valid() && OnlyIssued()
      requires objectID in persistence && persistence[objectID].Chars? && pos < persistence[objectID].cs.Length
      modifies this`counter, this`uses
      ensures Valid() && OnlyIssued() && uses == old(uses) + 1
      ensures value == persistence[objectID].cs[pos]
    {
      hide Issued, IdOf;
      var id := AssignId("");
      value := persistence[objectID].cs[pos];
    }

    /** `librarylink_set<T>`: the value is looked up under its id and copied. */
    method SetHandle(objectID: string, pos: nat, element: string)
      requires Valid() && OnlyIssued()
      requires objectID in persistence && persistence[objectID].Handles? && pos < persistence[objectID].hs.Length
      requires element in persistence && persistence[element].Single?
      modifies this`counter, this`uses, persistence[objectID].hs
      ensures Valid() && OnlyIssued() && uses == old(uses) + 1
      ensures persistence[objectID].hs[..] == old(persistence[objectID].hs[..])[pos := persistence[element].v]
    {
      hide Issued, IdOf;
      var id := AssignId("");
      persistence[objectID].hs[pos] := persistence[element].v;
    }

    /** `librarylink_get<T>`: a copy of the element, under an id of its own. */
    method GetHandle(objectID: string, pos: nat) returns (id: string)
      requires Valid() && OnlyIssued() && uses < TWO_64
      requires objectID in persistence && persistence[objectID].Handles? && pos < persistence[objectID].hs.Length
      modifies this
      ensures Valid() && OnlyIssued() && uses == old(uses) + 1
      ensures id !in old(persistence)
      ensures persistence == old(persistence)[id := Single(old(persistence[objectID].hs[pos]))]
    {
      hide Issued, IdOf;
      id := AssignId("");
      Put(id, Single(persistence[objectID].hs[pos]));
      assert persistence.Keys == old(persistence).Keys + {id};
    }
  }

  // ---- The client's array of characters ------------------------------------------------------------------

  class CharArrayHandle<V> {
    const receiver: Receiver<V>
    const size: nat
    var assignedID: string

    ghost predicate Valid()
      reads this, receiver
    {
      && receiver.Valid() && receiver.OnlyIssued()
      && assignedID in receiver.persistence && receiver.persistence[assignedID].Chars?
      && receiver.persistence[assignedID].cs.Length == size
    }

    ghost function Cells(): array<int8>
      requires Valid()
      reads this, receiver
    {
      receiver.persistence[assignedID].cs
    }

    /** The elements, as `Get` reads them. */
    ghost function Contents(): (s: seq<char16>)
      requires Valid()
      reads this, receiver, Cells()
      ensures |s| == size
    {
      AsChars(Cells()[..])
    }

    /** `toArrayHandle`: allocate, then set element by element. */
    constructor (receiver: Receiver<V>, src: seq<char16>)
      requires receiver.Valid() && receiver.OnlyIssued() && receiver.uses < TWO_64
      modifies receiver
      ensures Valid() && this.receiver == receiver && size == |src|
      ensures fresh(Cells()) && assignedID !in old(receiver.persistence)
      ensures receiver.persistence == old(receiver.persistence)[assignedID := Chars(Cells())]
      ensures Contents() == StoredAll(src)
    {
      this.receiver, size := receiver, |src|;
      new;
      hide ToChar16, Stored;
      assignedID := receiver.AllocateChars(size);
      label Allocated:
      for i := 0 to |src|
        invariant Valid() && Cells() == old@Allocated(Cells())
        invariant receiver.persistence == old@Allocated(receiver.persistence)
        invariant assignedID == old@Allocated(assignedID)
        invariant Contents()[..i] == StoredAll(src)[..i]
      {
        var previous := Set(i, src[i]);
        assert Contents()[..i + 1] == Contents()[..i] + [Stored(src[i])];
        assert StoredAll(src)[..i + 1] == StoredAll(src)[..i] + [Stored(src[i])];
      }
      assert Contents() == Contents()[..|src|] && StoredAll(src) == StoredAll(src)[..|src|];
    }

    /** Read the array element by element. */
    method ToList() returns (list: seq<char16>)
      requires Valid()
      modifies receiver`counter, receiver`uses
      ensures Valid() && list == Contents() == old(Contents())
    {
      list := [];
      for i := 0 to size
        invariant Valid() && Contents() == old(Contents()) && list == Contents()[..i]
      {
        var c := Get(i);
        assert Contents()[..i + 1] == Contents()[..i] + [c];
        list := list + [c];
      }
    }

    method Get(index: nat) returns (c: char16)
      requires Valid() && index < size
      modifies receiver`counter, receiver`uses
      ensures Valid() && c == Contents()[index]
      ensures Contents() == old(Contents())
    {
      hide ToChar16;
      var value := receiver.GetChar(assignedID, index);
      c := ToChar16(value);
    }

    /** Returns what was there, and changes this cell of this array only. */
    method Set(index: nat, element: char16) returns (previous: char16)
      requires Valid() && index < size
      modifies receiver`counter, receiver`uses, Cells()
      ensures Valid() && Cells() == old(Cells())
      ensures previous == old(Contents())[index]
      ensures Contents() == old(Contents())[index := Stored(element)]
    {
      hide ToChar16, ToByte;
      previous := Get(index);
      receiver.SetChar(assignedID, index, element);
    }
  }

  // ---- What is kept ------------------------------------------------------------------------------------

  /** Nothing that was stored has been lost or replaced. */
  ghost predicate Kept<V>(before: map<string, Cell<V>>, after: map<string, Cell<V>>) {
    forall id :: id in before ==> id in after && after[id] == before[id]
  }

  /** These ids stand for these values. */
  ghost predicate Denote<V>(persistence: map<string, Cell<V>>, ids: seq<string>, vs: seq<V>) {
    |ids| == |vs| && forall i :: 0 <= i < |ids| ==> ids[i] in persistence && persistence[ids[i]] == Single(vs[i])
  }

  lemma KeptAdding<V>(before: map<string, Cell<V>>, id: string, cell: Cell<V>)
    requires id !in before
    ensures Kept(before, before[id := cell])
  {
  }

  lemma KeptSame<V>(persistence: map<string, Cell<V>>)
    ensures Kept(persistence, persistence)
  {
  }

  lemma KeptDenote<V>(before: map<string, Cell<V>>, after: map<string, Cell<V>>, ids: seq<string>,
                                         vs: seq<V>)
    requires Kept(before, after) && Denote(before, ids, vs)
    ensures Denote(after, ids, vs) && |vs| == |ids|
  {
  }

  lemma KeptTwice<V>(a: map<string, Cell<V>>, b: map<string, Cell<V>>, c: map<string, Cell<V>>)
    requires Kept(a, b) && Kept(b, c)
    ensures Kept(a, c)
  {
  }

  lemma KeptDenotes<V>(before: map<string, Cell<V>>, after: map<string, Cell<V>>, ids: seq<string>,
                                          vs: seq<V>, i: nat)
    requires Kept(before, after) && Denote(before, ids, vs) && i < |ids|
    ensures |vs| == |ids| && ids[i] in after && after[ids[i]] == Single(vs[i])
  {
  }

  // ---- The client's array of handles -----------------------------------------------------------------------

  /** Elements are ids; what counts is the value behind each. */
  class HandleArrayHandle<V> {
    const receiver: Receiver<V>
    const size: nat
    var assignedID: string

    ghost predicate Valid()
      reads this, receiver
    {
      && receiver.Valid() && receiver.OnlyIssued()
      && assignedID in receiver.persistence && receiver.persistence[assignedID].Handles?
      && receiver.persistence[assignedID].hs.Length == size
    }

    ghost function Cells(): array<V>
      requires Valid()
      reads this, receiver
    {
      receiver.persistence[assignedID].hs
    }

    /** `toArrayHandle`, for ids that stand for the values `vs`. The `get` inside each `set` leaves a copy of
        the old element on the receiver. */
    constructor (receiver: Receiver<V>, src: seq<string>, ghost vs: seq<V>)
      requires receiver.Valid() && receiver.OnlyIssued() && receiver.uses + 1 + 2 * |src| <= TWO_64
      requires Denote(receiver.persistence, src, vs)
      modifies receiver
      ensures Valid() && this.receiver == receiver && size == |src|
      ensures fresh(Cells()) && assignedID !in old(receiver.persistence)
      ensures receiver.uses == old(receiver.uses) + 1 + 2 * |src|
      ensures Kept(old(receiver.persistence), receiver.persistence)
      ensures Cells()[..] == vs
    {
      this.receiver, size := receiver, |src|;
      new;
      hide Issued, IdOf, Block, Kept, Denote;
      ghost var before := receiver.persistence;
      assignedID := receiver.AllocateHandles(size);
      KeptAdding(before, assignedID, receiver.persistence[assignedID]);
      ghost var now := receiver.persistence;
      KeptDenote(before, now, src, vs);
      Fill(src, vs);
      KeptTwice(before, now, receiver.persistence);
    }

    /** Set element by element. */
    method Fill(src: seq<string>, ghost vs: seq<V>)
      requires Valid() && size == |src| && receiver.uses + 2 * |src| <= TWO_64
      requires Denote(receiver.persistence, src, vs)
      modifies receiver, Cells()
      ensures Valid() && Cells() == old(Cells()) && receiver.uses == old(receiver.uses) + 2 * |src|
      ensures Kept(old(receiver.persistence), receiver.persistence)
      ensures Cells()[..] == vs
    {
      hide Issued, IdOf, Block, Kept, Denote;
      ghost var before, cells := receiver.persistence, Cells();
      KeptSame(before);
      KeptDenote(before, before, src, vs);
      for i := 0 to |src|
        invariant Valid() && Cells() == cells && receiver.uses == old(receiver.uses) + 2 * i
        invariant Kept(before, receiver.persistence)
        invariant cells[..i] == vs[..i]
      {
        KeptDenotes(before, receiver.persistence, src, vs, i);
        ghost var was, now := cells[..], receiver.persistence;
        var previous := Set(i, src[i]);
        KeptTwice(before, now, receiver.persistence);
        assert cells[..] == was[i := vs[i]];
      }
      assert cells[..] == cells[..|src|] && vs == vs[..|src|];
    }

    /** A new id for a copy of the element. */
    method Get(index: nat) returns (id: string)
      requires Valid() && index < size && receiver.uses < TWO_64
      modifies receiver
      ensures Valid() && Cells() == old(Cells()) && receiver.uses == old(receiver.uses) + 1
      ensures id !in old(receiver.persistence) && id in receiver.persistence
      ensures Kept(old(receiver.persistence), receiver.persistence)
      ensures receiver.persistence[id] == Single(Cells()[index])
    {
      id := receiver.GetHandle(assignedID, index);
    }

    /** Returns a handle to what was there, and changes this cell of this array only. */
    method Set(index: nat, element: string) returns (previous: string)
      requires Valid() && index < size && receiver.uses + 2 <= TWO_64
      requires element in receiver.persistence && receiver.persistence[element].Single?
      modifies receiver, Cells()
      ensures Valid() && Cells() == old(Cells()) && receiver.uses == old(receiver.uses) + 2
      ensures Kept(old(receiver.persistence), receiver.persistence)
      ensures previous !in old(receiver.persistence) && previous in receiver.persistence
      ensures receiver.persistence[previous] == Single(old(Cells()[index]))
      ensures Cells()[..] == old(Cells()[..])[index := old(receiver.persistence[element].v)]
    {
      previous := Get(index);
      receiver.SetHandle(assignedID, index, element);
    }
  }
}
