/** `readNumBytes` of the Go receiver (golang-receiver/main.go): a wanted number of bytes, whatever the pieces
    in which they arrive. */
module Reading {
  import opened Wire

  function Joined(pieces: seq<seq<byte>>): seq<byte> {
    if pieces == [] then [] else pieces[0] + Joined(pieces[1..])
  }

  /** The first `n` bytes, filled up with zeros. */
  function Filled(s: seq<byte>, n: nat): (b: seq<byte>)
    ensures |b| == n
  {
    if n <= |s| then s[..n] else s + seq(n - |s|, _ => 0)
  }

  function Rest(s: seq<byte>, n: nat): seq<byte> {
    if n <= |s| then s[n..] else []
  }

  /** The connection asks for more input when `taken` bytes have been read and `sent` has been sent. */
  datatype Ask = Ask(taken: nat, sent: seq<byte>)

  /** `net.Conn`: a byte stream that comes in, cut into non-empty pieces of which a read hands out no more than
      one, and one that goes out. After the last piece the input has ended. A read waits for the other party, so
      it is kept what that party has been sent by then; `over` says that the end has been reported. */
  class Connection {
    var pieces: seq<seq<byte>>
    var sent: seq<byte>
    ghost var taken: nat
    ghost var asks: seq<Ask>
    ghost var over: bool

    ghost predicate Valid()
      reads this
    {
      [] !in pieces
    }

    constructor (pieces: seq<seq<byte>>)
      requires [] !in pieces
      ensures Valid() && this.pieces == pieces && sent == [] && Fresh()
    {
      this.pieces, sent, taken, asks, over := pieces, [], 0, [], false;
    }

    /** Nothing has been asked for yet. */
    ghost predicate Fresh()
      reads this
    {
      taken == 0 && asks == [] && !over
    }

    method Write(bytes: seq<byte>)
      modifies this`sent
      ensures sent == old(sent) + bytes
    {
      sent := sent + bytes;
    }

    /** Fill `buffer` from `marker` on with at least one byte, or report the end of the stream. */
    method Read(buffer: array<byte>, marker: nat) returns (n: nat, eof: bool)
      requires Valid() && marker < buffer.Length
      modifies this`pieces, this`taken, this`asks, this`over, buffer
      ensures Valid()
      ensures eof <==> old(Joined(pieces)) == []
      ensures if eof then n == 0 else 1 <= n <= buffer.Length - marker && n <= |old(Joined(pieces))|
      ensures Wrote(buffer[..], old(buffer[..]), marker, old(Joined(pieces))[..n])
      ensures Joined(pieces) == old(Joined(pieces))[n..]
      ensures asks == old(asks) + (if old(over) then [] else [Ask(old(taken), sent)])
      ensures taken == old(taken) + n && over == (old(over) || eof)
    {
      asks := asks + if over then [] else [Ask(taken, sent)];
      if pieces == [] {
        WroteNothing(buffer[..], marker);
        over := true;
        return 0, true;
      }
      ghost var all := Joined(pieces);
      var piece, rest := pieces[0], pieces[1..];
      assert |piece| > 0 && all == piece + Joined(rest);
      n, eof := if |piece| <= buffer.Length - marker then |piece| else buffer.Length - marker, false;
      forall k | 0 <= k < n {
        buffer[marker + k] := piece[k];
      }
      assert all[..n] == piece[..n];
      WroteElements(buffer[..], old(buffer[..]), marker, piece[..n]);
      pieces := if n == |piece| then rest else [piece[n..]] + rest;
      assert n < |piece| ==> pieces[1..] == rest && all[n..] == piece[n..] + Joined(rest);
      taken := taken + n;
    }
  }

  /** While `num` bytes are read from index `from` on, of `have` that there are, nothing is sent. */
  predicate AskedWithin(asks: seq<Ask>, from: nat, num: nat, have: nat, sent: seq<byte>) {
    forall a :: a in asks ==> a.sent == sent && from <= a.taken < from + num && a.taken <= from + have
  }

  /** The first `marker` bytes are there, and zeros after them. */
  predicate FilledTo(buffer: seq<byte>, all: seq<byte>, marker: nat) {
    && marker <= |buffer| && marker <= |all| && buffer[..marker] == all[..marker]
    && forall k :: marker <= k < |buffer| ==> buffer[k] == 0
  }

  lemma {:induction false} FilledFurther(was: seq<byte>, now: seq<byte>, all: seq<byte>, marker: nat, n: nat)
    requires FilledTo(was, all, marker) && marker + n <= |was| == |now| && n <= |all[marker..]|
    requires Wrote(now, was, marker, all[marker..][..n])
    ensures FilledTo(now, all, marker + n)
  {
    var more := all[marker..][..n];
    assert now[..marker + n] == was[..marker] + more;
    assert all[..marker + n] == all[..marker] + more;
  }

  /** Nothing but that has been asked for since `before`. */
  ghost predicate AskedSince(before: seq<Ask>, now: seq<Ask>, over: bool, from: nat, num: nat, have: nat,
                             sent: seq<byte>)
  {
    before <= now && (over ==> now == before) && AskedWithin(now[|before|..], from, num, have, sent)
  }

  lemma {:induction false} AskedOnce(before: seq<Ask>, now: seq<Ask>, over: bool, from: nat, num: nat, have: nat,
                                     sent: seq<byte>, marker: nat)
    requires AskedSince(before, now, over, from, num, have, sent) && marker < num && marker <= have
    ensures var more := if over then [] else [Ask(from + marker, sent)];
      AskedSince(before, now + more, over, from, num, have, sent)
  {
    var more := if over then [] else [Ask(from + marker, sent)];
    assert (now + more)[|before|..] == now[|before|..] + more;
  }

  lemma NeverAsked(asks: seq<Ask>, over: bool, from: nat, num: nat, have: nat, sent: seq<byte>)
    ensures AskedSince(asks, asks, over, from, num, have, sent)
  {
  }

  /** The next `num` bytes, however they are cut; if the stream is shorter, an error, with what there was of
      it in the buffer. */
  method ReadNumBytes(conn: Connection, num: nat) returns (buffer: array<byte>, ok: bool)
    requires conn.Valid()
    modifies conn`pieces, conn`taken, conn`asks, conn`over
    ensures conn.Valid() && fresh(buffer)
    ensures ok <==> num <= |old(Joined(conn.pieces))|
    ensures buffer[..] == Filled(old(Joined(conn.pieces)), num)
    ensures Joined(conn.pieces) == Rest(old(Joined(conn.pieces)), num)
    ensures conn.taken == old(conn.taken) + (if ok then num else |old(Joined(conn.pieces))|)
    ensures conn.over == (old(conn.over) || !ok)
    ensures AskedSince(old(conn.asks), conn.asks, old(conn.over), old(conn.taken), num, |old(Joined(conn.pieces))|,
                       conn.sent)
  {
    buffer := new byte[num](_ => 0);
    ok := true;
    ghost var all, from, asks, over := Joined(conn.pieces), conn.taken, conn.asks, conn.over;
    hide AskedSince, Wrote, FilledTo, Filled, Joined;
    NothingFilled(buffer[..], all);
    NeverAsked(asks, over, from, num, |all|, conn.sent);
    var marker := 0;
    while marker < num
      invariant 0 <= marker <= num && marker <= |all|
      invariant conn.Valid() && conn.taken == from + marker && conn.over == over
      invariant FilledTo(buffer[..], all, marker) && Joined(conn.pieces) == all[marker..]
      invariant AskedSince(asks, conn.asks, over, from, num, |all|, conn.sent)
      decreases num - marker
    {
      ghost var was := buffer[..];
      AskedOnce(asks, conn.asks, over, from, num, |all|, conn.sent, marker);
      var receivedDataLength, err := conn.Read(buffer, marker);
      if err {
        WroteNothingNew(buffer[..], was, marker);
        FilledAsFar(was, all, marker);
        return buffer, false;
      }
      FilledFurther(was, buffer[..], all, marker, receivedDataLength);
      marker := marker + receivedDataLength;
    }
    FilledAsFar(buffer[..], all, marker);
  }

  lemma NothingFilled(buffer: seq<byte>, all: seq<byte>)
    requires forall k :: 0 <= k < |buffer| ==> buffer[k] == 0
    ensures FilledTo(buffer, all, 0) && all[0..] == all
  {
  }

  lemma FilledAsFar(buffer: seq<byte>, all: seq<byte>, marker: nat)
    requires FilledTo(buffer, all, marker) && (marker == |buffer| || marker == |all|)
    ensures buffer == Filled(all, |buffer|) && all[marker..] == Rest(all, |buffer|)
  {
  }

  lemma WroteNothingNew(now: seq<byte>, was: seq<byte>, lo: nat)
    requires Wrote(now, was, lo, [])
    ensures now == was
  {
  }
}
