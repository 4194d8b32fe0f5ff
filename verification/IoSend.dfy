/** Buffered sending over a transport that may take any part of what it is given. */
module IoSend {
  import opened Bytes
  import Memory
  import Request

  datatype Error = EOk | EBig | ESystem

  const IOV_MAX := 1024

  /** The outgoing side of the transport: a call takes a prefix of what it is
      offered, of any length, or fails. */
  class Wire {
    var sent: seq<byte>
    /** Whether every offer of at least one byte is taken in part. */
    const reliable: bool
    /** How often it has been called. */
    ghost var offers: nat

    constructor (reliable: bool)
      ensures sent == [] && this.reliable == reliable && offers == 0
    {
      sent, offers := [], 0;
      this.reliable := reliable;
    }

    method Send(buf: seq<byte>) returns (r: int)
      modifies this
      ensures r <= |buf| && (reliable && buf != [] ==> r > 0)
      ensures sent == old(sent) + if r > 0 then buf[..r] else []
      ensures offers == old(offers) + 1
    {
      offers := offers + 1;
      if reliable && buf != [] {
        r :| 1 <= r <= |buf|;
      } else {
        r :| -1 <= r <= |buf|;
      }
      if r > 0 {
        sent := sent + buf[..r];
      }
    }

    method Sendv(pieces: seq<seq<byte>>) returns (r: int)
      modifies this
      ensures r <= |Concat(pieces)| && (reliable && Concat(pieces) != [] ==> r > 0)
      ensures sent == old(sent) + if r > 0 then Concat(pieces)[..r] else []
      ensures offers == old(offers) + 1
    {
      var whole := Flatten(pieces);
      r := Send(whole);
    }
  }

  method Flatten(pieces: seq<seq<byte>>) returns (whole: seq<byte>)
    ensures whole == Concat(pieces)
  {
    whole := [];
    for i := 0 to |pieces|
      invariant whole == Concat(pieces[..i])
    {
      assert pieces[..i + 1][..i] == pieces[..i];
      whole := whole + pieces[i];
    }
    assert pieces[..|pieces|] == pieces;
  }

  // ----- scatter lists that are used up from the front -----

  lemma ConcatFirst(v: seq<seq<byte>>)
    requires v != []
    ensures Concat(v) == v[0] + Concat(v[1..])
  {
    assert v == [v[0]] + v[1..];
    Request.ConcatCons(v[0], v[1..]);
  }

  lemma ConcatSplit(v: seq<seq<byte>>, n: nat)
    requires n <= |v|
    ensures Concat(v) == Concat(v[..n]) + Concat(v[n..])
  {
    ConcatAppend(v[..n], v[n..]);
    assert v[..n] + v[n..] == v;
  }

  lemma ConcatNil()
    ensures Concat([]) == []
  {
  }

  lemma DropSum(a: seq<byte>, b: seq<byte>, n: nat)
    requires n <= |a + b|
    ensures (a + b)[n..] == if n < |a| then a[n..] + b else b[n - |a|..]
  {
  }

  /** The n pieces from i on, and those behind them. */
  lemma NextBatch(v: seq<seq<byte>>, i: nat, n: nat)
    requires 0 < n && i + n <= |v|
    ensures Concat(v[i..]) == Concat(v[i..i + n]) + Concat(v[i + n..])
    ensures v[i] != [] ==> Concat(v[i..i + n]) != []
  {
    hide Concat;
    ConcatSplit(v[i..], n);
    assert v[i..][..n] == v[i..i + n] && v[i..][n..] == v[i + n..];
    ConcatFirst(v[i..i + n]);
  }

  /** Taking r more bytes of a whole of which total are gone. */
  lemma TakeStep(whole: seq<byte>, total: nat, part: seq<byte>, more: seq<byte>, r: nat)
    requires total <= |whole| && whole[total..] == part + more && r <= |part|
    ensures whole[..total] + part[..r] == whole[..total + r]
    ensures whole[total..][r..] == whole[total + r..]
  {
    assert part[..r] == (part + more)[..r];
  }

  class Sender {
    /** An empty buffer stands for an unbuffered stream. */
    const buf: array<byte>
    var off: nat
    var error: Error
    const wire: Wire
    /** Whether the transport is a callback, which is given at most IOV_MAX pieces. */
    const callback: bool

    ghost predicate Valid()
      reads this
    {
      off <= buf.Length
    }

    /** Everything accepted so far: what is on the wire and what waits for it. */
    ghost function Stream(): seq<byte>
      reads this, buf, wire
      requires Valid()
    {
      wire.sent + buf[..off]
    }

    constructor (size: nat, wire: Wire, callback: bool)
      ensures Valid() && this.wire == wire && fresh(buf) && buf.Length == size && off == 0
      ensures Stream() == wire.sent
    {
      buf := new byte[size];
      off, error, this.wire, this.callback := 0, EOk, wire, callback;
      new;
      assert buf[..0] == [];
    }

    /** Offers the bytes again and again: until they are all taken, or once. */
    method SendRaw(data: seq<byte>, all: bool) returns (rv: int)
      requires Valid()
      modifies this`error, wire
      ensures Valid()
      ensures rv == -1 || (0 < rv <= |data| && (all ==> rv == |data|))
      ensures rv != -1 ==> wire.sent == old(wire.sent) + data[..rv] && error == old(error)
      ensures rv == -1 ==> error == ESystem
      ensures rv == -1 ==> exists k | 0 <= k <= |data| :: wire.sent == old(wire.sent) + data[..k]
      ensures wire.reliable ==> (rv == -1 <==> data == [])
    {
      var done := 0;
      assert data[..0] == [];
      while true
        invariant 0 <= done <= |data| && wire.sent == old(wire.sent) + data[..done]
        invariant error == old(error) && (done == |data| ==> data == [])
        decreases |data| - done
      {
        var r := wire.Send(data[done..]);
        if r <= 0 {
          error := ESystem;
          assert wire.sent == old(wire.sent) + data[..done];
          return -1;
        }
        assert data[..done] + data[done..][..r] == data[..done + r];
        done := done + r;
        if done == |data| || !all {
          break;
        }
      }
      return done;
    }

    /** A write that a buffered stream can never hold. */
    predicate TooBig(n: nat) {
      0 < buf.Length < n
    }

    method Flush() returns (rv: int)
      requires Valid()
      modifies this`off, this`error, wire
      ensures Valid()
      ensures rv != -1 ==> off == 0 && wire.sent == old(Stream()) && rv == old(off)
      ensures rv == -1 ==> off == old(off) && error == ESystem && !wire.reliable
      ensures rv == -1 ==> buf[..off] == old(buf[..off])
      ensures rv == -1 ==> exists k | 0 <= k <= off :: wire.sent == old(wire.sent) + old(buf[..off])[..k]
      ensures old(wire.sent) <= wire.sent <= old(Stream())
      ensures old(off) == 0 ==> rv == 0 && wire.offers == old(wire.offers)
    {
      if off == 0 {
        return 0;
      }
      var rc := SendRaw(buf[..off], true);
      if rc == -1 {
        return -1;
      }
      assert buf[..off][..off] == buf[..off];
      off := 0;
      return rc;
    }

    method Send(data: seq<byte>) returns (rv: int)
      requires Valid()
      modifies this`off, this`error, wire, buf
      ensures Valid()
      ensures TooBig(|data|) ==>
        rv == -1 && error == EBig && Stream() == old(Stream()) && wire.sent == old(wire.sent)
      ensures !TooBig(|data|) ==> rv == |data| || (rv == -1 && error == ESystem)
      ensures rv != -1 ==> Stream() == old(Stream()) + data
      ensures old(wire.sent) <= wire.sent <= old(Stream()) + data
      ensures buf.Length > 0 && (old(off) + |data| <= buf.Length || |data| > buf.Length) ==>
        wire.sent == old(wire.sent) && wire.offers == old(wire.offers)
      ensures wire.reliable && rv == -1 ==> TooBig(|data|) || (buf.Length == 0 && data == [])
    {
      if buf.Length == 0 {
        rv := SendRaw(data, true);
        assert buf[..off] == [];
        if rv != -1 {
          assert data[..rv] == data;
        }
        return rv;
      }
      if |data| > buf.Length {
        error := EBig;
        return -1;
      }
      if off + |data| <= buf.Length {
        ghost var before := buf[..off];
        Memory.Copy(buf, off, data);
        off := off + |data|;
        assert buf[..off] == before + data;
        return |data|;
      }
      ghost var waiting := buf[..off];
      var r := SendRaw(buf[..off], true);
      if r == -1 {
        return -1;
      }
      assert waiting[..r] == waiting;
      Memory.Copy(buf, 0, data);
      off := |data|;
      assert buf[..off] == data;
      return |data|;
    }

    /** Moves the front of the list, starting at piece i, past r bytes: whole pieces
        are dropped, the next one is shortened in place. */
    method Advance(iov: array<seq<byte>>, i: nat, r: nat) returns (j: nat)
      requires i <= iov.Length && r <= |Concat(iov[i..])|
      modifies iov
      ensures i <= j <= iov.Length
      ensures Concat(iov[j..]) == old(Concat(iov[i..]))[r..]
      ensures j < iov.Length ==> iov[j] != []
    {
      j := i;
      var left: nat := r;
      ghost var whole := Concat(iov[i..]);
      while j < iov.Length
        invariant i <= j <= iov.Length && left <= |Concat(iov[j..])|
        invariant Concat(iov[j..])[left..] == whole[r..]
        invariant iov[..] == old(iov[..])
        decreases iov.Length - j
      {
        ghost var rest := iov[j + 1..];
        ConcatFirst(iov[j..]);
        assert iov[j..][1..] == rest;
        DropSum(iov[j], Concat(rest), left);
        if |iov[j]| > left {
          iov[j] := iov[j][left..];
          assert iov[j..][1..] == rest;
          ConcatFirst(iov[j..]);
          return j;
        }
        left := left - |iov[j]|;
        j := j + 1;
      }
      assert iov[j..] == [];
    }

    /** How many of n pieces the transport is given at a time. */
    function Batch(n: nat): (b: nat)
      ensures b <= n && (n > 0 ==> b > 0)
      ensures b == n || (callback && n > b == 1024)
      ensures callback ==> b <= 1024
    {
      if callback && n > IOV_MAX then IOV_MAX else n
    }

    /** Puts a scatter list on the wire: all of it, or what one call takes. */
    method SendvRaw(iov: array<seq<byte>>, all: bool) returns (rv: int)
      requires Valid()
      modifies this`error, wire, iov
      ensures Valid()
      ensures rv != -1 && all ==>
        wire.sent == old(wire.sent) + old(Concat(iov[..])) && rv == |old(Concat(iov[..]))|
      ensures rv != -1 && !all && iov.Length > 0 ==>
        0 < rv <= |old(Concat(iov[..]))| && wire.sent == old(wire.sent) + old(Concat(iov[..]))[..rv]
      ensures rv == -1 || rv >= 0
      ensures rv == -1 ==> error == ESystem
      ensures old(wire.sent) <= wire.sent <= old(wire.sent) + old(Concat(iov[..]))
      ensures wire.reliable && all ==>
        (rv == -1 <==> iov.Length > 0 && old(Concat(iov[..Batch(iov.Length)])) == [])
    {
      hide Concat;
      ConcatNil();
      var total: nat, i: nat := 0, 0;
      ghost var whole := Concat(iov[..]);
      ghost var first := Concat(iov[..Batch(iov.Length)]);
      assert iov[0..] == iov[..];
      while i < iov.Length
        invariant 0 <= i <= iov.Length && 0 <= total <= |whole|
        invariant wire.sent == old(wire.sent) + whole[..total]
        invariant Concat(iov[i..]) == whole[total..]
        invariant !all ==> total == 0
        invariant total == 0 ==> i == 0 && iov[..] == old(iov[..])
        invariant total > 0 ==> first != [] && (i < iov.Length ==> iov[i] != [])
        decreases |whole| - total
      {
        var n := Batch(iov.Length - i);
        NextBatch(iov[..], i, n);
        ghost var part, behind := Concat(iov[i..i + n]), Concat(iov[i + n..]);
        assert i == 0 ==> iov[i..i + n] == iov[..n];
        var r := wire.Sendv(iov[i..i + n]);
        if r <= 0 {
          error := ESystem;
          return -1;
        }
        TakeStep(whole, total, part, behind, r);
        total := total + r;
        if !all {
          return total;
        }
        i := Advance(iov, i, r);
      }
      assert iov[i..] == [];
      assert |whole[total..]| == |whole| - total;
      assert whole[..total] == whole;
      return total;
    }

    method Sendv(iov: array<seq<byte>>) returns (rv: int)
      requires Valid()
      modifies this`off, this`error, wire, buf, iov
      ensures Valid()
      ensures var data := old(Concat(iov[..]));
        && (TooBig(|data|) ==>
              rv == -1 && error == EBig && Stream() == old(Stream()) && wire.sent == old(wire.sent))
        && (!TooBig(|data|) ==> rv == |data| || (rv == -1 && error == ESystem))
        && (rv != -1 ==> Stream() == old(Stream()) + data)
        && old(wire.sent) <= wire.sent <= old(Stream()) + data
        && (buf.Length > 0 && (old(off) + |data| <= buf.Length || |data| > buf.Length) ==>
              wire.sent == old(wire.sent) && wire.offers == old(wire.offers))
        && (wire.reliable && rv == -1 ==>
              TooBig(|data|) || (buf.Length == 0 && iov.Length > 0 && old(Concat(iov[..Batch(iov.Length)])) == []))
    {
      ghost var data := Concat(iov[..]);
      if buf.Length == 0 {
        assert buf[..off] == [];
        rv := SendvRaw(iov, true);
        return rv;
      }
      var size := Memory.TotalLength(iov[..]);
      if size > buf.Length {
        error := EBig;
        return -1;
      }
      if off + size > buf.Length {
        ghost var waiting := buf[..off];
        var r := SendRaw(buf[..off], true);
        if r == -1 {
          return -1;
        }
        assert waiting[..r] == waiting;
        off := 0;
      }
      ghost var before := buf[..off];
      Memory.Gather(buf, off, iov[..]);
      off := off + size;
      assert buf[..off] == before + data;
      return size;
    }
  }

  // ----- any interleaving of the calls -----

  datatype Call = Write(data: seq<byte>) | Writev(pieces: seq<seq<byte>>) | Flush

  function Offered(c: Call): seq<byte> {
    match c
    case Write(data) => data
    case Writev(pieces) => Concat(pieces)
    case Flush => []
  }

  /** Makes the calls one after another until the transport fails. The bytes on
      the wire and in the buffer are always those of the accepted writes, each
      once and in order. */
  method RunCalls(s: Sender, calls: seq<Call>) returns (done: nat, ghost accepted: seq<byte>)
    requires s.Valid()
    modifies s`off, s`error, s.wire, s.buf
    ensures s.Valid() && done <= |calls|
    ensures accepted == Accepted(s.buf.Length, calls[..done])
    ensures done == |calls| ==> s.Stream() == old(s.Stream()) + accepted
    ensures s.wire.reliable && s.buf.Length > 0 ==> done == |calls|
    ensures done < |calls| ==> old(s.wire.sent) <= s.wire.sent <= old(s.Stream()) + accepted + Offered(calls[done])
    ensures done == |calls| > 0 && calls[done - 1].Flush? ==> s.wire.sent == old(s.Stream()) + accepted
  {
    hide Taken;
    accepted := [];
    assert s.Stream() + [] == s.Stream();
    for i := 0 to |calls|
      invariant s.Valid()
      invariant accepted == Accepted(s.buf.Length, calls[..i]) && old(s.wire.sent) <= s.wire.sent
      invariant s.Stream() == old(s.Stream()) + accepted
      invariant i > 0 && calls[i - 1].Flush? ==> s.wire.sent == old(s.Stream()) + accepted
    {
      done := i;
      var rv := MakeCall(s, calls[i]);
      if rv == -1 && s.error != EBig {
        return;
      }
      assert calls[..i + 1][..i] == calls[..i];
      accepted := accepted + Taken(s.buf.Length, calls[i]);
    }
    done := |calls|;
    assert calls[..done] == calls;
  }

  /** What a call adds to the stream if the transport does not fail. */
  function Taken(size: nat, c: Call): seq<byte> {
    if Fits(size, c) then Offered(c) else []
  }

  method MakeCall(s: Sender, c: Call) returns (rv: int)
    requires s.Valid()
    modifies s`off, s`error, s.wire, s.buf
    ensures s.Valid()
    ensures rv == -1 ==> s.error == EBig || s.error == ESystem
    ensures rv != -1 || s.error == EBig ==>
      s.Stream() == old(s.Stream()) + Taken(s.buf.Length, c)
    ensures old(s.wire.sent) <= s.wire.sent <= old(s.Stream()) + Offered(c)
    ensures rv != -1 && c.Flush? ==> s.wire.sent == s.Stream()
    ensures rv == -1 && s.error == EBig ==> !Fits(s.buf.Length, c) && !c.Flush?
    ensures rv == -1 && s.wire.reliable && s.buf.Length > 0 ==> s.error == EBig
  {
    assert s.Stream() + [] == s.Stream();
    match c {
      case Write(data) => rv := s.Send(data);
      case Writev(pieces) =>
        var iov := new seq<byte>[|pieces|](k requires 0 <= k < |pieces| => pieces[k]);
        assert iov[..] == pieces;
        rv := s.Sendv(iov);
      case Flush =>
        rv := s.Flush();
        assert rv != -1 ==> s.buf[..s.off] == [];
    }
  }

  predicate Fits(size: nat, c: Call) {
    size == 0 || |Offered(c)| <= size
  }

  /** The bytes of the calls that are not refused for being too big. */
  function Accepted(size: nat, calls: seq<Call>): seq<byte> {
    if calls == [] then []
    else
      var last := calls[|calls| - 1];
      Accepted(size, calls[..|calls| - 1]) + Taken(size, last)
  }
}
