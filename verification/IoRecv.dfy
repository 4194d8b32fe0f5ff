/** Buffered receiving: any request size over a transport that hands out any part
    of what it is asked for. */
module IoRecv {
  import opened Bytes
  import Memory

  /** The incoming side of the transport: a fixed stream of bytes, handed out in
      chunks of any positive size, or a failure. */
  class Source {
    const incoming: seq<byte>

    /** Set for a transport that does not fail before its last byte. */
    const reliable: bool
    var pos: nat
    /** How many bytes each call asked for. */
    ghost var asked: seq<nat>

    constructor (incoming: seq<byte>, reliable: bool)
      ensures this.incoming == incoming && this.reliable == reliable && pos == 0 && asked == []
    {
      this.incoming, this.reliable, pos, asked := incoming, reliable, 0, [];
    }

    ghost predicate Valid()
      reads this
    {
      pos <= |incoming|
    }

    /** Stores up to n bytes in a from at on. */
    method Read(a: array<byte>, at: nat, n: nat) returns (r: int)
      requires Valid() && at + n <= a.Length
      modifies this, a
      ensures Valid() && r <= n
      ensures reliable && n > 0 && old(pos) < |incoming| ==> r > 0
      ensures asked == old(asked) + [n]
      ensures pos == old(pos) + if r > 0 then r else 0
      ensures forall k | 0 <= k < a.Length ::
        a[k] == if at <= k < at + r then incoming[old(pos) + k - at] else old(a[k])
    {
      var left: nat := if n < |incoming| - pos then n else |incoming| - pos;
      assert -1 <= left <= n;
      r :| -1 <= r <= left && (reliable && left > 0 ==> r > 0);
      asked := asked + [n];
      if r > 0 {
        Memory.Copy(a, at, incoming[pos..pos + r]);
        pos := pos + r;
      }
    }
  }

  class Receiver {
    /** An empty buffer stands for an unbuffered stream. */
    const buf: array<byte>
    var off: nat
    var top: nat
    const source: Source

    ghost predicate Valid()
      reads this, source
    {
      off <= top <= buf.Length && source.Valid()
    }

    /** Bytes taken from the transport and not yet delivered. */
    ghost function Pending(): seq<byte>
      reads this, buf, source
      requires Valid()
    {
      buf[off..top]
    }

    constructor (size: nat, source: Source)
      requires source.Valid()
      ensures Valid() && this.source == source && fresh(buf) && buf.Length == size && Pending() == []
    {
      buf := new byte[size];
      off, top, this.source := 0, 0, source;
    }

    /** Asks again and again until size bytes have come, or once. */
    method RecvRaw(a: array<byte>, at: nat, size: nat, all: bool) returns (rv: int)
      requires Valid() && at + size <= a.Length
      modifies source, a
      ensures source.Valid()
      ensures rv == -1 || (0 < rv <= size && (all ==> rv == size))
      ensures !all ==> source.asked == old(source.asked) + [size]
      ensures source.reliable && size > 0 && old(source.pos) + size <= |source.incoming| ==> rv != -1
      ensures source.reliable && size > 0 && !all && old(source.pos) < |source.incoming| ==> rv != -1
      ensures rv != -1 ==> source.pos == old(source.pos) + rv
      ensures rv == -1 ==> source.pos >= old(source.pos) && (!all ==> source.pos == old(source.pos))
      ensures forall k | 0 <= k < a.Length && !(at <= k < at + size) :: a[k] == old(a[k])
      ensures rv != -1 ==> a[at..at + rv] == source.incoming[old(source.pos)..source.pos]
      ensures rv == -1 && !all ==> a[..] == old(a[..])
    {
      var done: nat := 0;
      while true
        invariant done <= size && source.Valid() && source.pos == old(source.pos) + done
        invariant forall k | 0 <= k < a.Length ::
          a[k] == if at <= k < at + done then source.incoming[old(source.pos) + k - at] else old(a[k])
        invariant !all ==> done == 0 && source.asked == old(source.asked)
        invariant size > 0 ==> done < size
        decreases size - done
      {
        var r := source.Read(a, at + done, size - done);
        if r <= 0 {
          return -1;
        }
        done := done + r;
        if done == size || !all {
          break;
        }
      }
      return done;
    }

    /** Delivers what is left in the buffer and fills it again. */
    method Refill(out: array<byte>, at: nat) returns (got: int)
      requires Valid() && buf.Length > 0 && at + (top - off) <= out.Length && out != buf
      modifies this`off, this`top, buf, source, out
      ensures Valid() && off == 0
      ensures got == -1 || got > 0
      ensures source.asked == old(source.asked) + [buf.Length]
      ensures source.reliable && old(source.pos) < |source.incoming| ==> got > 0
      ensures got > 0 ==> top == got && source.pos == old(source.pos) + got
      ensures got > 0 ==> out[..at + old(top - off)] == old(out[..at]) + old(Pending())
      ensures got > 0 ==> Pending() == source.incoming[old(source.pos)..source.pos]
      ensures got == -1 ==> top == old(top) && source.pos == old(source.pos) && buf[..] == old(buf[..])
    {
      var lv: nat := top - off;
      if lv > 0 {
        Deliver(out, at, lv);
      }
      off := 0;
      got := RecvRaw(buf, 0, buf.Length, false);
      if got != -1 {
        top := got;
        assert buf[0..top] == buf[..top];
      }
    }

    /** Delivers exactly size bytes, from the buffer and then from the transport,
        which is always asked for a whole buffer. A call that fails at its first
        refill has reset the cursor: the stream is as it was exactly if nothing of
        the buffer had been delivered before. */
    method Recv(out: array<byte>, size: nat) returns (rv: int)
      requires Valid() && size <= out.Length && out != buf
      modifies this, buf, source, out
      ensures Valid() && (rv == -1 || rv == size)
      ensures source.reliable && 0 < size <= old(top - off) + |source.incoming| - old(source.pos) ==> rv == size
      ensures rv != -1 ==> source.pos >= old(source.pos)
      ensures rv != -1 ==>
        out[..size] + Pending() == old(Pending()) + source.incoming[old(source.pos)..source.pos]
      ensures buf.Length > 0 ==> Only(old(source.asked), source.asked, buf.Length)
      ensures 0 < buf.Length && size <= old(top - off) ==>
        rv == size && source.asked == old(source.asked) && source.pos == old(source.pos)
      ensures rv == -1 && buf.Length > 0 ==> off == 0
      ensures rv == -1 && buf.Length > 0 && source.pos == old(source.pos) ==>
        (Pending() == old(Pending()) <==> old(off) == 0)
    {
      if buf.Length == 0 {
        rv := RecvRaw(out, 0, size, true);
        assert out[0..size] == out[..size];
      } else {
        rv := RecvBuffered(out, size);
      }
    }

    method RecvBuffered(out: array<byte>, size: nat) returns (rv: int)
      requires Valid() && size <= out.Length && out != buf && buf.Length > 0
      modifies this`off, this`top, buf, source, out
      ensures Valid() && (rv == -1 || rv == size)
      ensures source.reliable && 0 < size <= old(top - off) + |source.incoming| - old(source.pos) ==> rv == size
      ensures rv != -1 ==> source.pos >= old(source.pos)
      ensures rv != -1 ==> Balanced(out[..size], Pending(), old(Pending()), source.incoming[old(source.pos)..source.pos])
      ensures Only(old(source.asked), source.asked, buf.Length)
      ensures size <= old(top - off) ==>
        rv == size && source.asked == old(source.asked) && source.pos == old(source.pos)
      ensures rv == -1 ==> off == 0
      ensures rv == -1 && source.pos == old(source.pos) ==> top == old(top) && buf[..] == old(buf[..])
    {
      hide Balanced, Only;
      ghost var asked := source.asked;
      OnlyMore(asked, asked, buf.Length);
      ghost var before, start, inc := Pending(), source.pos, source.incoming;
      BalancedStart(out[..0], before, inc[start..start]);
      var left: nat, done: nat := size, 0;
      while off + left > top
        invariant Valid() && done + left == size && start <= source.pos
        invariant Balanced(out[..done], Pending(), before, inc[start..source.pos])
        invariant Only(asked, source.asked, buf.Length)
        invariant size > old(top - off) || (done == 0 && source.asked == asked && source.pos == start)
        invariant size > old(top - off) || (top == old(top) && off == old(off))
        invariant done + (top - off) + (|inc| - source.pos) == |before| + |inc| - start
        invariant source.pos == start ==> top == old(top) && buf[..] == old(buf[..]) && off == old(off)
        decreases left - (top - off)
      {
        var lv: nat := top - off;
        OnlyMore(asked, source.asked, buf.Length);
        var got := BalancedChunk(out, done, left, before, start);
        if got <= 0 {
          return -1;
        }
        if left - lv <= got {
          return size;
        }
        left, done := left - lv, done + lv;
      }
      DeliverRest(out, done, left, before, inc[start..source.pos]);
      return size;
    }

    /** The end of a request that the buffer can meet. */
    method DeliverRest(out: array<byte>, done: nat, left: nat, ghost before: seq<byte>, ghost taken: seq<byte>)
      requires Valid() && off + left <= top && done + left <= out.Length && out != buf
      requires Balanced(out[..done], Pending(), before, taken)
      modifies this`off, out
      ensures Valid() && Balanced(out[..done + left], Pending(), before, taken)
    {
      hide Balanced;
      ghost var d, pending := out[..done], Pending();
      Deliver(out, done, left);
      BalancedSame(d, pending, before, taken, out[..done + left], Pending());
    }

    /** NextChunk, in terms of the balance. */
    method BalancedChunk(out: array<byte>, done: nat, left: nat, ghost before: seq<byte>, ghost start: nat)
      returns (got: int)
      requires Valid() && done + left <= out.Length && out != buf && buf.Length > 0 && off + left > top
      requires start <= source.pos && Balanced(out[..done], Pending(), before, source.incoming[start..source.pos])
      modifies this`off, this`top, buf, source, out
      ensures Valid() && (got == -1 || got > 0)
      ensures source.asked == old(source.asked) + [buf.Length]
      ensures source.reliable && old(source.pos) < |source.incoming| ==> got > 0
      ensures got == -1 ==>
        off == 0 && top == old(top) && source.pos == old(source.pos) && buf[..] == old(buf[..])
      ensures got > 0 ==> top == got && source.pos == old(source.pos) + got
      ensures got > 0 ==>
        var end := if left - old(top - off) <= got then done + left else done + old(top - off);
        && Balanced(out[..end], Pending(), before, source.incoming[start..source.pos])
        && (left - old(top - off) > got ==> off == 0)
    {
      hide Balanced;
      ghost var p, d, pending := source.pos, out[..done], Pending();
      var lv: nat := top - off;
      got := NextChunk(out, done, left);
      if got > 0 {
        BalancedNext(d, pending, before, source.incoming, start, p, source.pos,
                     out[..if left - lv <= got then done + left else done + lv], Pending());
      }
    }

    /** One turn for a request the buffer cannot meet: what it holds is delivered,
        a chunk is fetched, and the request is finished if the chunk is enough. */
    method NextChunk(out: array<byte>, done: nat, left: nat) returns (got: int)
      requires Valid() && done + left <= out.Length && out != buf && buf.Length > 0 && off + left > top
      modifies this`off, this`top, buf, source, out
      ensures Valid() && (got == -1 || got > 0)
      ensures source.asked == old(source.asked) + [buf.Length]
      ensures source.reliable && old(source.pos) < |source.incoming| ==> got > 0
      ensures got == -1 ==> off == 0
      ensures got == -1 ==> top == old(top) && source.pos == old(source.pos) && buf[..] == old(buf[..])
      ensures got > 0 ==> top == got && source.pos == old(source.pos) + got
      ensures got > 0 ==>
        var end := if left - old(top - off) <= got then done + left else done + old(top - off);
        && out[..end] + Pending()
             == (old(out[..done]) + old(Pending())) + source.incoming[old(source.pos)..source.pos]
        && (left - old(top - off) > got ==> off == 0)
    {
      var lv: nat := top - off;
      var need := left - lv;
      got := Refill(out, done);
      if got > 0 && need <= top {
        Deliver(out, done + lv, need);
      }
    }

    /** Moves n bytes from the buffer to out at the given place. */
    method Deliver(out: array<byte>, at: nat, n: nat)
      requires Valid() && off + n <= top && at + n <= out.Length && out != buf
      modifies this`off, out
      ensures Valid() && off == old(off) + n
      ensures out[..at + n] + Pending() == old(out[..at]) + old(Pending())
    {
      Memory.Copy(out, at, buf[off..off + n]);
      off := off + n;
      assert out[..at + n] == old(out[..at]) + old(buf[off..off + n]);
    }
  }

  /** The numbers that came after before are all n. */
  predicate Only(before: seq<nat>, after: seq<nat>, n: nat) {
    before <= after && forall i | |before| <= i < |after| :: after[i] == n
  }

  lemma OnlyMore(before: seq<nat>, after: seq<nat>, n: nat)
    ensures Only(before, before, n)
    ensures Only(before, after, n) ==> Only(before, after + [n], n)
  {
  }

  /** Nothing is lost, added or reordered: what was delivered and what waits is what
      waited before and what was taken since. */
  predicate Balanced(delivered: seq<byte>, pending: seq<byte>, before: seq<byte>, taken: seq<byte>) {
    delivered + pending == before + taken
  }

  lemma BalancedStart(d: seq<byte>, before: seq<byte>, taken: seq<byte>)
    requires d == [] && taken == []
    ensures Balanced(d, before, before, taken)
  {
  }

  lemma BalancedSame(d: seq<byte>, p: seq<byte>, before: seq<byte>, taken: seq<byte>, d': seq<byte>, p': seq<byte>)
    requires Balanced(d, p, before, taken) && d' + p' == d + p
    ensures Balanced(d', p', before, taken)
  {
  }

  lemma BalancedNext(d: seq<byte>, p: seq<byte>, before: seq<byte>, inc: seq<byte>, a: nat, b: nat, c: nat,
                     d': seq<byte>, p': seq<byte>)
    requires a <= b <= c <= |inc| && Balanced(d, p, before, inc[a..b]) && d' + p' == (d + p) + inc[b..c]
    ensures Balanced(d', p', before, inc[a..c])
  {
    Joined(before, inc, a, b, c);
  }

  lemma Chained(d: seq<byte>, p: seq<byte>, whole: seq<byte>, more: seq<byte>, out: seq<byte>, p': seq<byte>)
    requires d + p == whole && out + p' == p + more
    ensures (d + out) + p' == whole + more
  {
    assert (d + out) + p' == d + (out + p');
    assert (d + p) + more == d + (p + more);
  }

  lemma Joined(before: seq<byte>, inc: seq<byte>, a: nat, b: nat, c: nat)
    requires a <= b <= c <= |inc|
    ensures before + inc[a..b] + inc[b..c] == before + inc[a..c]
  {
  }

  lemma BalancedMeans(d: seq<byte>, p: seq<byte>, before: seq<byte>, taken: seq<byte>)
    requires Balanced(d, p, before, taken)
    ensures d + p == before + taken
  {
  }

  lemma NothingYet(before: seq<byte>, inc: seq<byte>, start: nat)
    requires start <= |inc|
    ensures Balanced(Concat([]), before, before, inc[start..start])
  {
  }

  /** Delivered bytes are a front part of all there is. */
  lemma FrontPart(d: seq<byte>, p: seq<byte>, before: seq<byte>, inc: seq<byte>, a: nat, b: nat)
    requires a <= b <= |inc| && Balanced(d, p, before, inc[a..b])
    ensures d <= before + inc[a..]
  {
    assert inc[a..] == inc[a..b] + inc[b..];
    assert before + inc[a..] == before + inc[a..b] + inc[b..];
    assert before + inc[a..] == d + (p + inc[b..]);
  }

  lemma DeliveredMore(delivered: seq<seq<byte>>, out: seq<byte>, p: seq<byte>, p': seq<byte>, before: seq<byte>,
                      inc: seq<byte>, a: nat, b: nat, c: nat)
    requires a <= b <= c <= |inc| && Balanced(Concat(delivered), p, before, inc[a..b])
    requires out + p' == p + inc[b..c]
    ensures Balanced(Concat(delivered + [out]), p', before, inc[a..c])
  {
    hide Concat;
    ConcatMore(delivered, out);
    Joined(before, inc, a, b, c);
    Chained(Concat(delivered), p, before + inc[a..b], inc[b..c], out, p');
  }

  lemma ConcatMore(chunks: seq<seq<byte>>, chunk: seq<byte>)
    ensures Concat(chunks + [chunk]) == Concat(chunks) + chunk
  {
    assert (chunks + [chunk])[..|chunks|] == chunks;
  }

  /** Any run of receives: the bytes delivered before the first failure are the next
      ones of the stream, each call's as many as it was asked for; and while there is
      no failure, they and those still in the buffer are all that was taken from the
      transport. */
  method RunReceives(s: Receiver, sizes: seq<nat>) returns (done: nat, delivered: seq<seq<byte>>)
    requires s.Valid()
    modifies s, s.buf, s.source
    ensures s.Valid() && done <= |sizes| && |delivered| == done
    ensures forall i | 0 <= i < done :: |delivered[i]| == sizes[i]
    ensures Concat(delivered) <= old(s.Pending()) + s.source.incoming[old(s.source.pos)..]
    ensures done == |sizes| ==> old(s.source.pos) <= s.source.pos &&
                                Concat(delivered) + s.Pending() ==
                                old(s.Pending()) + s.source.incoming[old(s.source.pos)..s.source.pos]
  {
    hide Balanced, Concat;
    ghost var before, start, inc := s.Pending(), s.source.pos, s.source.incoming;
    delivered := [];
    NothingYet(before, inc, start);
    for i := 0 to |sizes|
      invariant s.Valid() && |delivered| == i && start <= s.source.pos
      invariant forall k | 0 <= k < i :: |delivered[k]| == sizes[k]
      invariant Balanced(Concat(delivered), s.Pending(), before, inc[start..s.source.pos])
    {
      done := i;
      FrontPart(Concat(delivered), s.Pending(), before, inc, start, s.source.pos);
      var out := new byte[sizes[i]];
      ghost var p, pending := s.source.pos, s.Pending();
      var rv := s.Recv(out, sizes[i]);
      if rv == -1 {
        return;
      }
      assert out[..sizes[i]] == out[..];
      DeliveredMore(delivered, out[..], pending, s.Pending(), before, inc, start, p, s.source.pos);
      delivered := delivered + [out[..]];
    }
    done := |sizes|;
    FrontPart(Concat(delivered), s.Pending(), before, inc, start, s.source.pos);
    BalancedMeans(Concat(delivered), s.Pending(), before, inc[start..s.source.pos]);
  }
}
