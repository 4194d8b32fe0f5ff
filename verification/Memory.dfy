/** The C library's block copies. */
module Memory {
  import opened Bytes

  method Copy(a: array<byte>, at: nat, buf: seq<byte>)
    requires at + |buf| <= a.Length
    modifies a
    ensures forall k | 0 <= k < a.Length ::
      a[k] == if at <= k < at + |buf| then buf[k - at] else old(a[k])
  {
    forall i | 0 <= i < |buf| {
      a[at + i] := buf[i];
    }
  }

  /** The same copy, in terms of what stands before, in and behind the place. */
  method Store(a: array<byte>, at: nat, buf: seq<byte>)
    requires at + |buf| <= a.Length
    modifies a
    ensures a[..at] == old(a[..at]) && a[at..at + |buf|] == buf
    ensures a[at + |buf|..] == old(a[at + |buf|..])
  {
    Copy(a, at, buf);
  }

  /** memmove towards higher addresses; the two areas may overlap. */
  method MoveUp(a: array<byte>, to: nat, from: nat, n: nat)
    requires from <= to && to + n <= a.Length
    modifies a
    ensures forall k | 0 <= k < a.Length ::
      a[k] == if to <= k < to + n then old(a[k - to + from]) else old(a[k])
  {
    forall i | 0 <= i < n {
      a[to + i] := a[from + i];
    }
  }

  /** The sum of the lengths of a scatter list. */
  method TotalLength(iov: seq<seq<byte>>) returns (total: nat)
    ensures total == |Concat(iov)|
  {
    total := 0;
    for i := 0 to |iov|
      invariant total == |Concat(iov[..i])|
    {
      assert iov[..i + 1][..i] == iov[..i];
      total := total + |iov[i]|;
    }
    assert iov[..|iov|] == iov;
  }

  /** Copies the pieces of a scatter list one after another. */
  method Gather(a: array<byte>, at: nat, iov: seq<seq<byte>>)
    requires at + |Concat(iov)| <= a.Length
    modifies a
    ensures forall k | 0 <= k < a.Length ::
      a[k] == if at <= k < at + |Concat(iov)| then Concat(iov)[k - at] else old(a[k])
  {
    var p := at;
    for i := 0 to |iov|
      invariant p == at + |Concat(iov[..i])| <= a.Length
      invariant forall k | 0 <= k < a.Length ::
        a[k] == if at <= k < p then Concat(iov[..i])[k - at] else old(a[k])
    {
      assert iov[..i + 1][..i] == iov[..i];
      ConcatPrefixLength(iov, i + 1);
      Copy(a, p, iov[i]);
      p := p + |iov[i]|;
    }
    assert iov[..|iov|] == iov;
  }

  lemma {:induction false} ConcatPrefixLength(iov: seq<seq<byte>>, i: nat)
    requires i <= |iov|
    ensures |Concat(iov[..i])| <= |Concat(iov)|
    decreases |iov| - i
  {
    if i < |iov| {
      assert iov[..i + 1][..i] == iov[..i];
      ConcatPrefixLength(iov, i + 1);
    } else {
      assert iov[..i] == iov;
    }
  }
}
