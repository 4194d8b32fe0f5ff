/** The buffer stream: requests and replies kept in memory. */
module BufStream {
  import opened Bytes
  import Memory

  class Buffer {
    var data: array<byte>
    var size: nat
    var rdoff: nat
    var wrcnt: nat
    var reqid: nat
    /** Set when the bytes belong to the caller. */
    const borrowed: bool

    ghost predicate Valid()
      reads this
    {
      size <= data.Length && rdoff <= size && wrcnt < U32 && reqid < U64
    }

    ghost function Repr(): set<object>
      reads this
    {
      {this, data}
    }

    /** Everything written so far. */
    ghost function Contents(): seq<byte>
      reads this, data
      requires Valid()
    {
      data[..size]
    }

    constructor ()
      ensures Valid() && fresh(Repr())
      ensures Contents() == [] && rdoff == 0 && wrcnt == 0 && reqid == 0 && !borrowed
    {
      data := new byte[0];
      size, rdoff, wrcnt, reqid, borrowed := 0, 0, 0, 0, false;
    }

    constructor As(buf: array<byte>)
      ensures Valid() && fresh(this) && data == buf
      ensures size == buf.Length && rdoff == 0 && wrcnt == 0 && reqid == 0 && borrowed
    {
      data := buf;
      size, rdoff, wrcnt, reqid, borrowed := buf.Length, 0, 0, 0, true;
    }

    /** Reallocates to exactly the bytes that will be in use. */
    method Resize(n: nat)
      requires Valid()
      modifies this`data
      ensures Valid() && Contents() == old(Contents()) && fresh(data) && data.Length == size + n
    {
      var bigger := new byte[size + n];
      forall i | 0 <= i < size {
        bigger[i] := data[i];
      }
      data := bigger;
    }

    /** Appends the pieces of a scatter list as one write. */
    method Writev(iov: seq<seq<byte>>) returns (rv: int)
      requires Valid()
      modifies this`data, this`size, this`wrcnt, data
      ensures Valid() && fresh(Repr() - old(Repr()))
      ensures borrowed ==> rv == -1 && Contents() == old(Contents()) && wrcnt == old(wrcnt)
      ensures !borrowed ==>
        && rv == |Concat(iov)| && Contents() == old(Contents()) + Concat(iov)
        && wrcnt == (old(wrcnt) + 1) % U32
    {
      if borrowed {
        return -1;
      }
      var total := Memory.TotalLength(iov);
      Resize(total);
      Memory.Gather(data, size, iov);
      size := size + total;
      wrcnt := (wrcnt + 1) % U32;
      return total;
    }
  }
}
