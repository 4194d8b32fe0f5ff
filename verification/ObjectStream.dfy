/** The MessagePack object builder, updating its buffer and its stack of open
    containers in place. */
module ObjectStream {
  import opened Bytes
  import opened MsgPack
  import opened ObjectSpec
  import Memory

  predicate Capacity(n: nat) {
    n == 1 || n == 2 || n == 4 || n == 8 || n == 16 || n == 32 || n == 64 || n == MAX_STACK
  }

  class Builder {
    var data: array<byte>
    var size: nat
    var wrcnt: nat
    var rdoff: nat
    var reqid: nat
    var stack: array<Frame>
    var stackSize: nat
    var mode: Mode

    ghost predicate Valid()
      reads this
    {
      size <= data.Length && stackSize <= stack.Length && Capacity(stack.Length) && wrcnt < U32
    }

    ghost function Repr(): set<object>
      reads this
    {
      {this, data, stack}
    }

    ghost function State(): Obj
      reads this, data, stack
      requires Valid()
    {
      Obj(data[..size], stack[..stackSize], stack.Length, mode, wrcnt)
    }

    constructor (capacity: nat)
      requires Capacity(capacity)
      ensures Valid() && fresh(Repr())
      ensures State() == Obj([], [], capacity, Simple, 0)
    {
      data := new byte[0];
      stack := new Frame[capacity];
      size, wrcnt, rdoff, reqid, stackSize, mode := 0, 0, 0, 0, 0, Simple;
    }

    /** Makes room for n more bytes, doubling the allocation when that is enough. */
    method Resize(n: nat)
      requires Valid()
      modifies this`data
      ensures Valid() && State() == old(State())
      ensures size + n <= data.Length
      ensures data == old(data) || fresh(data)
    {
      if size + n > data.Length {
        var newSize := 2 * data.Length;
        if newSize < size + n {
          newSize := size + n;
        }
        var bigger := new byte[newSize];
        forall i | 0 <= i < data.Length {
          bigger[i] := data[i];
        }
        data := bigger;
      }
    }

    method Write(buf: seq<byte>) returns (rv: int)
      requires Valid()
      modifies Repr()
      ensures Valid() && fresh(Repr() - old(Repr()))
      ensures State() == Append(old(State()), buf) && rv == |buf|
    {
      Resize(|buf|);
      Memory.Copy(data, size, buf);
      size := size + |buf|;
      wrcnt := (wrcnt + 1) % U32;
      return |buf|;
    }

    method CountChild()
      requires Valid()
      modifies stack
      ensures Valid() && State() == old(State()).(frames := Bump(old(State()).frames))
    {
      if stackSize > 0 {
        var f := stack[stackSize - 1];
        stack[stackSize - 1] := f.(size := (f.size + 1) % U32);
      }
    }

    method Writev(iov: seq<seq<byte>>) returns (rv: int)
      requires Valid()
      modifies Repr()
      ensures Valid() && fresh(Repr() - old(Repr()))
      ensures State() == Append(old(State()), Concat(iov)) && rv == |Concat(iov)|
    {
      var total := Memory.TotalLength(iov);
      Resize(total);
      Memory.Gather(data, size, iov);
      size := size + total;
      wrcnt := (wrcnt + 1) % U32;
      return total;
    }

    method AddScalarBytes(chunk: seq<byte>) returns (rv: int)
      requires Valid()
      modifies Repr()
      ensures Valid() && fresh(Repr() - old(Repr()))
      ensures State() == AddScalar(old(State()), chunk) && rv == |chunk|
    {
      CountChild();
      rv := Write(chunk);
    }

    method AddNil() returns (rv: int)
      requires Valid()
      modifies Repr()
      ensures Valid() && fresh(Repr() - old(Repr()))
      ensures State() == AddScalar(old(State()), Encode(Shortest, Nil)) && rv == 1
    {
      rv := AddScalarBytes([0xc0]);
    }

    method AddUInt(value: nat) returns (rv: int)
      requires Valid() && value < U64
      modifies Repr()
      ensures Valid() && fresh(Repr() - old(Repr()))
      ensures State() == AddScalar(old(State()), Encode(Shortest, UInt(value)))
      ensures rv == |Encode(Shortest, UInt(value))|
    {
      rv := AddScalarBytes(UIntBytes(value));
    }

    method AddInt(value: int) returns (rv: int)
      requires Valid() && -U63 <= value < U63
      modifies Repr()
      ensures Valid() && fresh(Repr() - old(Repr()))
      ensures State() == AddScalar(old(State()), Encode(Shortest, IntValue(value)))
      ensures rv == |Encode(Shortest, IntValue(value))|
    {
      if value < 0 {
        rv := AddScalarBytes(SIntBytes(value));
      } else {
        rv := AddScalarBytes(UIntBytes(value));
      }
    }

    method AddStr(str: seq<byte>) returns (rv: int)
      requires Valid() && |str| < U32
      modifies Repr()
      ensures Valid() && fresh(Repr() - old(Repr()))
      ensures State() == AddScalar(old(State()), Encode(Shortest, Str(str)))
      ensures rv == |Encode(Shortest, Str(str))|
    {
      CountChild();
      ConcatPair(StrHead(|str|), str);
      rv := Writev([StrHead(|str|), str]);
    }

    method AddBin(bin: seq<byte>) returns (rv: int)
      requires Valid() && |bin| < U32
      modifies Repr()
      ensures Valid() && fresh(Repr() - old(Repr()))
      ensures State() == AddScalar(old(State()), Encode(Shortest, Bin(bin)))
      ensures rv == |Encode(Shortest, Bin(bin))|
    {
      CountChild();
      ConcatPair(BinHead(|bin|), bin);
      rv := Writev([BinHead(|bin|), bin]);
    }

    method AddBool(value: int) returns (rv: int)
      requires Valid()
      modifies Repr()
      ensures Valid() && fresh(Repr() - old(Repr()))
      ensures State() == AddScalar(old(State()), Encode(Shortest, Bool(value != 0))) && rv == 1
    {
      rv := AddScalarBytes([if value != 0 then 0xc3 else 0xc2]);
    }

    method AddFloat(bits: seq<byte>) returns (rv: int)
      requires Valid() && |bits| == 4
      modifies Repr()
      ensures Valid() && fresh(Repr() - old(Repr()))
      ensures State() == AddScalar(old(State()), Encode(Shortest, Float(bits))) && rv == 5
    {
      rv := AddScalarBytes([0xca] + bits);
    }

    method AddDouble(bits: seq<byte>) returns (rv: int)
      requires Valid() && |bits| == 8
      modifies Repr()
      ensures Valid() && fresh(Repr() - old(Repr()))
      ensures State() == AddScalar(old(State()), Encode(Shortest, Double(bits))) && rv == 9
    {
      rv := AddScalarBytes([0xcb] + bits);
    }

    /** Replaces a full stack by a larger one without copying it. */
    method GrowStack() returns (rv: int)
      requires Valid() && stackSize == stack.Length
      modifies this`stack
      ensures Valid()
      ensures stack == old(stack) || fresh(stack)
      ensures rv == -1 <==> old(stack.Length) == 128
      ensures rv == -1 ==> stack == old(stack)
      ensures rv != -1 ==> fresh(stack) && stack.Length == 2 * old(stack.Length)
    {
      if stack.Length == MAX_STACK {
        return -1;
      }
      stack := new Frame[2 * stack.Length];
      return 0;
    }

    method PushFrame(kind: Kind)
      requires Valid() && stackSize < stack.Length
      modifies this`stackSize, stack
      ensures Valid()
      ensures State() == var o := old(State()); o.(frames := o.frames + [Frame(|o.bytes|, 0, kind)])
    {
      stack[stackSize] := Frame(size, 0, kind);
      stackSize := stackSize + 1;
    }

    method AddContainer(kind: Kind, declared: nat) returns (rv: int, ghost junk: seq<Frame>)
      requires Valid() && declared < U32
      modifies Repr()
      ensures Valid() && fresh(Repr() - old(Repr()))
      ensures |junk| == |old(State()).frames|
      ensures (State(), rv) == OpenContainer(old(State()), kind, declared, junk)
    {
      CountChild();
      junk := stack[..stackSize];
      if stackSize == stack.Length {
        var grown := GrowStack();
        if grown == -1 {
          return -1, junk;
        }
        junk := stack[..stackSize];
      }
      PushFrame(kind);
      if mode.Simple? {
        rv := Write(ContainerHead(Shortest, kind, declared));
      } else if mode.Sparse? {
        rv := Write(ContainerHead(Wide, kind, 0));
      } else {
        rv := Write(ContainerHead(Shortest, kind, 0));
      }
    }

    method AddArray(declared: nat) returns (rv: int, ghost junk: seq<Frame>)
      requires Valid() && declared < U32
      modifies Repr()
      ensures Valid() && fresh(Repr() - old(Repr()))
      ensures |junk| == |old(State()).frames|
      ensures (State(), rv) == OpenContainer(old(State()), ArrayKind, declared, junk)
      ensures old(mode).Simple? && declared < 16 && old(stackSize) < old(stack.Length) ==>
        rv == 1 && State().bytes == old(State()).bytes + [0x90 + declared]
    {
      rv, junk := AddContainer(ArrayKind, declared);
    }

    method AddMap(declared: nat) returns (rv: int, ghost junk: seq<Frame>)
      requires Valid() && declared < U32
      modifies Repr()
      ensures Valid() && fresh(Repr() - old(Repr()))
      ensures |junk| == |old(State()).frames|
      ensures (State(), rv) == OpenContainer(old(State()), MapKind, declared, junk)
      ensures old(mode).Simple? && declared < 16 && old(stackSize) < old(stack.Length) ==>
        rv == 1 && State().bytes == old(State()).bytes + [0x80 + declared]
    {
      rv, junk := AddContainer(MapKind, declared);
    }

    /** Overwrites the bytes at offset with a header of the same width. */
    method Patch(offset: nat, head: seq<byte>)
      requires Valid() && offset + |head| <= size
      modifies data
      ensures Valid()
      ensures State() == var o := old(State());
        o.(bytes := o.bytes[..offset] + head + o.bytes[offset + |head|..])
    {
      Memory.Copy(data, offset, head);
      assert data[..size] == old(State()).bytes[..offset] + head + old(State()).bytes[offset + |head|..];
    }

    /** Makes room for sz - 1 more bytes after the one-byte header at offset. */
    method ShiftTail(offset: nat, sz: nat)
      requires Valid() && offset + 1 <= size && 1 <= sz
      modifies Repr()
      ensures Valid() && fresh(Repr() - old(Repr())) && size + sz - 1 <= data.Length
      ensures stack == old(stack) && stack[..] == old(stack[..])
      ensures size == old(size) && stackSize == old(stackSize) && mode == old(mode) && wrcnt == old(wrcnt)
      ensures forall k | 0 <= k < offset :: data[k] == old(data[..size])[k]
      ensures forall k | offset + 1 <= k < size :: data[k + sz - 1] == old(data[..size])[k]
    {
      if sz > 1 {
        Resize(sz - 1);
        Memory.MoveUp(data, offset + sz, offset + 1, size - offset - 1);
      }
    }

    /** Puts a header in place of the one-byte header at offset, moving what follows it. */
    method Widen(offset: nat, head: seq<byte>)
      requires Valid() && offset + 1 <= size && 1 <= |head|
      modifies Repr()
      ensures Valid() && fresh(Repr() - old(Repr()))
      ensures State() == var o := old(State());
        o.(bytes := o.bytes[..offset] + head + o.bytes[offset + 1..])
    {
      ghost var before := State().bytes;
      ShiftTail(offset, |head|);
      Memory.Copy(data, offset, head);
      size := size + (|head| - 1);
      Spliced(data[..size], before, offset, head);
    }

    method ContainerClose() returns (rv: int)
      requires Valid() && CloseSafe(State())
      modifies Repr()
      ensures Valid() && fresh(Repr() - old(Repr()))
      ensures (State(), rv) == CloseContainer(old(State()))
    {
      if stackSize == 0 {
        return -1;
      }
      var Frame(offset, count, kind) := stack[stackSize - 1];
      if kind.MapKind? && count % 2 == 1 {
        return -1;
      }
      stackSize := stackSize - 1;
      assert State() == Pop(old(State()));
      if mode.Simple? {
        return 0;
      }
      if mode.Sparse? {
        Patch(offset, ContainerHead(Wide, kind, Count(kind, count)));
      } else {
        Widen(offset, ContainerHead(Shortest, kind, Count(kind, count)));
      }
      return 0;
    }

    /** The packing can only be chosen before anything is written. */
    method SetType(m: Mode) returns (rv: int)
      requires Valid()
      modifies this`mode
      ensures Valid() && rv == (if wrcnt > 0 then -1 else 0)
      ensures State() == if wrcnt > 0 then old(State()) else old(State()).(mode := m)
    {
      if wrcnt > 0 {
        return -1;
      }
      mode := m;
      return 0;
    }

    method Reset() returns (rv: int)
      requires Valid()
      modifies this
      ensures Valid() && data == old(data) && stack == old(stack) && rv == 0
      ensures State() == Obj([], [], old(stack.Length), Simple, 0)
      ensures rdoff == 0 && reqid == 0
    {
      reqid, wrcnt, size, rdoff, stackSize, mode := 0, 0, 0, 0, 0, Simple;
      return 0;
    }
  }

  /** The MessagePack form of a signed 64-bit integer. */
  function IntValue(value: int): (v: Value)
    ensures -U63 <= value < U63 ==> WellFormed(v)
  {
    if value < 0 then SInt(value) else UInt(value)
  }

  lemma Spliced(s: seq<byte>, before: seq<byte>, offset: nat, head: seq<byte>)
    requires offset < |before| && |s| == |before| + |head| - 1
    requires forall k | 0 <= k < offset :: s[k] == before[k]
    requires forall k | offset <= k < offset + |head| :: s[k] == head[k - offset]
    requires forall k | offset + 1 <= k < |before| :: s[k + |head| - 1] == before[k]
    ensures s == before[..offset] + head + before[offset + 1..]
  {
    assert forall k | offset + |head| <= k < |s| :: s[k] == before[k - |head| + 1];
  }

  lemma ConcatPair(a: seq<byte>, b: seq<byte>)
    ensures Concat([a, b]) == a + b
  {
    assert [a, b][..1] == [a];
    assert [a][..0] == [];
    assert Concat([a]) == a;
  }
}
