/** Update operations: a five-byte-header array whose elements are written
    directly into the buffer and counted only when it is closed. */
module Update {
  import opened Bytes
  import opened MsgPack
  import opened MsgPackLaws
  import opened ObjectSpec
  import ObjectStream

  const ADD := '+' as int as byte
  const SUBTRACT := '-' as int as byte
  const AND := '&' as int as byte
  const XOR := '^' as int as byte
  const OR := '|' as int as byte
  const DELETE := '#' as int as byte
  const INSERT := '!' as int as byte
  const ASSIGN := '=' as int as byte
  const SPLICE := ':' as int as byte

  /** One call of the update interface. */
  datatype Op =
    | Bit(sign: byte, n: nat)
    | ArithInt(sign: byte, i: int)
    | ArithFloat(sign: byte, bits: seq<byte>)
    | ArithDouble(sign: byte, bits: seq<byte>)
    | Delete(count: nat)
    | InsertValue(obj: seq<byte>)
    | AssignValue(obj: seq<byte>)
    | Splice(position: nat, offset: nat, text: seq<byte>)

  /** What the C types of the calls allow. */
  predicate OpOk(op: Op) {
    match op
    case Bit(_, n) => n < U64
    case ArithInt(_, i) => -U63 <= i < U63
    case ArithFloat(_, bits) => |bits| == 4
    case ArithDouble(_, bits) => |bits| == 8
    case Delete(count) => count < U32
    case Splice(position, offset, text) => position < U32 && offset < U32 && |text| < U32
    case _ => true
  }

  /** The calls that do not answer -1. */
  predicate Accepted(op: Op) {
    match op
    case Bit(sign, _) => sign == AND || sign == XOR || sign == OR
    case ArithInt(sign, _) => sign == ADD || sign == SUBTRACT
    case ArithFloat(sign, _) => sign == ADD || sign == SUBTRACT
    case ArithDouble(sign, _) => sign == ADD || sign == SUBTRACT
    case Delete(_) => true
    case InsertValue(obj) => Verify(obj, None) == 0
    case AssignValue(obj) => Verify(obj, None) == 0
    case Splice(_, _, _) => true
  }

  function Sign(op: Op): byte {
    match op
    case Delete(_) => DELETE
    case InsertValue(_) => INSERT
    case AssignValue(_) => ASSIGN
    case Splice(_, _, _) => SPLICE
    case _ => op.sign
  }

  /** The operands that follow the operation and the field number. */
  function Operands(op: Op): seq<Value>
    requires Accepted(op)
  {
    match op
    case Bit(_, n) => [UInt(n)]
    case ArithInt(_, i) => [ObjectStream.IntValue(i)]
    case ArithFloat(_, bits) => [Float(bits)]
    case ArithDouble(_, bits) => [Double(bits)]
    case Delete(count) => [UInt(count)]
    case InsertValue(obj) => [Decode(obj).val]
    case AssignValue(obj) => [Decode(obj).val]
    case Splice(position, offset, text) => [UInt(position), UInt(offset), Str(text)]
  }

  /** The array the server must find: operation, field number, operands. */
  function Meaning(op: Op, fieldno: nat): Value
    requires Accepted(op)
  {
    Node(ArrayKind,
      match op
      case Bit(sign, n) => [Str([sign]), UInt(fieldno), UInt(n)]
      case ArithInt(sign, i) => [Str([sign]), UInt(fieldno), if i < 0 then SInt(i) else UInt(i)]
      case ArithFloat(sign, bits) => [Str([sign]), UInt(fieldno), Float(bits)]
      case ArithDouble(sign, bits) => [Str([sign]), UInt(fieldno), Double(bits)]
      case Delete(count) => [Str([0x23]), UInt(fieldno), UInt(count)]
      case InsertValue(obj) => [Str([0x21]), UInt(fieldno), Decode(obj).val]
      case AssignValue(obj) => [Str([0x3d]), UInt(fieldno), Decode(obj).val]
      case Splice(position, offset, text) =>
        [Str([0x3a]), UInt(fieldno), UInt(position), UInt(offset), Str(text)])
  }

  lemma MeaningParts(op: Op, fieldno: nat)
    requires Accepted(op)
    ensures Meaning(op, fieldno) == Node(ArrayKind, [Str([Sign(op)]), UInt(fieldno)] + Operands(op))
  {
  }

  /** The calls that are refused are those with a foreign sign, and values that are not
      one value: bit operations are '&', '^' and '|', arithmetic ones '+' and '-'. */
  lemma AcceptedExactly(op: Op)
    ensures Accepted(op) <==> match op
      case Bit(sign, _) => sign == 0x26 || sign == 0x5e || sign == 0x7c
      case ArithInt(sign, _) => sign == 0x2b || sign == 0x2d
      case ArithFloat(sign, _) => sign == 0x2b || sign == 0x2d
      case ArithDouble(sign, _) => sign == 0x2b || sign == 0x2d
      case InsertValue(obj) => exists v: Value :: Decode(obj) == Got(v, [])
      case AssignValue(obj) => exists v: Value :: Decode(obj) == Got(v, [])
      case _ => true
  {
  }

  function OpLen(sign: byte): int {
    if sign == SPLICE then 5
    else if sign == ADD || sign == SUBTRACT || sign == AND || sign == XOR || sign == OR
         || sign == DELETE || sign == INSERT || sign == ASSIGN then 3
    else -1
  }

  function OpData(op: Op): seq<byte>
    requires OpOk(op)
  {
    match op
    case Bit(_, n) => UIntBytes(n)
    case ArithInt(_, i) => if i >= 0 then UIntBytes(i) else SIntBytes(i)
    case ArithFloat(_, bits) => [0xca] + bits
    case ArithDouble(_, bits) => [0xcb] + bits
    case Delete(count) => UIntBytes(count)
    case InsertValue(obj) => obj
    case AssignValue(obj) => obj
    case Splice(position, offset, text) =>
      UIntBytes(position) + UIntBytes(offset) + (StrHead(|text|) + text)
  }

  function OpHead(sign: byte, fieldno: nat): seq<byte>
    requires OpLen(sign) != -1
  {
    ContainerHead(Shortest, ArrayKind, OpLen(sign)) + (StrHead(1) + [sign]) + UIntBytes(fieldno)
  }

  function OpBytes(op: Op, fieldno: nat): seq<byte>
    requires OpOk(op) && Accepted(op)
  {
    OpHead(Sign(op), fieldno) + OpData(op)
  }

  /** The effect of one call. */
  function ApplyOp(o: Obj, op: Op, fieldno: nat): Obj
    requires OpOk(op)
  {
    if Accepted(op) then Append(o, OpBytes(op, fieldno)) else o
  }

  method WriteOp(ops: ObjectStream.Builder, sign: byte, fieldno: nat, data: seq<byte>) returns (rv: int)
    requires ops.Valid() && fieldno < U32 && OpLen(sign) != -1
    modifies ops.Repr()
    ensures ops.Valid() && fresh(ops.Repr() - old(ops.Repr()))
    ensures ops.State() == Append(old(ops.State()), OpHead(sign, fieldno) + data)
    ensures rv == |OpHead(sign, fieldno) + data|
  {
    var body := ContainerHead(Shortest, ArrayKind, OpLen(sign));
    body := body + (StrHead(1) + [sign]);
    body := body + UIntBytes(fieldno);
    ObjectStream.ConcatPair(body, data);
    rv := ops.Writev([body, data]);
  }

  method UpdateBit(ops: ObjectStream.Builder, fieldno: nat, sign: byte, value: nat) returns (rv: int)
    requires ops.Valid() && fieldno < U32 && value < U64
    modifies ops.Repr()
    ensures ops.Valid() && fresh(ops.Repr() - old(ops.Repr()))
    ensures ops.State() == ApplyOp(old(ops.State()), Bit(sign, value), fieldno)
    ensures rv == -1 <==> !Accepted(Bit(sign, value))
  {
    if sign != AND && sign != XOR && sign != OR {
      return -1;
    }
    rv := WriteOp(ops, sign, fieldno, UIntBytes(value));
  }

  method UpdateArithInt(ops: ObjectStream.Builder, fieldno: nat, sign: byte, value: int) returns (rv: int)
    requires ops.Valid() && fieldno < U32 && -U63 <= value < U63
    modifies ops.Repr()
    ensures ops.Valid() && fresh(ops.Repr() - old(ops.Repr()))
    ensures ops.State() == ApplyOp(old(ops.State()), ArithInt(sign, value), fieldno)
    ensures rv == -1 <==> !Accepted(ArithInt(sign, value))
  {
    if sign != ADD && sign != SUBTRACT {
      return -1;
    }
    if value >= 0 {
      rv := WriteOp(ops, sign, fieldno, UIntBytes(value));
    } else {
      rv := WriteOp(ops, sign, fieldno, SIntBytes(value));
    }
  }

  method UpdateArithFloat(ops: ObjectStream.Builder, fieldno: nat, sign: byte, bits: seq<byte>)
    returns (rv: int)
    requires ops.Valid() && fieldno < U32 && |bits| == 4
    modifies ops.Repr()
    ensures ops.Valid() && fresh(ops.Repr() - old(ops.Repr()))
    ensures ops.State() == ApplyOp(old(ops.State()), ArithFloat(sign, bits), fieldno)
    ensures rv == -1 <==> !Accepted(ArithFloat(sign, bits))
  {
    if sign != ADD && sign != SUBTRACT {
      return -1;
    }
    rv := WriteOp(ops, sign, fieldno, [0xca] + bits);
  }

  method UpdateArithDouble(ops: ObjectStream.Builder, fieldno: nat, sign: byte, bits: seq<byte>)
    returns (rv: int)
    requires ops.Valid() && fieldno < U32 && |bits| == 8
    modifies ops.Repr()
    ensures ops.Valid() && fresh(ops.Repr() - old(ops.Repr()))
    ensures ops.State() == ApplyOp(old(ops.State()), ArithDouble(sign, bits), fieldno)
    ensures rv == -1 <==> !Accepted(ArithDouble(sign, bits))
  {
    if sign != ADD && sign != SUBTRACT {
      return -1;
    }
    rv := WriteOp(ops, sign, fieldno, [0xcb] + bits);
  }

  method UpdateDelete(ops: ObjectStream.Builder, fieldno: nat, count: nat) returns (rv: int)
    requires ops.Valid() && fieldno < U32 && count < U32
    modifies ops.Repr()
    ensures ops.Valid() && fresh(ops.Repr() - old(ops.Repr()))
    ensures ops.State() == ApplyOp(old(ops.State()), Delete(count), fieldno) && rv != -1
  {
    rv := WriteOp(ops, DELETE, fieldno, UIntBytes(count));
  }

  method UpdateInsert(ops: ObjectStream.Builder, fieldno: nat, val: seq<byte>) returns (rv: int)
    requires ops.Valid() && fieldno < U32
    modifies ops.Repr()
    ensures ops.Valid() && fresh(ops.Repr() - old(ops.Repr()))
    ensures ops.State() == ApplyOp(old(ops.State()), InsertValue(val), fieldno)
    ensures rv == -1 <==> !Accepted(InsertValue(val))
  {
    if Verify(val, None) != 0 {
      return -1;
    }
    rv := WriteOp(ops, INSERT, fieldno, val);
  }

  method UpdateAssign(ops: ObjectStream.Builder, fieldno: nat, val: seq<byte>) returns (rv: int)
    requires ops.Valid() && fieldno < U32
    modifies ops.Repr()
    ensures ops.Valid() && fresh(ops.Repr() - old(ops.Repr()))
    ensures ops.State() == ApplyOp(old(ops.State()), AssignValue(val), fieldno)
    ensures rv == -1 <==> !Accepted(AssignValue(val))
  {
    if Verify(val, None) != 0 {
      return -1;
    }
    rv := WriteOp(ops, ASSIGN, fieldno, val);
  }

  method UpdateSplice(ops: ObjectStream.Builder, fieldno: nat, position: nat, offset: nat, text: seq<byte>)
    returns (rv: int)
    requires ops.Valid() && fieldno < U32 && position < U32 && offset < U32 && |text| < U32
    modifies ops.Repr()
    ensures ops.Valid() && fresh(ops.Repr() - old(ops.Repr()))
    ensures ops.State() == ApplyOp(old(ops.State()), Splice(position, offset, text), fieldno) && rv != -1
  {
    var data := UIntBytes(position);
    data := data + UIntBytes(offset);
    data := data + (StrHead(|text|) + text);
    rv := WriteOp(ops, SPLICE, fieldno, data);
  }

  /** The state of an empty container. */
  const CONTAINER := Obj([0xdd, 0, 0, 0, 0], [Frame(0, 0, ArrayKind)], 8, Sparse, 1)

  lemma ZeroHead()
    ensures ContainerHead(Wide, ArrayKind, 0) == [0xdd, 0, 0, 0, 0]
  {
    assert BE(0, 1) == [0];
    assert BE(0, 2) == [0, 0];
    assert BE(0, 3) == [0, 0, 0];
  }

  lemma ContainerState(cap: nat, junk: seq<Frame>)
    requires cap > 0
    ensures OpenContainer(Obj([], [], cap, Sparse, 0), ArrayKind, 0, junk) == (CONTAINER.(cap := cap), 5)
  {
    hide ContainerHead;
    ZeroHead();
    var f := Frame(0, 0, ArrayKind);
    assert Bump([]) + [f] == [f];
    assert [] + ContainerHead(Wide, ArrayKind, 0) == ContainerHead(Wide, ArrayKind, 0);
  }

  method Container() returns (ops: ObjectStream.Builder)
    ensures fresh(ops) && fresh(ops.Repr()) && ops.Valid() && ops.State() == CONTAINER
  {
    ops := new ObjectStream.Builder(8);
    var typed := ops.SetType(Sparse);
    var rv, junk := ops.AddArray(0);
    ContainerState(8, junk);
  }

  /** Empties a container for another use. */
  method ContainerReset(ops: ObjectStream.Builder) returns (rv: int)
    requires ops.Valid()
    modifies ops.Repr()
    ensures ops.Valid() && fresh(ops.Repr() - old(ops.Repr()))
    ensures rv == 0 && ops.State() == CONTAINER.(cap := old(ops.State()).cap)
  {
    rv := ops.Reset();
    rv := ops.SetType(Sparse);
    ghost var junk;
    rv, junk := ops.AddArray(0);
    ContainerState(old(ops.State()).cap, junk);
    rv := 0;
  }

  /** Sets the count of the outermost frame from the write counter, then closes. */
  function CloseOps(o: Obj): Obj
    requires o.frames != []
    requires CloseSafe(o)
  {
    var counted := o.(frames := o.frames[0 := o.frames[0].(size := (o.wrcnt + U32 - 1) % U32)]);
    CloseContainer(counted).0
  }

  method ContainerClose(ops: ObjectStream.Builder) returns (rv: int)
    requires ops.Valid() && CloseSafe(ops.State())
    modifies ops.Repr()
    ensures ops.Valid() && fresh(ops.Repr() - old(ops.Repr())) && rv == 0
    ensures ops.State() ==
      if old(ops.State()).frames == [] then old(ops.State()) else CloseOps(old(ops.State()))
  {
    var f := ops.stack[0];
    ops.stack[0] := f.(size := (ops.wrcnt + U32 - 1) % U32);
    ghost var o := old(ops.State());
    assert o.frames != [] ==>
      ops.State() == o.(frames := o.frames[0 := o.frames[0].(size := (o.wrcnt + U32 - 1) % U32)]);
    var closed := ops.ContainerClose();
    rv := 0;
  }

  // ----- what a run of the interface builds -----

  function RunOps(o: Obj, calls: seq<(Op, nat)>): Obj
    requires forall c | c in calls :: OpOk(c.0)
    decreases |calls|
  {
    if calls == [] then o else RunOps(ApplyOp(o, calls[0].0, calls[0].1), calls[1..])
  }

  /** The operations of the accepted calls, in order. */
  function Requested(calls: seq<(Op, nat)>): seq<Value>
    requires forall c | c in calls :: OpOk(c.0)
    decreases |calls|
  {
    if calls == [] then []
    else
      (if Accepted(calls[0].0) then [Meaning(calls[0].0, calls[0].1)] else []) + Requested(calls[1..])
  }

  lemma DecodeThree(a: seq<byte>, x: Value, b: seq<byte>, y: Value, c: seq<byte>, zs: seq<Value>, t: seq<byte>)
    requires Decode(a + (b + (c + t))) == Got(x, b + (c + t))
    requires Decode(b + (c + t)) == Got(y, c + t)
    requires DecodeAll(c + t, |zs|) == Got(zs, t)
    ensures DecodeAll(a + (b + (c + t)), 2 + |zs|) == Got([x, y] + zs, t)
  {
    hide Decode;
    DecodeAllStep(b + (c + t), c + t, y, zs, t);
    DecodeAllStep(a + (b + (c + t)), b + (c + t), x, [y] + zs, t);
    assert [x] + ([y] + zs) == [x, y] + zs;
  }

  lemma DecodeOne(a: seq<byte>, v: Value, t: seq<byte>)
    requires Decode(a + t) == Got(v, t)
    ensures DecodeAll(a + t, 1) == Got([v], t)
  {
    hide Decode;
    DecodeAllStep(a + t, t, v, [], t);
    assert [v] + [] == [v];
  }

  lemma OperandsDecode(op: Op, t: seq<byte>)
    requires OpOk(op) && Accepted(op)
    ensures DecodeAll(OpData(op) + t, |Operands(op)|) == Got(Operands(op), t)
  {
    hide Decode, DecodeAll, UIntBytes, SIntBytes, StrHead;
    match op
    case Bit(_, n) =>
      DecodeOfEncode(Shortest, UInt(n), t);
      DecodeOne(UIntBytes(n), UInt(n), t);
    case ArithInt(_, i) =>
      DecodeOfEncode(Shortest, ObjectStream.IntValue(i), t);
      DecodeOne(OpData(op), ObjectStream.IntValue(i), t);
    case ArithFloat(_, bits) =>
      DecodeOfEncode(Shortest, Float(bits), t);
      DecodeOne([0xca] + bits, Float(bits), t);
    case ArithDouble(_, bits) =>
      DecodeOfEncode(Shortest, Double(bits), t);
      DecodeOne([0xcb] + bits, Double(bits), t);
    case Delete(count) =>
      DecodeOfEncode(Shortest, UInt(count), t);
      DecodeOne(UIntBytes(count), UInt(count), t);
    case InsertValue(obj) =>
      VerifiedDecodes(obj, t);
      DecodeOne(obj, Decode(obj).val, t);
    case AssignValue(obj) =>
      VerifiedDecodes(obj, t);
      DecodeOne(obj, Decode(obj).val, t);
    case Splice(position, offset, text) =>
      SpliceDecodes(position, offset, text, t);
  }

  lemma VerifiedDecodes(obj: seq<byte>, t: seq<byte>)
    requires Verify(obj, None) == 0
    ensures Decode(obj).Got? && Decode(obj + t) == Got(Decode(obj).val, t)
  {
    hide Decode;
    DecodeExtends(obj, t);
    assert [] + t == t;
  }

  lemma SpliceDecodes(position: nat, offset: nat, text: seq<byte>, t: seq<byte>)
    requires position < U32 && offset < U32 && |text| < U32
    ensures DecodeAll(UIntBytes(position) + UIntBytes(offset) + (StrHead(|text|) + text) + t, 3)
         == Got([UInt(position), UInt(offset), Str(text)], t)
  {
    hide Decode, DecodeAll, UIntBytes, StrHead;
    var a, b, c := UIntBytes(position), UIntBytes(offset), StrHead(|text|) + text;
    assert a + b + c + t == a + (b + (c + t));
    DecodeOfEncode(Shortest, UInt(position), b + (c + t));
    DecodeOfEncode(Shortest, UInt(offset), c + t);
    DecodeOfEncode(Shortest, Str(text), t);
    DecodeOne(c, Str(text), t);
    DecodeThree(a, UInt(position), b, UInt(offset), c, [Str(text)], t);
    assert [UInt(position), UInt(offset)] + [Str(text)] == [UInt(position), UInt(offset), Str(text)];
  }

  /** The bytes of an accepted call decode to the requested operation: an array
      of three elements, or five for a splice. */
  lemma OpDecodes(op: Op, fieldno: nat, t: seq<byte>)
    requires OpOk(op) && Accepted(op) && fieldno < U32
    ensures Decode(OpBytes(op, fieldno) + t) == Got(Meaning(op, fieldno), t)
    ensures |Meaning(op, fieldno).items| == if op.Splice? then 5 else 3
  {
    hide Decode, DecodeAll, UIntBytes, StrHead, ContainerHead, OpData, Operands;
    var sign := Sign(op);
    var h, a, b, c := ContainerHead(Shortest, ArrayKind, OpLen(sign)), StrHead(1) + [sign], UIntBytes(fieldno),
      OpData(op);
    OperandCount(op);
    MeaningParts(op, fieldno);
    OperandsDecode(op, t);
    DecodeOfEncode(Shortest, Str([sign]), b + (c + t));
    DecodeOfEncode(Shortest, UInt(fieldno), c + t);
    DecodeThree(a, Str([sign]), b, UInt(fieldno), c, Operands(op), t);
    DecodeNode(Shortest, ArrayKind, Meaning(op, fieldno).items, a + (b + (c + t)), t);
    assert OpBytes(op, fieldno) + t == h + (a + (b + (c + t)));
  }

  lemma OperandCount(op: Op)
    requires Accepted(op)
    ensures |Operands(op)| == (if op.Splice? then 3 else 1) && OpLen(Sign(op)) == 2 + |Operands(op)|
  {
  }

  lemma {:induction false} RunCounts(o: Obj, calls: seq<(Op, nat)>)
    requires forall c | c in calls :: OpOk(c.0)
    requires o.wrcnt < U32
    ensures var r := RunOps(o, calls);
      && r.frames == o.frames && r.mode == o.mode && r.cap == o.cap
      && r.wrcnt == (o.wrcnt + |Requested(calls)|) % U32
    decreases |calls|
  {
    hide OpBytes, Meaning, Accepted, OpOk;
    if calls != [] {
      var o' := ApplyOp(o, calls[0].0, calls[0].1);
      RunCounts(o', calls[1..]);
      AddMod(o.wrcnt, |Requested(calls[1..])|);
    }
  }

  lemma AddMod(w: nat, n: nat)
    ensures ((w + 1) % U32 + n) % U32 == (w + (1 + n)) % U32
  {
  }

  /** Each accepted call adds its operation behind the ones before it. */
  lemma {:induction false} RunDecodes(o: Obj, calls: seq<(Op, nat)>, t: seq<byte>) returns (tail: seq<byte>)
    requires forall c | c in calls :: OpOk(c.0) && c.1 < U32
    ensures RunOps(o, calls).bytes == o.bytes + tail
    ensures DecodeAll(tail + t, |Requested(calls)|) == Got(Requested(calls), t)
    decreases |calls|
  {
    hide Decode, OpBytes, Meaning, Accepted, OpOk;
    if calls == [] {
      tail := [];
      assert o.bytes + tail == o.bytes && tail + t == t;
    } else {
      var (op, fieldno) := calls[0];
      tail := RunDecodes(ApplyOp(o, op, fieldno), calls[1..], t);
      if Accepted(op) {
        var mine := OpBytes(op, fieldno);
        OpDecodes(op, fieldno, tail + t);
        DecodeAllStep(mine + (tail + t), tail + t, Meaning(op, fieldno), Requested(calls[1..]), t);
        assert o.bytes + mine + tail == o.bytes + (mine + tail);
        assert mine + (tail + t) == (mine + tail) + t;
        tail := mine + tail;
        assert Requested(calls) == [Meaning(op, fieldno)] + Requested(calls[1..]);
      } else {
        assert Requested(calls) == Requested(calls[1..]);
      }
    }
  }

  /** The whole protocol: a container, new or reset, any calls, one close. The buffer
      is one array of exactly the accepted operations, in order, if and only if
      there are fewer than 2^32 of them; the count in its header is kept in 32 bits. */
  lemma UpdateRun(cap: nat, calls: seq<(Op, nat)>)
    requires forall c | c in calls :: OpOk(c.0) && c.1 < U32
    ensures var r := RunOps(CONTAINER.(cap := cap), calls);
      && r.frames != [] && CloseSafe(r)
      && CloseOps(r).frames == []
      && |CloseOps(r).bytes| >= 5
      && CloseOps(r).bytes[..5] == ContainerHead(Wide, ArrayKind, |Requested(calls)| % U32)
      && (Decode(CloseOps(r).bytes) == Got(Node(ArrayKind, Requested(calls)), []) <==> |Requested(calls)| < U32)
  {
    hide Decode, DecodeAll, Requested, RunOps, CloseOps, ContainerHead;
    var r, n := RunOps(CONTAINER.(cap := cap), calls), |Requested(calls)|;
    RunCounts(CONTAINER.(cap := cap), calls);
    var tail := RunDecodes(CONTAINER.(cap := cap), calls, []);
    assert tail + [] == tail;
    ClosedContainer(r, tail, n);
    if n < U32 {
      DecodeNode(Wide, ArrayKind, Requested(calls), tail, []);
    } else {
      CountTold(n % U32, tail);
    }
  }

  lemma ClosedContainer(r: Obj, tail: seq<byte>, n: nat)
    requires r == CONTAINER.(cap := r.cap, bytes := CONTAINER.bytes + tail, wrcnt := (1 + n) % U32)
    ensures CloseSafe(r) && CloseOps(r).frames == []
    ensures CloseOps(r).bytes == ContainerHead(Wide, ArrayKind, n % U32) + tail
  {
    hide ContainerHead;
    CountFromWrites(r.wrcnt, n);
    assert r.bytes[5..] == tail;
  }

  /** The write counter less one is the number of operations. */
  lemma CountFromWrites(wrcnt: nat, n: nat)
    requires wrcnt == (1 + n) % U32
    ensures (wrcnt + U32 - 1) % U32 == n % U32
  {
  }

  /** An array does not decode to another number of items than its header tells. */
  lemma CountTold(n: nat, tail: seq<byte>)
    requires n < U32
    ensures var v := Decode(ContainerHead(Wide, ArrayKind, n) + tail);
      v.Got? ==> v.val.Node? && |v.val.items| == n
  {
    hide DecodeAll, ReadToken;
    ReadContainerHead(Wide, ArrayKind, n, tail);
  }
}
