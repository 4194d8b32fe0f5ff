/** The header-only builder: pointers into one buffer that may move when it grows. */
module Tp {
  import opened Bytes
  import opened MsgPack
  import opened RequestSpec
  import opened TpSpec
  import Memory
  import Request

  /** Nothing, the bundled reallocator, or a caller's function that keeps the bytes and
      makes enough room. */
  datatype Reserve = NoReserve | Realloc | Roomy

  class Tp {
    /** Addresses: where the buffer starts, the next byte goes, and the buffer ends. */
    var s: nat
    var p: nat
    var e: nat
    /** Addresses of the length and of the sync of the open request; zero for none. */
    var size: nat
    var sync: nat
    const reserve: Reserve
    /** The memory from s to e. */
    var buf: array<byte>
    ghost var payloads: seq<seq<byte>>

    ghost function Repr(): set<object>
      reads this
    {
      {this, buf}
    }

    /** The pointers are in order and lie in the buffer. */
    predicate Placed()
      reads this
    {
      s <= p <= e && buf.Length == e - s && (s == 0 ==> e == 0)
    }

    /** The buffer is a row of frames with right lengths; the pointers name the last. */
    ghost predicate Valid()
      reads Repr()
    {
      && Placed() && buf[..p - s] == Frames(payloads)
      && (payloads == [] ==> size == 0 && sync == 0)
      && (payloads != [] ==> s > 0 && |payloads[|payloads| - 1]| >= 9
                             && size == s + |Frames(payloads[..|payloads| - 1])| && sync == size + 9)
    }

    /** Growing does what the bundled reallocator is taken to do; it ignores the bytes
        in use. */
    predicate Grows(n: nat)
      reads this
    {
      n <= e - p || reserve != Realloc || !(n <= 2 * (e - s) < p - s + n)
    }

    /** A caller's buffer at some address, or none at all. */
    constructor (at: nat, memory: array<byte>, reserve: Reserve)
      requires at == 0 ==> memory.Length == 0
      ensures Valid() && payloads == [] && this.reserve == reserve && buf == memory
    {
      s, p, e, size, sync, buf, payloads := at, at, at + memory.Length, 0, 0, memory, [];
      this.reserve := reserve;
      new;
      assert buf[..0] == [];
    }

    /** Makes room for n bytes. The buffer may move to any address; every pointer keeps
        its distance from the start, and no byte in use changes. */
    method Ensure(n: nat) returns (rc: int)
      requires Valid() && Grows(n)
      modifies this`s, this`p, this`e, this`size, this`sync, this`buf
      ensures Valid() && payloads == old(payloads)
      ensures rc == -1 || (rc >= 0 && n <= e - p)
      ensures rc == -1 ==> old(e - p) < n
      ensures rc == -1 ==> s == old(s) && e == old(e) && buf == old(buf)
      ensures p - s == old(p - s)
      ensures payloads != [] ==> size - s == old(size - s) && sync - s == old(sync - s)
      ensures buf == old(buf) || fresh(buf)
      ensures n > 0 && rc != -1 ==> s > 0
      ensures old(e - p) >= n ==> rc == 0 && buf == old(buf) && s == old(s)
    {
      hide Frames;
      if e - p >= n {
        return 0;
      }
      if reserve == NoReserve {
        return -1;
      }
      var ok, np, sz := CallReserve(n);
      if !ok {
        return -1;
      }
      Move(np, sz);
      return sz;
    }

    /** What the reserve function answers: a place for the buffer and its size. It may
        fail. */
    method CallReserve(n: nat) returns (ok: bool, np: nat, sz: nat)
      requires Placed() && Grows(n) && e - p < n && reserve != NoReserve
      ensures ok ==> np > 0 && sz >= p - s + n
    {
      GrownEnough(e - s, p - s, n);
      sz := Grown(e - s, n);
      if reserve == Roomy {
        sz :| sz >= p - s + n;
      }
      np :| np > 0;
      ok := *;
    }

    /** Moves the bytes in use and all pointers to a new place. */
    method Move(np: nat, sz: nat)
      requires Valid() && np > 0 && sz >= p - s
      modifies this`s, this`p, this`e, this`size, this`sync, this`buf
      ensures Valid() && s == np && e == np + sz && p - s == old(p - s) && fresh(buf)
      ensures payloads != [] ==> size - s == old(size - s) && sync - s == old(sync - s)
    {
      hide Frames;
      var moved := new byte[sz];
      forall i | 0 <= i < p - s {
        moved[i] := buf[i];
      }
      assert moved[..p - s] == buf[..p - s];
      if size != 0 {
        size := np + (size - s);
      }
      if sync != 0 {
        sync := np + (sync - s);
      }
      p := np + (p - s);
      s := np;
      e := np + sz;
      buf := moved;
    }

    /** Takes n bytes behind p into the open request, and writes its new length. */
    method Add(n: nat) returns (ptr: nat)
      requires Placed() && n <= e - p && s <= size && size + 5 <= p + n
      modifies this`p, buf
      ensures Placed() && ptr == old(p) && p == old(p) + n
      ensures buf[..p - s] == old(buf[..size - s]) + LengthBytes(p - size - 5) + old(buf[size + 5 - s..p + n - s])
    {
      hide LengthBytes;
      ptr := p;
      p := p + n;
      ghost var before := buf[..];
      var length := LengthBytes(p - size - 5);
      Memory.Copy(buf, size - s, length);
      Patched(before, buf[..], size - s, length, p - s);
      assert before[..size - s] == old(buf[..size - s]);
      assert before[size + 5 - s..p - s] == old(buf[size + 5 - s..p + n - s]);
    }

    // ----- bytes for the open request -----

    /** Encodes a value whose size was computed before. */
    method Append(chunk: seq<byte>, sz: nat) returns (ok: bool, ptr: nat)
      requires Valid() && payloads != [] && sz == |chunk| && Grows(sz)
      modifies Repr()
      ensures Valid() && fresh(Repr() - old(Repr()))
      ensures ok ==> payloads == Extended(old(payloads), chunk) && ptr - s == old(p - s) && p == ptr + sz
      ensures !ok ==> payloads == old(payloads) && old(e - p) < sz
    {
      hide Frames, BE, LengthBytes;
      var rc := Ensure(sz);
      if rc == -1 {
        return false, 0;
      }
      ptr := Extend(chunk, sz);
      ok := true;
    }

    method Extend(chunk: seq<byte>, sz: nat) returns (ptr: nat)
      requires Valid() && payloads != [] && sz == |chunk| && sz <= e - p
      modifies this`p, this`payloads, buf
      ensures Valid() && payloads == Extended(old(payloads), chunk)
      ensures ptr == old(p) && p == ptr + sz
    {
      hide Frames, BE, LengthBytes;
      LastFrame(payloads);
      ghost var inUse := buf[..p - s];
      Memory.Store(buf, p - s, chunk);
      ghost var all := buf[..p + sz - s];
      assert all == inUse + chunk by {
        assert all == all[..p - s] + all[p - s..];
      }
      assert buf[..size - s] == all[..size - s];
      assert buf[size + 5 - s..p + sz - s] == all[size + 5 - s..p + sz - s];
      ptr := Add(sz);
      ExtendedFrames(payloads, chunk, inUse, all, size - s, p - s, buf[..p - s]);
      payloads := Extended(payloads, chunk);
    }

    // ----- a new request -----

    /** Between a request's header and its end: the body so far stands behind the header,
        and h is the place for the next byte. */
    ghost predicate Building(h: nat, code: byte, body: seq<byte>)
      reads Repr()
    {
      && Placed() && s > 0 && buf[..p - s] == Frames(payloads) && size == p && sync == p + 9
      && h == p - s + 14 + |body| && h <= buf.Length
      && buf[p - s + 5..h] == TpHeader(code, 0) + body
    }

    /** Makes room and encodes the header behind the place of the length. */
    method Open(code: byte, sz: nat) returns (ok: bool, h: nat)
      requires Valid() && code < 0x80 && Grows(sz + 14)
      modifies Repr()
      ensures fresh(Repr() - old(Repr())) && payloads == old(payloads) && p - s == old(p - s)
      ensures ok ==> Building(h, code, []) && p + 14 + sz <= e
      ensures !ok ==> Valid() && old(e - p) < sz + 14
    {
      hide Frames, BE, LengthBytes;
      var rc := Ensure(sz + 14);
      if rc == -1 {
        return false, 0;
      }
      ghost var inUse := buf[..p - s];
      size := p;
      sync := p + 9;
      var header := [0x82, CODE, code, SYNC, 0xce] + [0, 0, 0, 0];
      ZeroSync();
      assert header == TpHeader(code, 0);
      Memory.Store(buf, p - s + 5, header);
      h := p - s + 14;
      assert buf[p - s + 5..h] == header;
      assert buf[..p - s] == buf[..p - s + 5][..p - s];
      assert buf[p - s + 5..h] == TpHeader(code, 0) + [];
      ok := true;
    }

    method Emit(h: nat, chunk: seq<byte>, ghost code: byte, ghost body: seq<byte>) returns (end: nat)
      requires Building(h, code, body) && h + |chunk| <= buf.Length
      modifies buf
      ensures Building(end, code, body + chunk)
    {
      hide Frames, BE, LengthBytes;
      ghost var inUse, done := buf[..p - s], buf[p - s + 5..h];
      Memory.Copy(buf, h, chunk);
      end := h + |chunk|;
      assert buf[..p - s] == inUse;
      assert buf[p - s + 5..end] == done + chunk;
      assert TpHeader(code, 0) + body + chunk == TpHeader(code, 0) + (body + chunk);
    }

    method Close(h: nat, sz: nat, ghost code: byte, ghost body: seq<byte>) returns (ptr: nat)
      requires Building(h, code, body) && sz == |body| && p + 14 + sz <= e
      modifies this`p, this`payloads, buf
      ensures Valid() && payloads == Opened(old(payloads), code, body)
      ensures ptr == old(p) && s == old(s)
    {
      hide Frames, BE, LengthBytes;
      ghost var inUse := buf[..p - s];
      assert buf[..size - s] == inUse;
      ptr := Add(14 + sz);
      ghost var payload := TpHeader(code, 0) + body;
      OneFrameMore(payloads, payload);
      FrameOf(inUse, payload);
      assert buf[..p - s] == inUse + Frame(payload);
      assert Opened(payloads, code, body)[..|payloads|] == payloads;
      payloads := Opened(payloads, code, body);
    }

    method EmitMap(h: nat, count: nat, ghost code: byte) returns (end: nat)
      requires Building(h, code, []) && h + SizeofContainer(count) <= buf.Length
      modifies buf
      ensures Building(end, code, ContainerHead(Shortest, MapKind, count) + PairsBytes([]))
      ensures end == h + SizeofContainer(count)
    {
      hide Building, ContainerHead;
      SizesExact(count, 0, [], MapKind);
      Placing(h, code, []);
      end := Emit(h, ContainerHead(Shortest, MapKind, count), code, []);
      assert [] + ContainerHead(Shortest, MapKind, count)
          == ContainerHead(Shortest, MapKind, count) + PairsBytes([]);
      Placing(end, code, [] + ContainerHead(Shortest, MapKind, count));
    }

    lemma Placing(h: nat, code: byte, body: seq<byte>)
      requires Building(h, code, body)
      ensures Placed() && h == p - s + 14 + |body| && h <= buf.Length
    {
      hide Frames;
    }

    method EmitPair(h: nat, key: byte, chunk: seq<byte>, ghost code: byte, ghost head: seq<byte>, ghost ps: seq<Pair>)
      returns (end: nat)
      requires Building(h, code, head + PairsBytes(ps)) && h + SizeofUInt(key) + |chunk| <= buf.Length
      modifies buf
      ensures Building(end, code, head + PairsBytes(ps + [Pair(key, chunk)]))
      ensures end == h + SizeofUInt(key) + |chunk|
    {
      hide Building, PairsBytes, UIntBytes;
      SizesExact(key, 0, [], MapKind);
      Placing(h, code, head + PairsBytes(ps));
      var mid := EmitKey(h, key, code, head, ps);
      end := Emit(mid, chunk, code, head + PairsBytes(ps) + UIntBytes(key));
      Placing(end, code, head + PairsBytes(ps) + UIntBytes(key) + chunk);
      Request.OnePairMore(head, ps, Pair(key, chunk));
      assert head + PairsBytes(ps) + UIntBytes(key) + chunk == head + PairsBytes(ps) + (UIntBytes(key) + chunk);
    }

    method EmitNumber(h: nat, key: byte, n: nat, ghost code: byte, ghost head: seq<byte>, ghost ps: seq<Pair>)
      returns (end: nat)
      requires Building(h, code, head + PairsBytes(ps)) && h + SizeofUInt(key) + SizeofUInt(n) <= buf.Length
      modifies buf
      ensures Building(end, code, head + PairsBytes(ps + [NumPair(key, n)]))
      ensures end == h + SizeofUInt(key) + SizeofUInt(n)
    {
      hide Building, PairsBytes, UIntBytes;
      SizesExact(n, 0, [], MapKind);
      end := EmitPair(h, key, UIntBytes(n), code, head, ps);
    }

    method EmitKey(h: nat, key: byte, ghost code: byte, ghost head: seq<byte>, ghost ps: seq<Pair>) returns (end: nat)
      requires Building(h, code, head + PairsBytes(ps)) && h + SizeofUInt(key) <= buf.Length
      modifies buf
      ensures Building(end, code, head + PairsBytes(ps) + UIntBytes(key))
      ensures end == h + SizeofUInt(key)
    {
      hide Building, PairsBytes, UIntBytes;
      SizesExact(key, 0, [], MapKind);
      Placing(h, code, head + PairsBytes(ps));
      end := Emit(h, UIntBytes(key), code, head + PairsBytes(ps));
      Placing(end, code, head + PairsBytes(ps) + UIntBytes(key));
    }

    method Ping() returns (ok: bool, ptr: nat)
      requires Valid() && Grows(15)
      modifies Repr()
      ensures Valid() && fresh(Repr() - old(Repr()))
      ensures ok ==> payloads == Opened(old(payloads), OP_PING, [0x80]) && ptr - s == old(p - s)
      ensures !ok ==> payloads == old(payloads)
    {
      hide Valid, Building;
      var sz := SizeofContainer(0);
      var h;
      ok, h := Open(OP_PING, sz);
      if !ok {
        return ok, 0;
      }
      Placing(h, OP_PING, []);
      h := EmitMap(h, 0, OP_PING);
      assert ContainerHead(Shortest, MapKind, 0) + PairsBytes([]) == [0x80];
      ptr := Close(h, sz, OP_PING, [0x80]);
    }

    method Select(space: nat, index: nat, offset: nat, iter: nat, limit: nat) returns (ok: bool, ptr: nat)
      requires Valid() && space < U32 && index < U32 && offset < U32 && iter < U32 && limit < U32
      requires Grows(SelectSize(space, index, offset, iter, limit) + 14)
      modifies Repr()
      ensures Valid() && fresh(Repr() - old(Repr()))
      ensures ok ==>
        && payloads == Opened(old(payloads), OP_SELECT, Begun(6, SelectNumbers(space, index, offset, iter, limit), KEY))
        && ptr - s == old(p - s)
      ensures !ok ==> payloads == old(payloads)
    {
      hide Valid, Building, Grows, PairsBytes, UIntBytes, ContainerHead, SizeofUInt;
      ghost var head, code := ContainerHead(Shortest, MapKind, 6), OP_SELECT;
      var sz := SelectSize(space, index, offset, iter, limit);
      var h;
      ok, h := Open(OP_SELECT, sz);
      if !ok {
        return ok, 0;
      }
      Placing(h, code, []);
      h := EmitMap(h, 6, code);
      ghost var ps := SelectNumbers(space, index, offset, iter, limit);
      Prefixes(ps);
      h := EmitNumber(h, SPACE, space, code, head, ps[..0]);
      h := EmitNumber(h, INDEX, index, code, head, ps[..1]);
      h := EmitNumber(h, OFFSET, offset, code, head, ps[..2]);
      h := EmitNumber(h, LIMIT, limit, code, head, ps[..3]);
      h := EmitNumber(h, ITERATOR, iter, code, head, ps[..4]);
      h := EmitKey(h, KEY, code, head, ps);
      Placing(h, code, Begun(6, ps, KEY));
      ptr := Close(h, sz, code, Begun(6, ps, KEY));
    }

    /** A body that begins with a space and ends at the key of its next field. */
    method BeginSpace(code: byte, count: nat, space: nat, key: byte) returns (ok: bool, ptr: nat)
      requires Valid() && code < 0x80 && space < U32
      requires Grows(SpaceSize(count, space, key) + 14)
      modifies Repr()
      ensures Valid() && fresh(Repr() - old(Repr()))
      ensures ok ==>
        payloads == Opened(old(payloads), code, Begun(count, [NumPair(SPACE, space)], key)) && ptr - s == old(p - s)
      ensures !ok ==> payloads == old(payloads)
    {
      hide Valid, Building, Grows, PairsBytes, UIntBytes, ContainerHead, SizeofUInt, SizeofContainer;
      ghost var head := ContainerHead(Shortest, MapKind, count);
      var sz := SpaceSize(count, space, key);
      var h;
      ok, h := Open(code, sz);
      if !ok {
        return ok, 0;
      }
      Placing(h, code, []);
      h := EmitMap(h, count, code);
      assert [] + [NumPair(SPACE, space)] == [NumPair(SPACE, space)];
      h := EmitNumber(h, SPACE, space, code, head, []);
      h := EmitKey(h, key, code, head, [NumPair(SPACE, space)]);
      Placing(h, code, Begun(count, [NumPair(SPACE, space)], key));
      ptr := Close(h, sz, code, Begun(count, [NumPair(SPACE, space)], key));
    }

    method Insert(space: nat) returns (ok: bool, ptr: nat)
      requires Valid() && space < U32 && Grows(SpaceSize(2, space, TUPLE) + 14)
      modifies Repr()
      ensures Valid() && fresh(Repr() - old(Repr()))
      ensures ok ==> payloads == Opened(old(payloads), OP_INSERT, Begun(2, [NumPair(SPACE, space)], TUPLE))
      ensures !ok ==> payloads == old(payloads)
    {
      ok, ptr := BeginSpace(OP_INSERT, 2, space, TUPLE);
    }

    method Replace(space: nat) returns (ok: bool, ptr: nat)
      requires Valid() && space < U32 && Grows(SpaceSize(2, space, TUPLE) + 14)
      modifies Repr()
      ensures Valid() && fresh(Repr() - old(Repr()))
      ensures ok ==> payloads == Opened(old(payloads), OP_REPLACE, Begun(2, [NumPair(SPACE, space)], TUPLE))
      ensures !ok ==> payloads == old(payloads)
    {
      ok, ptr := BeginSpace(OP_REPLACE, 2, space, TUPLE);
    }

    method Update(space: nat) returns (ok: bool, ptr: nat)
      requires Valid() && space < U32 && Grows(SpaceSize(3, space, KEY) + 14)
      modifies Repr()
      ensures Valid() && fresh(Repr() - old(Repr()))
      ensures ok ==> payloads == Opened(old(payloads), OP_UPDATE, Begun(3, [NumPair(SPACE, space)], KEY))
      ensures !ok ==> payloads == old(payloads)
    {
      ok, ptr := BeginSpace(OP_UPDATE, 3, space, KEY);
    }

    /** A function call or an evaluation, up to its arguments. */
    method BeginText(code: byte, key: byte, text: seq<byte>) returns (ok: bool, ptr: nat)
      requires Valid() && code < 0x80 && key < 0x80 && |text| < 0x8000_0000
      requires Grows(TextSize(|text|) + 14)
      modifies Repr()
      ensures Valid() && fresh(Repr() - old(Repr()))
      ensures ok ==> payloads == Opened(old(payloads), code, Begun(2, [TextPair(key, text)], TUPLE))
      ensures ok ==> ptr - s == old(p - s)
      ensures !ok ==> payloads == old(payloads)
    {
      hide Valid, Building, Grows, PairsBytes, UIntBytes, ContainerHead, StrHead, SizeofStr;
      ghost var head := ContainerHead(Shortest, MapKind, 2);
      var sz := TextSize(|text|);
      SizesExact(2, 0, text, MapKind);
      var h;
      ok, h := Open(code, sz);
      if !ok {
        return ok, 0;
      }
      Placing(h, code, []);
      h := EmitMap(h, 2, code);
      assert [] + [TextPair(key, text)] == [TextPair(key, text)];
      h := EmitPair(h, key, StrHead(|text|) + text, code, head, []);
      h := EmitKey(h, TUPLE, code, head, [TextPair(key, text)]);
      Placing(h, code, Begun(2, [TextPair(key, text)], TUPLE));
      ptr := Close(h, sz, code, Begun(2, [TextPair(key, text)], TUPLE));
    }

    method Call(name: seq<byte>) returns (ok: bool, ptr: nat)
      requires Valid() && |name| < 0x8000_0000 && Grows(TextSize(|name|) + 14)
      modifies Repr()
      ensures Valid() && fresh(Repr() - old(Repr()))
      ensures ok ==> payloads == Opened(old(payloads), OP_CALL_16, Begun(2, [TextPair(FUNCTION, name)], TUPLE))
      ensures !ok ==> payloads == old(payloads)
    {
      ok, ptr := BeginText(OP_CALL_16, FUNCTION, name);
    }

    method Eval(expr: seq<byte>) returns (ok: bool, ptr: nat)
      requires Valid() && |expr| < 0x8000_0000 && Grows(TextSize(|expr|) + 14)
      modifies Repr()
      ensures Valid() && fresh(Repr() - old(Repr()))
      ensures ok ==> payloads == Opened(old(payloads), OP_EVAL, Begun(2, [TextPair(EXPRESSION, expr)], TUPLE))
      ensures !ok ==> payloads == old(payloads)
    {
      ok, ptr := BeginText(OP_EVAL, EXPRESSION, expr);
    }

    /** The operations of an update: the key they stand under, and their number. */
    method UpdateBegin(count: nat) returns (ok: bool, ptr: nat)
      requires Valid() && payloads != [] && count < U32 && Grows(SizeofUInt(TUPLE) + SizeofContainer(count))
      modifies Repr()
      ensures Valid() && fresh(Repr() - old(Repr()))
      ensures ok ==>
        payloads == Extended(old(payloads), UIntBytes(TUPLE) + ContainerHead(Shortest, ArrayKind, count))
      ensures !ok ==> payloads == old(payloads)
    {
      hide Valid, Grows, Extended, ContainerHead, UIntBytes, SizeofUInt, SizeofContainer;
      SizesExact(TUPLE, 0, [], ArrayKind);
      SizesExact(count, 0, [], ArrayKind);
      ok, ptr := Append(UIntBytes(TUPLE) + ContainerHead(Shortest, ArrayKind, count),
                        SizeofUInt(TUPLE) + SizeofContainer(count));
    }

    /** An operation and its field; its argument follows. */
    method Op(op: byte, field: nat) returns (ok: bool, ptr: nat)
      requires Valid() && payloads != [] && field < U32
      requires Grows(SizeofContainer(3) + SizeofStr(1) + SizeofUInt(field))
      modifies Repr()
      ensures Valid() && fresh(Repr() - old(Repr()))
      ensures ok ==> payloads == Extended(old(payloads), OpStart(op, field))
      ensures !ok ==> payloads == old(payloads)
    {
      hide Valid, Grows, Extended, ContainerHead, UIntBytes, StrHead, SizeofUInt, SizeofContainer, SizeofStr;
      SizesExact(3, 0, [op], ArrayKind);
      SizesExact(field, 0, [], ArrayKind);
      ok, ptr := Append(OpStart(op, field), SizeofContainer(3) + SizeofStr(1) + SizeofUInt(field));
    }

    /** The encoders of values: each computes the size of one value, makes room for it,
        and extends the open request by it. Strings and binaries are the caller's. */
    method EncodeValue(v: Value) returns (ok: bool, ptr: nat)
      requires Valid() && payloads != [] && WellFormed(v) && !v.Node? && Grows(SizeofValue(v))
      modifies Repr()
      ensures Valid() && fresh(Repr() - old(Repr()))
      ensures ok ==> payloads == Extended(old(payloads), Encode(Shortest, v)) && ptr - s == old(p - s)
      ensures !ok ==> payloads == old(payloads)
    {
      hide Valid, Grows, Extended, Encode, SizeofValue;
      ValueSize(v);
      ok, ptr := Append(Encode(Shortest, v), SizeofValue(v));
    }

    method EncodeContainer(kind: Kind, count: nat) returns (ok: bool, ptr: nat)
      requires Valid() && payloads != [] && count < U32 && Grows(SizeofContainer(count))
      modifies Repr()
      ensures Valid() && fresh(Repr() - old(Repr()))
      ensures ok ==> payloads == Extended(old(payloads), ContainerHead(Shortest, kind, count)) && ptr - s == old(p - s)
      ensures !ok ==> payloads == old(payloads)
    {
      hide Valid, Grows, Extended, ContainerHead, SizeofContainer;
      SizesExact(count, 0, [], kind);
      ok, ptr := Append(ContainerHead(Shortest, kind, count), SizeofContainer(count));
    }

    /** Sets the sync of the open request. */
    method Reqid(reqid: nat)
      requires Valid() && payloads != [] && reqid < U32
      modifies buf, this`payloads
      ensures Valid() && payloads == Synced(old(payloads), reqid)
    {
      hide Frames, BE, LengthBytes;
      ghost var before := buf[..];
      LastFrame(payloads);
      Memory.Copy(buf, sync - s, [0xce] + BE(reqid, 4));
      Patched(before, buf[..], sync - s, [0xce] + BE(reqid, 4), p - s);
      SyncedFrames(payloads, reqid, before[..p - s], buf[..p - s]);
      payloads := Synced(payloads, reqid);
    }
  }

  lemma Prefixes(ps: seq<Pair>)
    ensures ps[..0] == [] && ps[..|ps|] == ps
    ensures forall k | 0 <= k < |ps| :: ps[..k] + [ps[k]] == ps[..k + 1]
  {
  }

  lemma ZeroSync()
    ensures BE(0, 4) == [0, 0, 0, 0]
  {
    assert BE(0, 1) == [0] && BE(0, 2) == [0, 0] && BE(0, 3) == [0, 0, 0];
  }

  lemma LastFrame(ps: seq<seq<byte>>)
    requires ps != []
    ensures Frames(ps) == Frames(ps[..|ps| - 1]) + Frame(ps[|ps| - 1])
  {
  }

  lemma OneFrameMore(ps: seq<seq<byte>>, payload: seq<byte>)
    ensures Frames(ps + [payload]) == Frames(ps) + Frame(payload)
  {
    assert (ps + [payload])[..|ps|] == ps;
  }

  lemma FrameOf(before: seq<byte>, payload: seq<byte>)
    ensures before + LengthBytes(|payload|) + payload == before + Frame(payload)
  {
  }

  /** The bytes after more has been put behind the last frame and its length written. */
  lemma ExtendedFrames(ps: seq<seq<byte>>, more: seq<byte>, inUse: seq<byte>, all: seq<byte>, at: nat, end: nat,
                       now: seq<byte>)
    requires ps != [] && inUse == Frames(ps) && all == inUse + more && at == |Frames(ps[..|ps| - 1])|
    requires end == |all| && |inUse| == at + 5 + |ps[|ps| - 1]|
    requires now == all[..at] + LengthBytes(end - at - 5) + all[at + 5..end]
    ensures now == Frames(Extended(ps, more))
    ensures Extended(ps, more)[..|Extended(ps, more)| - 1] == ps[..|ps| - 1]
  {
    hide BE, Frames;
    var init, last := ps[..|ps| - 1], ps[|ps| - 1];
    LastFrame(ps);
    OneFrameMore(init, last + more);
    FrameOf(Frames(init), last + more);
    assert all[..at] == Frames(init);
    assert all[at + 5..end] == last + more;
  }

  lemma SyncedFrames(ps: seq<seq<byte>>, reqid: nat, was: seq<byte>, now: seq<byte>)
    requires ps != [] && |ps[|ps| - 1]| >= 9 && was == Frames(ps)
    requires var at := |Frames(ps[..|ps| - 1])|;
      at + 14 <= |was| && now == was[..at + 9] + ([0xce] + BE(reqid, 4)) + was[at + 14..]
    ensures now == Frames(Synced(ps, reqid))
    ensures Synced(ps, reqid)[..|Synced(ps, reqid)| - 1] == ps[..|ps| - 1]
  {
    hide BE;
    var init, last := ps[..|ps| - 1], ps[|ps| - 1];
    var at := |Frames(init)|;
    var synced := last[..4] + [0xce] + BE(reqid, 4) + last[9..];
    LastFrame(ps);
    OneFrameMore(init, synced);
    assert was[..at + 9] == Frames(init) + ([0xce] + BE(|last|, 4) + last[..4]);
    assert was[at + 14..] == last[9..];
  }

  /** The bytes written where the length stands. */
  function LengthBytes(n: nat): (b: seq<byte>)
    ensures |b| == 5
  {
    [0xce] + BE(n, 4)
  }

  lemma Patched(before: seq<byte>, after: seq<byte>, at: nat, patch: seq<byte>, end: nat)
    requires |before| == |after| && at + |patch| <= end <= |after|
    requires forall k | 0 <= k < |after| ::
      after[k] == if at <= k < at + |patch| then patch[k - at] else before[k]
    ensures after[..end] == before[..at] + patch + before[at + |patch|..end]
  {
  }
}
