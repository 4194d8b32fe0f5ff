/**
 * The direct encoders: one function per request type that writes the frame in a
 * fixed layout, naming every numeric field even when it is zero.
 */
module Direct {
  import opened Bytes
  import opened MsgPack
  import opened RequestSpec
  import ObjectSpec
  import BufStream
  import Memory
  import Request

  /** The numeric pairs of a direct frame. */
  function DirectNumbers(r: Fields): seq<Pair> {
    When(HasSpace(r.tp), SPACE, UIntBytes(r.space))
      + When(HasIndex(r.tp), INDEX, UIntBytes(r.index))
      + (When(r.tp == OP_SELECT, LIMIT, UIntBytes(r.limit))
         + When(r.tp == OP_SELECT, OFFSET, UIntBytes(r.offset))
         + When(r.tp == OP_SELECT, ITERATOR, UIntBytes(r.iter)))
  }

  /** The body of the direct frame for the same request as r. */
  function DirectPairs(r: Fields): (s: seq<Pair>)
    ensures |s| <= 7
  {
    DirectNumbers(r) + KeyPairs(r) + TuplePairs(r)
  }

  function SelectFields(space: nat, index: nat, limit: nat, offset: nat, iter: nat, key: seq<byte>): Fields {
    Fields(OP_SELECT, space, index, offset, limit, iter, Some(key), None, 0)
  }

  function StoreFields(tp: nat, space: nat, tuple: seq<byte>): Fields {
    Fields(tp, space, 0, 0, U32 - 1, 0, None, Some(tuple), 0)
  }

  function DeleteFields(space: nat, index: nat, key: seq<byte>): Fields {
    Fields(OP_DELETE, space, index, 0, U32 - 1, 0, Some(key), None, 0)
  }

  function UpdateFields(space: nat, index: nat, key: seq<byte>, ops: seq<byte>): Fields {
    Fields(OP_UPDATE, space, index, 0, U32 - 1, 0, Some(key), Some(ops), 0)
  }

  function RpcFields(tp: nat, proc: seq<byte>, args: seq<byte>): Fields {
    Fields(tp, 0, 0, 0, U32 - 1, 0, Some(proc), Some(args), 0)
  }

  method EncodeHeader(hdr: array<byte>, code: nat, sync: nat) returns (end: nat)
    requires hdr.Length == 25 && code < 0x80 && sync < U64
    modifies hdr
    ensures end <= 25 && hdr[..end] == HeaderBytes(code, sync)
  {
    hide UIntBytes;
    assert UIntBytes(CODE) == [CODE] && UIntBytes(SYNC) == [SYNC] && |UIntBytes(code)| == 1;
    end := Request.Put(hdr, 0, ContainerHead(Shortest, MapKind, 2));
    end := Request.Put(hdr, end, UIntBytes(CODE));
    end := Request.Put(hdr, end, UIntBytes(code));
    end := Request.Put(hdr, end, UIntBytes(SYNC));
    end := Request.Put(hdr, end, UIntBytes(sync));
    assert hdr[..0] == [];
    assert hdr[..end] == [] + HeaderBytes(code, sync);
  }

  /** Header, length prefix and write, common to all of them. */
  method SendBody(s: BufStream.Buffer, code: nat, pieces: seq<seq<byte>>, ghost body: seq<byte>) returns (rv: int)
    requires s.Valid() && code < 0x80
    requires Concat(pieces) == body
    modifies s`data, s`size, s`wrcnt, s`reqid, s.data
    ensures s.Valid() && fresh(s.Repr() - old(s.Repr()))
    ensures s.reqid == (old(s.reqid) + 1) % U64
    ensures s.borrowed ==> rv == -1 && s.Contents() == old(s.Contents())
    ensures !s.borrowed ==>
      var payload := HeaderBytes(code, old(s.reqid)) + body;
      && s.Contents() == old(s.Contents()) + (LUInt(|payload|) + payload)
      && rv == |LUInt(|payload|) + payload| && s.wrcnt == (old(s.wrcnt) + 1) % U32
  {
    hide HeaderBytes, LUInt;
    var hdr := new byte[25];
    var end := EncodeHeader(hdr, code, s.reqid);
    s.reqid := (s.reqid + 1) % U64;
    var v := [hdr[..end]] + pieces;
    Request.ConcatCons(hdr[..end], pieces);
    var plen := Memory.TotalLength(v);
    Request.ConcatCons(LUInt(plen), v);
    rv := s.Writev([LUInt(plen)] + v);
  }

  /** The same for a body that is a map of pairs. */
  method Send(s: BufStream.Buffer, code: nat, pieces: seq<seq<byte>>, ghost ps: seq<Pair>) returns (rv: int)
    requires s.Valid() && code < 0x80
    requires Concat(pieces) == BodyBytes(ps)
    modifies s`data, s`size, s`wrcnt, s`reqid, s.data
    ensures s.Valid() && fresh(s.Repr() - old(s.Repr()))
    ensures s.reqid == (old(s.reqid) + 1) % U64
    ensures s.borrowed ==> rv == -1 && s.Contents() == old(s.Contents())
    ensures !s.borrowed ==>
      && s.Contents() == old(s.Contents()) + FrameBytes(code, old(s.reqid), ps)
      && rv == |FrameBytes(code, old(s.reqid), ps)| && s.wrcnt == (old(s.wrcnt) + 1) % U32
  {
    hide HeaderBytes, BodyBytes, LUInt;
    rv := SendBody(s, code, pieces, BodyBytes(ps));
  }

  method PutNumber(h: array<byte>, pos: nat, key: byte, n: nat, ghost head: seq<byte>, ghost ps: seq<Pair>)
    returns (p: nat)
    requires key < 0x80 && n < U32 && pos + 6 <= h.Length
    requires h[..pos] == head + PairsBytes(ps)
    modifies h
    ensures pos <= p <= pos + 6
    ensures h[..p] == head + PairsBytes(ps + When(true, key, UIntBytes(n)))
  {
    hide PairsBytes;
    p := Request.Put(h, pos, UIntBytes(key));
    p := Request.Put(h, p, UIntBytes(n));
    Request.OnePairMore(head, ps, Pair(key, UIntBytes(n)));
    assert head + PairsBytes(ps) + UIntBytes(key) + UIntBytes(n)
        == head + PairsBytes(ps) + (UIntBytes(key) + UIntBytes(n));
  }

  method PutMap(h: array<byte>, n: nat) returns (p: nat)
    requires n < 16 && h.Length >= 1
    modifies h
    ensures p == 1 && h[..p] == ContainerHead(Shortest, MapKind, n) + PairsBytes([])
  {
    p := Request.Put(h, 0, ContainerHead(Shortest, MapKind, n));
    assert h[..0] == [];
    assert h[..p] == ContainerHead(Shortest, MapKind, n) + [];
  }

  /** A last pair whose value is the caller's memory. */
  lemma LastPiece(head: seq<byte>, ps: seq<Pair>, tag: byte, before: seq<byte>, chunk: seq<byte>)
    ensures Concat([head + PairsBytes(ps) + (UIntBytes(tag) + before), chunk])
         == head + PairsBytes(ps + [Pair(tag, before + chunk)])
  {
    hide PairsBytes, UIntBytes, Concat;
    Request.OnePairMore(head, ps, Pair(tag, before + chunk));
    ConcatTwo(head + PairsBytes(ps) + (UIntBytes(tag) + before), chunk);
    assert head + PairsBytes(ps) + (UIntBytes(tag) + before) + chunk
        == head + PairsBytes(ps) + (UIntBytes(tag) + (before + chunk));
  }

  lemma ConcatTwo(a: seq<byte>, b: seq<byte>)
    ensures Concat([a, b]) == a + b
  {
    assert [a, b][..1] == [a] && [a][..0] == [];
    assert Concat([a]) == [] + a;
  }

  lemma ConcatFour(a: seq<byte>, b: seq<byte>, c: seq<byte>, d: seq<byte>)
    ensures Concat([a, b, c, d]) == Concat([a, b]) + (c + d)
  {
    assert [a, b, c, d][..3] == [a, b, c] && [a, b, c][..2] == [a, b];
    assert Concat([a, b]) + c + d == Concat([a, b]) + (c + d);
  }

  /** The space pair, and the index pair of the types that have one. */
  method PutSpaceIndex(h: array<byte>, n: nat, r: Fields) returns (p: nat)
    requires HasSpace(r.tp) && r.space < U32 && r.index < U32 && n < 16 && h.Length == 64
    modifies h
    ensures p <= 13
    ensures h[..p] == ContainerHead(Shortest, MapKind, n)
      + PairsBytes(When(true, SPACE, UIntBytes(r.space)) + When(HasIndex(r.tp), INDEX, UIntBytes(r.index)))
  {
    hide PairsBytes, UIntBytes;
    ghost var head := ContainerHead(Shortest, MapKind, n);
    p := PutMap(h, n);
    p := PutNumber(h, p, SPACE, r.space, head, []);
    ghost var ps := When(true, SPACE, UIntBytes(r.space));
    assert [] + ps == ps;
    if HasIndex(r.tp) {
      p := PutNumber(h, p, INDEX, r.index, head, ps);
    } else {
      assert ps + When(false, INDEX, UIntBytes(r.index)) == ps;
    }
  }

  method PutSelectNumbers(h: array<byte>, r: Fields) returns (p: nat)
    requires r.tp == OP_SELECT && FieldsOk(r) && h.Length == 64
    modifies h
    ensures p <= 31
    ensures h[..p] == ContainerHead(Shortest, MapKind, 6) + PairsBytes(DirectNumbers(r))
  {
    hide PairsBytes, UIntBytes, When;
    ghost var head := ContainerHead(Shortest, MapKind, 6);
    p := PutSpaceIndex(h, 6, r);
    ghost var ps := When(true, SPACE, UIntBytes(r.space)) + When(true, INDEX, UIntBytes(r.index));
    p := PutNumber(h, p, LIMIT, r.limit, head, ps);
    ps := ps + When(true, LIMIT, UIntBytes(r.limit));
    p := PutNumber(h, p, OFFSET, r.offset, head, ps);
    ps := ps + When(true, OFFSET, UIntBytes(r.offset));
    p := PutNumber(h, p, ITERATOR, r.iter, head, ps);
    ps := ps + When(true, ITERATOR, UIntBytes(r.iter));
    assert ps == DirectNumbers(r);
  }

  /** The pieces of a body whose numbers stand in the first at bytes of h and whose
      last pair is the caller's memory. */
  method CloseBody(h: array<byte>, at: nat, tag: byte, chunk: seq<byte>, ghost head: seq<byte>, ghost ps: seq<Pair>)
    returns (pieces: seq<seq<byte>>)
    requires tag < 0x80 && at + 1 <= h.Length && h[..at] == head + PairsBytes(ps)
    modifies h
    ensures Concat(pieces) == head + PairsBytes(ps + [Pair(tag, chunk)])
  {
    hide PairsBytes, Concat;
    var data := Request.Put(h, at, UIntBytes(tag));
    LastPiece(head, ps, tag, [], chunk);
    assert UIntBytes(tag) + [] == UIntBytes(tag) && [] + chunk == chunk;
    pieces := [h[..data], chunk];
  }

  /** The argument of a direct function is one MessagePack array. */
  predicate IsArray(obj: seq<byte>) {
    ObjectSpec.Verify(obj, Some(MpArray)) == 0
  }

  method Select(s: BufStream.Buffer, space: nat, index: nat, limit: nat, offset: nat, iter: nat, key: seq<byte>)
    returns (rv: int)
    requires s.Valid() && space < U32 && index < U32 && limit < U32 && offset < U32 && iter < 0x100
    modifies s`data, s`size, s`wrcnt, s`reqid, s.data
    ensures s.Valid() && fresh(s.Repr() - old(s.Repr()))
    ensures !IsArray(key) ==> rv == -1 && s.reqid == old(s.reqid) && s.Contents() == old(s.Contents())
    ensures IsArray(key) && s.borrowed ==>
      rv == -1 && s.Contents() == old(s.Contents()) && s.reqid == (old(s.reqid) + 1) % U64
    ensures IsArray(key) && !s.borrowed ==>
      var frame := FrameBytes(OP_SELECT, old(s.reqid), DirectPairs(SelectFields(space, index, limit, offset, iter, key)));
      s.Contents() == old(s.Contents()) + frame && rv == |frame| && s.reqid == (old(s.reqid) + 1) % U64
      && s.wrcnt == (old(s.wrcnt) + 1) % U32
  {
    hide PairsBytes, UIntBytes, ObjectSpec.Verify, FrameBytes, DirectNumbers;
    if ObjectSpec.Verify(key, Some(MpArray)) != 0 {
      return -1;
    }
    ghost var r := SelectFields(space, index, limit, offset, iter, key);
    var body := new byte[64];
    var data := PutSelectNumbers(body, SelectFields(space, index, limit, offset, iter, key));
    var pieces := CloseBody(body, data, KEY, key, ContainerHead(Shortest, MapKind, 6), DirectNumbers(r));
    assert DirectPairs(r) == DirectNumbers(r) + [Pair(KEY, key)] by {
      assert [] + key == key;
    }
    NumberCount(r);
    rv := Send(s, OP_SELECT, pieces, DirectPairs(r));
  }

  lemma NumberCount(r: Fields)
    ensures |DirectNumbers(r)| ==
      (if HasSpace(r.tp) then 1 else 0) + (if HasIndex(r.tp) then 1 else 0) + (if r.tp == OP_SELECT then 3 else 0)
  {
  }

  lemma NoSelectNumbers(r: Fields)
    requires HasSpace(r.tp) && r.tp != OP_SELECT
    ensures DirectNumbers(r)
         == When(true, SPACE, UIntBytes(r.space)) + When(HasIndex(r.tp), INDEX, UIntBytes(r.index))
  {
  }

  method Store(s: BufStream.Buffer, tp: nat, space: nat, tuple: seq<byte>) returns (rv: int)
    requires s.Valid() && space < U32 && (tp == OP_INSERT || tp == OP_REPLACE)
    modifies s`data, s`size, s`wrcnt, s`reqid, s.data
    ensures s.Valid() && fresh(s.Repr() - old(s.Repr()))
    ensures !IsArray(tuple) ==> rv == -1 && s.reqid == old(s.reqid) && s.Contents() == old(s.Contents())
    ensures IsArray(tuple) && s.borrowed ==>
      rv == -1 && s.Contents() == old(s.Contents()) && s.reqid == (old(s.reqid) + 1) % U64
    ensures IsArray(tuple) && !s.borrowed ==>
      var frame := FrameBytes(tp, old(s.reqid), DirectPairs(StoreFields(tp, space, tuple)));
      s.Contents() == old(s.Contents()) + frame && rv == |frame| && s.reqid == (old(s.reqid) + 1) % U64
      && s.wrcnt == (old(s.wrcnt) + 1) % U32
  {
    hide PairsBytes, UIntBytes, ObjectSpec.Verify, FrameBytes, DirectNumbers;
    if ObjectSpec.Verify(tuple, Some(MpArray)) != 0 {
      return -1;
    }
    ghost var r := StoreFields(tp, space, tuple);
    NoSelectNumbers(r);
    var body := new byte[64];
    var data := PutSpaceIndex(body, 2, StoreFields(tp, space, tuple));
    var pieces := CloseBody(body, data, TUPLE, tuple, ContainerHead(Shortest, MapKind, 2), DirectNumbers(r));
    assert DirectPairs(r) == DirectNumbers(r) + [Pair(TUPLE, tuple)];
    NumberCount(r);
    rv := Send(s, tp, pieces, DirectPairs(r));
  }

  method Insert(s: BufStream.Buffer, space: nat, tuple: seq<byte>) returns (rv: int)
    requires s.Valid() && space < U32
    modifies s`data, s`size, s`wrcnt, s`reqid, s.data
    ensures s.Valid() && fresh(s.Repr() - old(s.Repr()))
    ensures !IsArray(tuple) ==> rv == -1 && s.reqid == old(s.reqid) && s.Contents() == old(s.Contents())
    ensures IsArray(tuple) && !s.borrowed ==>
      s.Contents() == old(s.Contents()) + FrameBytes(2, old(s.reqid), DirectPairs(StoreFields(2, space, tuple)))
  {
    hide FrameBytes, DirectPairs, IsArray;
    rv := Store(s, OP_INSERT, space, tuple);
  }

  method Replace(s: BufStream.Buffer, space: nat, tuple: seq<byte>) returns (rv: int)
    requires s.Valid() && space < U32
    modifies s`data, s`size, s`wrcnt, s`reqid, s.data
    ensures s.Valid() && fresh(s.Repr() - old(s.Repr()))
    ensures !IsArray(tuple) ==> rv == -1 && s.reqid == old(s.reqid) && s.Contents() == old(s.Contents())
    ensures IsArray(tuple) && !s.borrowed ==>
      s.Contents() == old(s.Contents()) + FrameBytes(3, old(s.reqid), DirectPairs(StoreFields(3, space, tuple)))
  {
    hide FrameBytes, DirectPairs, IsArray;
    rv := Store(s, OP_REPLACE, space, tuple);
  }

  method Delete(s: BufStream.Buffer, space: nat, index: nat, key: seq<byte>) returns (rv: int)
    requires s.Valid() && space < U32 && index < U32
    modifies s`data, s`size, s`wrcnt, s`reqid, s.data
    ensures s.Valid() && fresh(s.Repr() - old(s.Repr()))
    ensures !IsArray(key) ==> rv == -1 && s.reqid == old(s.reqid) && s.Contents() == old(s.Contents())
    ensures IsArray(key) && s.borrowed ==>
      rv == -1 && s.Contents() == old(s.Contents()) && s.reqid == (old(s.reqid) + 1) % U64
    ensures IsArray(key) && !s.borrowed ==>
      var frame := FrameBytes(OP_DELETE, old(s.reqid), DirectPairs(DeleteFields(space, index, key)));
      s.Contents() == old(s.Contents()) + frame && rv == |frame| && s.reqid == (old(s.reqid) + 1) % U64
      && s.wrcnt == (old(s.wrcnt) + 1) % U32
  {
    hide PairsBytes, UIntBytes, ObjectSpec.Verify, FrameBytes, DirectNumbers;
    if ObjectSpec.Verify(key, Some(MpArray)) != 0 {
      return -1;
    }
    ghost var r := DeleteFields(space, index, key);
    NoSelectNumbers(r);
    var body := new byte[64];
    var data := PutSpaceIndex(body, 3, DeleteFields(space, index, key));
    var pieces := CloseBody(body, data, KEY, key, ContainerHead(Shortest, MapKind, 3), DirectNumbers(r));
    assert DirectPairs(r) == DirectNumbers(r) + [Pair(KEY, key)] by {
      assert [] + key == key;
    }
    NumberCount(r);
    rv := Send(s, OP_DELETE, pieces, DirectPairs(r));
  }

  /** Two pieces more: the head of a tuple pair from h, and the tuple. */
  method AddTuple(h: array<byte>, at: nat, first: seq<byte>, second: seq<byte>, tuple: seq<byte>,
                  ghost head: seq<byte>, ghost ps: seq<Pair>)
    returns (pieces: seq<seq<byte>>)
    requires at + 1 <= h.Length && Concat([first, second]) == head + PairsBytes(ps)
    modifies h
    ensures Concat(pieces) == head + PairsBytes(ps + [Pair(TUPLE, tuple)])
  {
    hide PairsBytes, Concat;
    var data := Request.Put(h, at, UIntBytes(TUPLE));
    assert h[at..data] == h[..data][at..] == UIntBytes(TUPLE);
    pieces := [first, second, h[at..data], tuple];
    ConcatFour(first, second, UIntBytes(TUPLE), tuple);
    Request.OnePairMore(head, ps, Pair(TUPLE, tuple));
  }

  method Update(s: BufStream.Buffer, space: nat, index: nat, key: seq<byte>, ops: seq<byte>) returns (rv: int)
    requires s.Valid() && space < U32 && index < U32
    modifies s`data, s`size, s`wrcnt, s`reqid, s.data
    ensures s.Valid() && fresh(s.Repr() - old(s.Repr()))
    ensures !(IsArray(key) && IsArray(ops)) ==>
      rv == -1 && s.reqid == old(s.reqid) && s.Contents() == old(s.Contents())
    ensures IsArray(key) && IsArray(ops) && s.borrowed ==>
      rv == -1 && s.Contents() == old(s.Contents()) && s.reqid == (old(s.reqid) + 1) % U64
    ensures IsArray(key) && IsArray(ops) && !s.borrowed ==>
      var frame := FrameBytes(OP_UPDATE, old(s.reqid), DirectPairs(UpdateFields(space, index, key, ops)));
      s.Contents() == old(s.Contents()) + frame && rv == |frame| && s.reqid == (old(s.reqid) + 1) % U64
      && s.wrcnt == (old(s.wrcnt) + 1) % U32
  {
    hide PairsBytes, UIntBytes, ObjectSpec.Verify, FrameBytes, DirectNumbers, Concat;
    if ObjectSpec.Verify(key, Some(MpArray)) != 0 {
      return -1;
    }
    if ObjectSpec.Verify(ops, Some(MpArray)) != 0 {
      return -1;
    }
    ghost var r := UpdateFields(space, index, key, ops);
    NoSelectNumbers(r);
    ghost var head := ContainerHead(Shortest, MapKind, 4);
    var body := new byte[64];
    var data := PutSpaceIndex(body, 4, UpdateFields(space, index, key, ops));
    data := Request.Put(body, data, UIntBytes(KEY));
    var first := body[..data];
    LastPiece(head, DirectNumbers(r), KEY, [], key);
    assert UIntBytes(KEY) + [] == UIntBytes(KEY) && [] + key == key;
    var pieces := AddTuple(body, data, first, key, ops, head, DirectNumbers(r) + [Pair(KEY, key)]);
    assert DirectPairs(r) == DirectNumbers(r) + [Pair(KEY, key)] + [Pair(TUPLE, ops)];
    NumberCount(r);
    rv := Send(s, OP_UPDATE, pieces, DirectPairs(r));
  }

  /** A call or an eval; None stands for a null pointer. */
  method Rpc(s: BufStream.Buffer, tp: nat, proc: Option<seq<byte>>, args: seq<byte>) returns (rv: int)
    requires s.Valid() && HasText(tp)
    modifies s`data, s`size, s`wrcnt, s`reqid, s.data
    ensures s.Valid() && fresh(s.Repr() - old(s.Repr()))
    ensures !(proc.Some? && proc.value != [] && IsArray(args)) ==>
      rv == -1 && s.reqid == old(s.reqid) && s.Contents() == old(s.Contents())
    ensures proc.Some? && proc.value != [] && IsArray(args) && s.borrowed ==>
      rv == -1 && s.Contents() == old(s.Contents()) && s.reqid == (old(s.reqid) + 1) % U64
    ensures proc.Some? && proc.value != [] && IsArray(args) && !s.borrowed ==>
      var frame := FrameBytes(tp, old(s.reqid), DirectPairs(RpcFields(tp, proc.value, args)));
      s.Contents() == old(s.Contents()) + frame && rv == |frame| && s.reqid == (old(s.reqid) + 1) % U64
      && s.wrcnt == (old(s.wrcnt) + 1) % U32
  {
    hide ObjectSpec.Verify, FrameBytes, Concat, DirectPairs, BodyBytes;
    if proc.None? || proc.value == [] {
      return -1;
    }
    if ObjectSpec.Verify(args, Some(MpArray)) != 0 {
      return -1;
    }
    var pieces := RpcPieces(tp, proc.value, args);
    rv := Send(s, tp, pieces, DirectPairs(RpcFields(tp, proc.value, args)));
  }

  method Call(s: BufStream.Buffer, proc: Option<seq<byte>>, args: seq<byte>) returns (rv: int)
    requires s.Valid()
    modifies s`data, s`size, s`wrcnt, s`reqid, s.data
    ensures s.Valid() && fresh(s.Repr() - old(s.Repr()))
    ensures !(proc.Some? && proc.value != [] && IsArray(args)) ==>
      rv == -1 && s.reqid == old(s.reqid) && s.Contents() == old(s.Contents())
    ensures proc.Some? && proc.value != [] && IsArray(args) && !s.borrowed ==>
      s.Contents() == old(s.Contents()) + FrameBytes(10, old(s.reqid), DirectPairs(RpcFields(10, proc.value, args)))
  {
    hide FrameBytes, DirectPairs, IsArray;
    rv := Rpc(s, OP_CALL, proc, args);
  }

  method Call16(s: BufStream.Buffer, proc: Option<seq<byte>>, args: seq<byte>) returns (rv: int)
    requires s.Valid()
    modifies s`data, s`size, s`wrcnt, s`reqid, s.data
    ensures s.Valid() && fresh(s.Repr() - old(s.Repr()))
    ensures !(proc.Some? && proc.value != [] && IsArray(args)) ==>
      rv == -1 && s.reqid == old(s.reqid) && s.Contents() == old(s.Contents())
    ensures proc.Some? && proc.value != [] && IsArray(args) && !s.borrowed ==>
      s.Contents() == old(s.Contents()) + FrameBytes(6, old(s.reqid), DirectPairs(RpcFields(6, proc.value, args)))
  {
    hide FrameBytes, DirectPairs, IsArray;
    rv := Rpc(s, OP_CALL_16, proc, args);
  }

  method Eval(s: BufStream.Buffer, proc: Option<seq<byte>>, args: seq<byte>) returns (rv: int)
    requires s.Valid()
    modifies s`data, s`size, s`wrcnt, s`reqid, s.data
    ensures s.Valid() && fresh(s.Repr() - old(s.Repr()))
    ensures !(proc.Some? && proc.value != [] && IsArray(args)) ==>
      rv == -1 && s.reqid == old(s.reqid) && s.Contents() == old(s.Contents())
    ensures proc.Some? && proc.value != [] && IsArray(args) && !s.borrowed ==>
      s.Contents() == old(s.Contents()) + FrameBytes(8, old(s.reqid), DirectPairs(RpcFields(8, proc.value, args)))
  {
    hide FrameBytes, DirectPairs, IsArray;
    rv := Rpc(s, OP_EVAL, proc, args);
  }

  method RpcPieces(tp: nat, proc: seq<byte>, args: seq<byte>) returns (pieces: seq<seq<byte>>)
    requires HasText(tp)
    ensures Concat(pieces) == BodyBytes(DirectPairs(RpcFields(tp, proc, args)))
  {
    hide PairsBytes, UIntBytes, StrHead, Concat;
    var fld: byte := if IsCall(tp) then FUNCTION else EXPRESSION;
    ghost var r := RpcFields(tp, proc, args);
    ghost var head := ContainerHead(Shortest, MapKind, 2);
    var strl := StrHead(|proc| % U32);
    var body := new byte[64];
    var data := PutMap(body, 2);
    data := Request.Put(body, data, UIntBytes(fld));
    data := Request.Put(body, data, strl);
    var first := body[..data];
    assert first == head + PairsBytes([]) + (UIntBytes(fld) + strl);
    LastPiece(head, [], fld, strl, proc);
    pieces := AddTuple(body, data, first, proc, args, head, [] + [Pair(fld, strl + proc)]);
    assert DirectPairs(r) == [] + [Pair(fld, strl + proc)] + [Pair(TUPLE, args)];
  }

  /** The three pairs of a direct upsert. */
  function UpsertPairs(space: nat, tuple: seq<byte>, ops: seq<byte>): seq<Pair> {
    When(true, SPACE, UIntBytes(space)) + [Pair(TUPLE, tuple)] + [Pair(OPS, ops)]
  }

  /** The body of a direct upsert declares four pairs. */
  function UpsertBody(space: nat, tuple: seq<byte>, ops: seq<byte>): seq<byte> {
    ContainerHead(Shortest, MapKind, 4) + PairsBytes(UpsertPairs(space, tuple, ops))
  }

  /** The direct upsert sends that body. */
  method Upsert(s: BufStream.Buffer, space: nat, tuple: seq<byte>, ops: seq<byte>) returns (rv: int)
    requires s.Valid() && space < U32
    modifies s`data, s`size, s`wrcnt, s`reqid, s.data
    ensures s.Valid() && fresh(s.Repr() - old(s.Repr()))
    ensures !(IsArray(tuple) && IsArray(ops)) ==>
      rv == -1 && s.reqid == old(s.reqid) && s.Contents() == old(s.Contents())
    ensures IsArray(tuple) && IsArray(ops) && s.borrowed ==>
      rv == -1 && s.Contents() == old(s.Contents()) && s.reqid == (old(s.reqid) + 1) % U64
    ensures IsArray(tuple) && IsArray(ops) && !s.borrowed ==>
      var payload := HeaderBytes(OP_UPSERT, old(s.reqid)) + UpsertBody(space, tuple, ops);
      && s.Contents() == old(s.Contents()) + (LUInt(|payload|) + payload)
      && s.reqid == (old(s.reqid) + 1) % U64 && s.wrcnt == (old(s.wrcnt) + 1) % U32
  {
    hide ObjectSpec.Verify, Concat, HeaderBytes, LUInt, UpsertBody;
    if ObjectSpec.Verify(tuple, Some(MpArray)) != 0 {
      return -1;
    }
    if ObjectSpec.Verify(ops, Some(MpArray)) != 0 {
      return -1;
    }
    var pieces := UpsertPieces(space, tuple, ops);
    rv := SendBody(s, OP_UPSERT, pieces, UpsertBody(space, tuple, ops));
  }

  method UpsertPieces(space: nat, tuple: seq<byte>, ops: seq<byte>) returns (pieces: seq<seq<byte>>)
    requires space < U32
    ensures Concat(pieces) == UpsertBody(space, tuple, ops)
  {
    hide PairsBytes, UIntBytes, Concat;
    ghost var head := ContainerHead(Shortest, MapKind, 4);
    ghost var ps := When(true, SPACE, UIntBytes(space));
    var body := new byte[64];
    var data := PutMap(body, 4);
    data := PutNumber(body, data, SPACE, space, head, []);
    assert [] + ps == ps;
    data := Request.Put(body, data, UIntBytes(TUPLE));
    var first := body[..data];
    LastPiece(head, ps, TUPLE, [], tuple);
    assert UIntBytes(TUPLE) + [] == UIntBytes(TUPLE) && [] + tuple == tuple;
    var end := Request.Put(body, data, UIntBytes(OPS));
    assert body[data..end] == body[..end][data..] == UIntBytes(OPS);
    pieces := [first, tuple, body[data..end], ops];
    ConcatFour(first, tuple, UIntBytes(OPS), ops);
    Request.OnePairMore(head, ps + [Pair(TUPLE, tuple)], Pair(OPS, ops));
  }
}
