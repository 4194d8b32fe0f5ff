/**
 * Requests of the header-only builder, read back: what the builders begin, the
 * encoders append and the sync setter stores is a frame that says exactly that.
 */
module TpLaws {
  import opened Bytes
  import opened MsgPack
  import opened MsgPackLaws
  import opened RequestSpec
  import opened RequestLaws
  import opened TpSpec
  import Request

  lemma TpHeaderReads(code: byte, sync: nat, t: seq<byte>)
    requires code < 0x80 && sync < U32
    ensures ReadMap(TpHeader(code, sync) + t) == Some((map[CODE := UInt(code), SYNC := UInt(sync)], t))
  {
    hide Decode, DecodeAll, PairsBytes, UIntBytes, MapOf, Items, BE;
    var ps := [Pair(CODE, [code]), Pair(SYNC, [0xce] + BE(sync, 4))];
    var es := [Entry(CODE, UInt(code)), Entry(SYNC, UInt(sync))];
    OneByte(code);
    FiveBytes(sync);
    assert Reads(ps[0], es[0]) && Reads(ps[1], es[1]);
    PairsDecode(ps, es, t);
    TwoEntries(es[0], es[1]);
    TwoPairs(ps[0], ps[1]);
    DecodeNode(Shortest, MapKind, Items(es), PairsBytes(ps) + t, t);
    FieldMapOfItems(es);
    assert UIntBytes(CODE) == [CODE] && UIntBytes(SYNC) == [SYNC];
    assert TpHeader(code, sync) == [0x82] + ([CODE] + [code] + ([SYNC] + ([0xce] + BE(sync, 4))));
    assert TpHeader(code, sync) + t == ContainerHead(Shortest, MapKind, 2) + (PairsBytes(ps) + t);
  }

  lemma OneByte(n: byte)
    requires n < 0x80
    ensures Decode([n]) == Got(UInt(n), [])
  {
    DecodeAlone(Shortest, UInt(n));
    assert UIntBytes(n) == [n];
  }

  lemma FiveBytes(n: nat)
    requires n < U32
    ensures Decode([0xce] + BE(n, 4)) == Got(UInt(n), [])
  {
    PowValues();
    TagAndNumber(0xce, n, 4, []);
    assert [0xce] + BE(n, 4) + [] == [0xce] + BE(n, 4);
  }

  /** A frame whose body is a map of readable pairs reads as that map, with its code
      and its sync. */
  lemma TpFrameReads(code: byte, sync: nat, ps: seq<Pair>, es: seq<Entry>, t: seq<byte>)
    requires code < 0x80 && sync < U32 && ReadsAll(ps, es) && |ps| < U32
    requires 9 + |BodyBytes(ps)| < U32
    ensures ReadFrame(Frame(TpHeader(code, sync) + BodyBytes(ps)) + t)
         == Some((Message(UInt(code), UInt(sync), MapOf(es)), t))
  {
    hide ReadToken, ReadMap, TpHeader, BodyBytes, MapOf, ReadsAll, Frame;
    var p := TpHeader(code, sync) + BodyBytes(ps);
    FrameSplits(p, t);
    assert (p + t)[..|p|] == p && (p + t)[|p|..] == t;
    TpHeaderReads(code, sync, BodyBytes(ps));
    BodyReads(ps, es);
  }

  // ----- bodies -----

  /** A begun body and the value of its last key make a whole body. */
  lemma BegunAndValue(ps: seq<Pair>, key: byte, chunk: seq<byte>)
    ensures Begun(|ps| + 1, ps, key) + chunk == BodyBytes(ps + [Pair(key, chunk)])
  {
    hide PairsBytes, ContainerHead, UIntBytes;
    var head := ContainerHead(Shortest, MapKind, |ps| + 1);
    Request.OnePairMore(head, ps, Pair(key, chunk));
    assert Begun(|ps| + 1, ps, key) + chunk == head + PairsBytes(ps) + (UIntBytes(key) + chunk);
  }

  /** The same for an update, whose key is followed by its operations. */
  lemma BegunAndTwo(ps: seq<Pair>, key: byte, chunk: seq<byte>, key2: byte, chunk2: seq<byte>)
    ensures Begun(|ps| + 2, ps, key) + chunk + (UIntBytes(key2) + chunk2)
         == BodyBytes(ps + [Pair(key, chunk), Pair(key2, chunk2)])
  {
    hide PairsBytes, ContainerHead, UIntBytes;
    var head := ContainerHead(Shortest, MapKind, |ps| + 2);
    Request.OnePairMore(head, ps, Pair(key, chunk));
    Request.OnePairMore(head, ps + [Pair(key, chunk)], Pair(key2, chunk2));
    assert ps + [Pair(key, chunk)] + [Pair(key2, chunk2)] == ps + [Pair(key, chunk), Pair(key2, chunk2)];
    assert Begun(|ps| + 2, ps, key) + chunk == head + PairsBytes(ps) + (UIntBytes(key) + chunk);
  }

  /** What is appended to a request that was just begun belongs to its body. */
  lemma ExtendedBody(ps: seq<seq<byte>>, code: byte, body: seq<byte>, more: seq<byte>)
    ensures Extended(Opened(ps, code, body), more) == Opened(ps, code, body + more)
  {
    var all := Opened(ps, code, body);
    assert all[..|all| - 1] == ps;
    assert TpHeader(code, 0) + body + more == TpHeader(code, 0) + (body + more);
  }

  /** Setting the sync changes nothing else. */
  lemma SyncedHeader(ps: seq<seq<byte>>, code: byte, body: seq<byte>, reqid: nat)
    ensures Synced(ps + [TpHeader(code, 0) + body], reqid) == ps + [TpHeader(code, reqid) + body]
  {
    var last := TpHeader(code, 0) + body;
    var all := ps + [last];
    assert all[..|ps|] == ps;
    assert last[..4] == [0x82, CODE, code, SYNC] && last[9..] == body;
    assert last[..4] + [0xce] + BE(reqid, 4) + last[9..] == TpHeader(code, reqid) + body;
  }

  function SelectFieldMap(space: nat, index: nat, offset: nat, iter: nat, limit: nat, key: Value): map<nat, Value> {
    map[0x10 := UInt(space), 0x11 := UInt(index), 0x12 := UInt(limit), 0x13 := UInt(offset),
        0x14 := UInt(iter), 0x20 := key]
  }

  function SelectEntries(space: nat, index: nat, offset: nat, iter: nat, limit: nat): (es: seq<Entry>)
    ensures |es| == 5
  {
    [Entry(SPACE, UInt(space)), Entry(INDEX, UInt(index)), Entry(OFFSET, UInt(offset)),
     Entry(LIMIT, UInt(limit)), Entry(ITERATOR, UInt(iter))]
  }

  lemma SelectMap(space: nat, index: nat, offset: nat, iter: nat, limit: nat, key: Value)
    ensures MapOf(SelectEntries(space, index, offset, iter, limit) + [Entry(KEY, key)])
         == SelectFieldMap(space, index, offset, iter, limit, key)
  {
    hide MapOf;
    SixEntries(SelectEntries(space, index, offset, iter, limit), Entry(KEY, key));
  }

  lemma SelectNumbersRead(space: nat, index: nat, offset: nat, iter: nat, limit: nat, key: Value, chunk: seq<byte>)
    requires space < U32 && index < U32 && offset < U32 && iter < U32 && limit < U32
    requires Decode(chunk) == Got(key, [])
    ensures |SelectNumbers(space, index, offset, iter, limit)| == 5
    ensures ReadsAll(SelectNumbers(space, index, offset, iter, limit) + [Pair(KEY, chunk)],
                     SelectEntries(space, index, offset, iter, limit) + [Entry(KEY, key)])
  {
    hide Decode, UIntBytes;
    NumberReads(SPACE, space);
    NumberReads(INDEX, index);
    NumberReads(OFFSET, offset);
    NumberReads(LIMIT, limit);
    NumberReads(ITERATOR, iter);
  }

  lemma NumberReads(key: byte, n: nat)
    requires key < 0x80 && n < U64
    ensures Reads(NumPair(key, n), Entry(key, UInt(n)))
  {
    hide Decode, UIntBytes;
    DecodeAlone(Shortest, UInt(n));
  }

  lemma SixEntries(es: seq<Entry>, e: Entry)
    requires |es| == 5
    ensures MapOf(es + [e])
         == map[es[0].key as nat := es[0].v][es[1].key as nat := es[1].v][es[2].key as nat := es[2].v]
               [es[3].key as nat := es[3].v][es[4].key as nat := es[4].v][e.key as nat := e.v]
  {
    assert (es + [e])[..5] == es && es[..5][..4] == es[..4];
    assert es[..4][..3] == es[..3] && es[..3][..2] == es[..2] && es[..2][..1] == es[..1] && es[..1][..0] == [];
    assert MapOf(es[..1]) == map[][es[0].key as nat := es[0].v];
    assert MapOf(es[..2]) == MapOf(es[..1])[es[1].key as nat := es[1].v];
    assert MapOf(es[..3]) == MapOf(es[..2])[es[2].key as nat := es[2].v];
    assert MapOf(es[..4]) == MapOf(es[..3])[es[3].key as nat := es[3].v];
    assert es[..4] == es[..|es| - 1];
  }

  // ----- what the methods build -----

  /** The last request, extended piece by piece. */
  function ExtendAll(ps: seq<seq<byte>>, chunks: seq<seq<byte>>): (qs: seq<seq<byte>>)
    requires ps != []
    ensures |qs| == |ps|
    decreases |chunks|
  {
    if chunks == [] then ps
    else Extended(ExtendAll(ps, chunks[..|chunks| - 1]), chunks[|chunks| - 1])
  }

  lemma {:induction false} ExtendAllAtOnce(ps: seq<seq<byte>>, chunks: seq<seq<byte>>)
    requires ps != []
    ensures ExtendAll(ps, chunks) == Extended(ps, Concat(chunks))
    decreases |chunks|
  {
    var n := |ps| - 1;
    if chunks == [] {
      assert ps[n] + [] == ps[n] && ps[..n] + [ps[n]] == ps;
    } else {
      var init, last := chunks[..|chunks| - 1], chunks[|chunks| - 1];
      ExtendAllAtOnce(ps, init);
      var mid := Extended(ps, Concat(init));
      assert mid[..n] == ps[..n] && mid[n] == ps[n] + Concat(init);
      assert ps[n] + Concat(init) + last == ps[n] + (Concat(init) + last);
    }
  }

  /** all is ps and one more payload, whose frame reads as the message. */
  predicate AddsMessage(ps: seq<seq<byte>>, all: seq<seq<byte>>, code: nat, sync: nat, fields: map<nat, Value>,
                        t: seq<byte>)
  {
    && |all| == |ps| + 1 && all[..|ps|] == ps
    && ReadFrame(Frame(all[|ps|]) + t) == Some((Message(UInt(code), UInt(sync), fields), t))
  }

  /** A request that was begun, extended by pieces that complete its body, and given its
      sync. */
  lemma BuiltReads(ps: seq<seq<byte>>, code: byte, body: seq<byte>, chunks: seq<seq<byte>>, sync: nat,
                   pairs: seq<Pair>, es: seq<Entry>, t: seq<byte>)
    requires code < 0x80 && sync < U32 && ReadsAll(pairs, es) && |pairs| < U32
    requires body + Concat(chunks) == BodyBytes(pairs) && 9 + |BodyBytes(pairs)| < U32
    ensures |ExtendAll(Opened(ps, code, body), chunks)[|ps|]| >= 9
    ensures AddsMessage(ps, Synced(ExtendAll(Opened(ps, code, body), chunks), sync), code, sync, MapOf(es), t)
  {
    hide ReadFrame, BodyBytes, MapOf, ReadsAll, Frame, TpHeader, Synced;
    var whole := body + Concat(chunks);
    ExtendAllAtOnce(Opened(ps, code, body), chunks);
    ExtendedBody(ps, code, body, Concat(chunks));
    SyncedHeader(ps, code, whole, sync);
    TpFrameReads(code, sync, pairs, es, t);
    var all := ps + [TpHeader(code, sync) + whole];
    assert all[..|ps|] == ps;
  }

  /** A select, whatever its numbers are, whose key was appended in any number of pieces:
      a reader finds the numbers, the key and the sync. */
  lemma SelectReads(ps: seq<seq<byte>>, space: nat, index: nat, offset: nat, iter: nat, limit: nat,
                    chunks: seq<seq<byte>>, key: Value, sync: nat, t: seq<byte>)
    requires space < U32 && index < U32 && offset < U32 && iter < U32 && limit < U32 && sync < U32
    requires Decode(Concat(chunks)) == Got(key, [])
    requires |Begun(6, SelectNumbers(space, index, offset, iter, limit), KEY)| + |Concat(chunks)| + 9 < U32
    ensures
      var built := ExtendAll(Opened(ps, OP_SELECT, Begun(6, SelectNumbers(space, index, offset, iter, limit), KEY)), chunks);
      && |built[|ps|]| >= 9
      && AddsMessage(ps, Synced(built, sync), 1, sync, SelectFieldMap(space, index, offset, iter, limit, key), t)
  {
    hide BodyBytes, Begun, MapOf, ReadsAll, Decode, SelectNumbers, SelectEntries, SelectFieldMap, AddsMessage,
      Synced, ExtendAll, Opened, Concat;
    var pairs, es := SelectNumbers(space, index, offset, iter, limit), SelectEntries(space, index, offset, iter, limit);
    var chunk := Concat(chunks);
    SelectNumbersRead(space, index, offset, iter, limit, key, chunk);
    BegunAndValue(pairs, KEY, chunk);
    SelectMap(space, index, offset, iter, limit, key);
    BuiltReads(ps, OP_SELECT, Begun(6, pairs, KEY), chunks, sync, pairs + [Pair(KEY, chunk)], es + [Entry(KEY, key)], t);
  }

  /** An insert (2) or a replace (3): the space and the tuple. */
  lemma StoreReads(ps: seq<seq<byte>>, code: byte, space: nat, chunks: seq<seq<byte>>, tuple: Value, sync: nat,
                   t: seq<byte>)
    requires (code == 2 || code == 3) && space < U32 && sync < U32
    requires Decode(Concat(chunks)) == Got(tuple, [])
    requires |Begun(2, [NumPair(SPACE, space)], TUPLE)| + |Concat(chunks)| + 9 < U32
    ensures
      var built := ExtendAll(Opened(ps, code, Begun(2, [NumPair(SPACE, space)], TUPLE)), chunks);
      && |built[|ps|]| >= 9
      && AddsMessage(ps, Synced(built, sync), code, sync, map[0x10 := UInt(space), 0x21 := tuple], t)
  {
    hide BodyBytes, Begun, MapOf, Decode, AddsMessage, Synced, ExtendAll, Opened, Concat, UIntBytes;
    var pairs, es := [NumPair(SPACE, space)], [Entry(SPACE, UInt(space))];
    var chunk := Concat(chunks);
    NumberReads(SPACE, space);
    assert pairs + [Pair(TUPLE, chunk)] == [pairs[0], Pair(TUPLE, chunk)];
    assert es + [Entry(TUPLE, tuple)] == [es[0], Entry(TUPLE, tuple)];
    BegunAndValue(pairs, TUPLE, chunk);
    TwoEntries(es[0], Entry(TUPLE, tuple));
    BuiltReads(ps, code, Begun(2, pairs, TUPLE), chunks, sync, pairs + [Pair(TUPLE, chunk)], es + [Entry(TUPLE, tuple)], t);
  }

  /** A call (6) with its function's name, or an evaluation (8) with its text, and the
      arguments. */
  lemma TextReads(ps: seq<seq<byte>>, code: byte, key: byte, text: seq<byte>, chunks: seq<seq<byte>>, args: Value,
                  sync: nat, t: seq<byte>)
    requires (code == 6 && key == 0x22) || (code == 8 && key == 0x27)
    requires |text| < 0x8000_0000 && sync < U32
    requires Decode(Concat(chunks)) == Got(args, [])
    requires |Begun(2, [TextPair(key, text)], TUPLE)| + |Concat(chunks)| + 9 < U32
    ensures
      var built := ExtendAll(Opened(ps, code, Begun(2, [TextPair(key, text)], TUPLE)), chunks);
      && |built[|ps|]| >= 9
      && AddsMessage(ps, Synced(built, sync), code, sync, map[key as nat := Str(text), 0x21 := args], t)
  {
    hide BodyBytes, Begun, MapOf, Decode, AddsMessage, Synced, ExtendAll, Opened, Concat, StrHead;
    var pairs, es := [TextPair(key, text)], [Entry(key, Str(text))];
    var chunk := Concat(chunks);
    DecodeAlone(Shortest, Str(text));
    assert pairs + [Pair(TUPLE, chunk)] == [pairs[0], Pair(TUPLE, chunk)];
    assert es + [Entry(TUPLE, args)] == [es[0], Entry(TUPLE, args)];
    BegunAndValue(pairs, TUPLE, chunk);
    TwoEntries(es[0], Entry(TUPLE, args));
    BuiltReads(ps, code, Begun(2, pairs, TUPLE), chunks, sync, pairs + [Pair(TUPLE, chunk)], es + [Entry(TUPLE, args)], t);
  }

  /** An update operation, whose argument v was appended in the pieces arg. */
  datatype TpOp = TpOp(sign: byte, field: nat, arg: seq<seq<byte>>, v: Value)

  predicate TpOpOk(op: TpOp) {
    op.field < U32 && Decode(Concat(op.arg)) == Got(op.v, [])
  }

  predicate TpOpsOk(ops: seq<TpOp>) {
    forall i | 0 <= i < |ops| :: TpOpOk(ops[i])
  }

  /** The pieces that operations append, in the order of the calls. */
  function OpsPieces(ops: seq<TpOp>): seq<seq<byte>> {
    if ops == [] then []
    else
      var op := ops[|ops| - 1];
      OpsPieces(ops[..|ops| - 1]) + ([OpStart(op.sign, op.field)] + op.arg)
  }

  function OpsValues(ops: seq<TpOp>): (vs: seq<Value>)
    ensures |vs| == |ops|
  {
    if ops == [] then []
    else
      var op := ops[|ops| - 1];
      OpsValues(ops[..|ops| - 1]) + [Node(ArrayKind, [Str([op.sign]), UInt(op.field), op.v])]
  }

  lemma OpReads(op: TpOp, t: seq<byte>)
    requires TpOpOk(op)
    ensures Decode(OpStart(op.sign, op.field) + Concat(op.arg) + t)
         == Got(Node(ArrayKind, [Str([op.sign]), UInt(op.field), op.v]), t)
  {
    hide Decode, DecodeAll, ContainerHead, StrHead, UIntBytes, Concat;
    var a, b, c := StrHead(1) + [op.sign], UIntBytes(op.field), Concat(op.arg);
    DecodeOfEncode(Shortest, Str([op.sign]), b + (c + t));
    DecodeOfEncode(Shortest, UInt(op.field), c + t);
    DecodeExtends(c, t);
    assert [] + t == t;
    NoValues(t);
    DecodeAllStep(c + t, t, op.v, [], t);
    DecodeAllStep(b + (c + t), c + t, UInt(op.field), [op.v] + [], t);
    DecodeAllStep(a + (b + (c + t)), b + (c + t), Str([op.sign]), [UInt(op.field)] + ([op.v] + []), t);
    var items := [Str([op.sign]), UInt(op.field), op.v];
    assert [Str([op.sign])] + ([UInt(op.field)] + ([op.v] + [])) == items;
    DecodeNode(Shortest, ArrayKind, items, a + (b + (c + t)), t);
    assert OpStart(op.sign, op.field) + c + t == ContainerHead(Shortest, ArrayKind, 3) + (a + (b + (c + t)));
  }

  lemma {:induction false} OpsRead(ops: seq<TpOp>, t: seq<byte>)
    requires TpOpsOk(ops)
    ensures DecodeAll(Concat(OpsPieces(ops)) + t, |ops|) == Got(OpsValues(ops), t)
    decreases |ops|
  {
    hide Decode, DecodeAll, TpOpOk, Concat, OpStart;
    if ops == [] {
      NothingToRead();
      NoValues(t);
      assert Concat([]) + t == t;
    } else {
      var n := |ops| - 1;
      var op := ops[n];
      var mine := OpStart(op.sign, op.field) + Concat(op.arg);
      assert TpOpOk(op);
      ConcatAppend(OpsPieces(ops[..n]), [OpStart(op.sign, op.field)] + op.arg);
      ConcatAppend([OpStart(op.sign, op.field)], op.arg);
      ConcatOne(OpStart(op.sign, op.field));
      assert Concat(OpsPieces(ops)) + t == Concat(OpsPieces(ops[..n])) + (mine + t);
      OpsRead(ops[..n], mine + t);
      OpReads(op, t);
      NoValues(t);
      var v := Node(ArrayKind, [Str([op.sign]), UInt(op.field), op.v]);
      DecodeAllStep(mine + t, t, v, [], t);
      assert [v] + [] == [v];
      DecodeAllAppend(Concat(OpsPieces(ops[..n])) + (mine + t), n, OpsValues(ops[..n]), mine + t, 1, [v], t);
    }
  }

  lemma NothingToRead()
    ensures Concat([]) == []
  {
  }

  /** What an update appends: its key, the start of its operations, and the operations. */
  function UpdatePieces(key: seq<seq<byte>>, ops: seq<TpOp>): seq<seq<byte>> {
    key + ([UIntBytes(TUPLE) + ContainerHead(Shortest, ArrayKind, |ops|)] + OpsPieces(ops))
  }

  lemma UpdateBytes(key: seq<seq<byte>>, ops: seq<TpOp>)
    ensures Concat(UpdatePieces(key, ops))
         == Concat(key) + (UIntBytes(TUPLE) + (ContainerHead(Shortest, ArrayKind, |ops|) + Concat(OpsPieces(ops))))
  {
    hide Concat, UIntBytes, ContainerHead;
    var start := UIntBytes(TUPLE) + ContainerHead(Shortest, ArrayKind, |ops|);
    ConcatAppend(key, [start] + OpsPieces(ops));
    ConcatAppend([start], OpsPieces(ops));
    ConcatOne(start);
  }

  lemma OpsArray(ops: seq<TpOp>)
    requires TpOpsOk(ops) && |ops| < U32
    ensures Decode(ContainerHead(Shortest, ArrayKind, |ops|) + Concat(OpsPieces(ops)))
         == Got(Node(ArrayKind, OpsValues(ops)), [])
  {
    hide Decode, DecodeAll, Concat, ContainerHead, TpOpsOk;
    OpsRead(ops, []);
    var tail := Concat(OpsPieces(ops));
    assert tail + [] == tail;
    DecodeNode(Shortest, ArrayKind, OpsValues(ops), tail, []);
  }

  /** An update with its operations: the space, the key, and every operation in order. */
  lemma UpdateReads(ps: seq<seq<byte>>, space: nat, chunks: seq<seq<byte>>, key: Value, ops: seq<TpOp>, sync: nat,
                    t: seq<byte>)
    requires space < U32 && sync < U32 && TpOpsOk(ops) && |ops| < U32
    requires Decode(Concat(chunks)) == Got(key, [])
    requires |Begun(3, [NumPair(SPACE, space)], KEY)| + |Concat(UpdatePieces(chunks, ops))| + 9 < U32
    ensures
      var built := ExtendAll(Opened(ps, OP_UPDATE, Begun(3, [NumPair(SPACE, space)], KEY)), UpdatePieces(chunks, ops));
      && |built[|ps|]| >= 9
      && AddsMessage(ps, Synced(built, sync), 4, sync,
                     map[0x10 := UInt(space), 0x20 := key, 0x21 := Node(ArrayKind, OpsValues(ops))], t)
  {
    hide BodyBytes, Begun, MapOf, Decode, AddsMessage, Synced, ExtendAll, Opened, Concat, UIntBytes, ContainerHead,
      UpdatePieces, OpsPieces, OpsValues, TpOpsOk;
    var first := NumPair(SPACE, space);
    var pieces := UpdatePieces(chunks, ops);
    var chunk, opsChunk := Concat(chunks), ContainerHead(Shortest, ArrayKind, |ops|) + Concat(OpsPieces(ops));
    var list := Node(ArrayKind, OpsValues(ops));
    NumberReads(SPACE, space);
    UpdateBytes(chunks, ops);
    OpsArray(ops);
    BegunAndTwo([first], KEY, chunk, TUPLE, opsChunk);
    var pairs := [first] + [Pair(KEY, chunk), Pair(TUPLE, opsChunk)];
    var es := [Entry(SPACE, UInt(space)), Entry(KEY, key), Entry(TUPLE, list)];
    var body := Begun(3, [first], KEY);
    assert body + Concat(pieces) == body + chunk + (UIntBytes(TUPLE) + opsChunk);
    assert ReadsAll(pairs, es);
    ThreeEntries(es);
    BuiltReads(ps, OP_UPDATE, body, pieces, sync, pairs, es, t);
  }

  lemma ThreeEntries(es: seq<Entry>)
    requires |es| == 3
    ensures MapOf(es) == map[es[0].key as nat := es[0].v][es[1].key as nat := es[1].v][es[2].key as nat := es[2].v]
  {
    assert es[..2][..1] == es[..1] && es[..1][..0] == [];
    assert MapOf(es[..1]) == map[][es[0].key as nat := es[0].v];
    assert MapOf(es[..2]) == MapOf(es[..1])[es[1].key as nat := es[1].v];
    assert es[..2] == es[..|es| - 1];
  }
}
