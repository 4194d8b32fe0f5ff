/**
 * The numbers of the protocol and bytes on the wire, written out: what the other
 * modules name is fixed here.
 */
module Vectors {
  import opened Bytes
  import opened MsgPack
  import opened MsgPackLaws
  import opened RequestSpec
  import ReplySpec
  import Log

  // ----- numbers -----

  lemma Types()
    ensures OP_SELECT == 1 && OP_INSERT == 2 && OP_REPLACE == 3 && OP_UPDATE == 4 && OP_DELETE == 5
    ensures OP_CALL_16 == 6 && OP_EVAL == 8 && OP_UPSERT == 9 && OP_CALL == 10 && OP_PING == 64
  {
  }

  lemma Keys()
    ensures CODE == 0x00 && SYNC == 0x01 && ReplySpec.SCHEMA_ID == 0x05
    ensures SPACE == 0x10 && INDEX == 0x11 && LIMIT == 0x12 && OFFSET == 0x13 && ITERATOR == 0x14
    ensures INDEX_BASE == 0x15 && KEY == 0x20 && TUPLE == 0x21 && FUNCTION == 0x22 && EXPRESSION == 0x27 && OPS == 0x28
    ensures ReplySpec.DATA == 0x30 && ReplySpec.ERROR == 0x31
  {
  }

  lemma Markers()
    ensures Log.MARKER == 0xba0babed && Log.EOF_MARKER == 0x10adab1e && Log.HEADER_SIZE == 28
    ensures Native(Log.MARKER) == [0xed, 0xab, 0x0b, 0xba] && Native(Log.EOF_MARKER) == [0x1e, 0xab, 0xad, 0x10]
  {
  }

  // ----- MessagePack -----

  lemma Digits2(a: byte, b: byte)
    ensures BE(a * 0x100 + b, 2) == [a, b] && FromBE([a, b]) == a * 0x100 + b
  {
    var n := a * 0x100 + b;
    assert BE(n / 0x100, 1) == [a];
    assert [a, b][..1] == [a] && [a][..0] == [];
    assert FromBE([a]) == FromBE([a][..0]) * 256 + a;
  }

  lemma Digits4(a: byte, b: byte, c: byte, d: byte)
    ensures BE((a * 0x100 + b) * 0x1_0000 + (c * 0x100 + d), 4) == [a, b, c, d]
  {
    var high, low := a * 0x100 + b, c * 0x100 + d;
    var n := high * 0x1_0000 + low;
    Digits2(a, b);
    assert n % 0x100 == d && n / 0x100 == high * 0x100 + c;
    var m := n / 0x100;
    assert m % 0x100 == c && m / 0x100 == high;
    assert BE(m, 3) == BE(high, 2) + [c];
    assert BE(n, 4) == BE(m, 3) + [d];
  }

  /** One value of every format, at the edge where it begins. */
  lemma Formats()
    ensures Encode(Shortest, Nil) == [0xc0]
    ensures Encode(Shortest, Bool(false)) == [0xc2] && Encode(Shortest, Bool(true)) == [0xc3]
    ensures Encode(Shortest, Float([1, 2, 3, 4])) == [0xca, 1, 2, 3, 4]
    ensures Encode(Shortest, Double([1, 2, 3, 4, 5, 6, 7, 8])) == [0xcb, 1, 2, 3, 4, 5, 6, 7, 8]
    ensures UIntBytes(0) == [0x00] && UIntBytes(0x7f) == [0x7f]
    ensures UIntBytes(0x80) == [0xcc, 0x80]
    ensures SIntBytes(-1) == [0xff] && SIntBytes(-0x20) == [0xe0]
    ensures SIntBytes(-0x21) == [0xd0, 0xdf]
    ensures StrHead(0) == [0xa0] && StrHead(31) == [0xbf] && StrHead(32) == [0xd9, 0x20]
    ensures BinHead(0) == [0xc4, 0x00]
  {
    assert BE(0x80, 1) == [0x80] && BE(0xdf, 1) == [0xdf] && BE(0x20, 1) == [0x20] && BE(0, 1) == [0];
  }

  lemma NumberFormats()
    ensures UIntBytes(1211) == [0xcd, 0x04, 0xbb] && SIntBytes(-1211) == [0xd1, 0xfb, 0x45]
    ensures UIntBytes(0x0102_0304) == [0xce, 1, 2, 3, 4]
    ensures SIntBytes(-0x0102_0304) == [0xd2, 0xfe, 0xfd, 0xfc, 0xfc]
  {
    hide BE;
    Digits2(0x04, 0xbb);
    Digits2(0xfb, 0x45);
    Digits4(1, 2, 3, 4);
    Digits4(0xfe, 0xfd, 0xfc, 0xfc);
  }

  lemma TextFormats()
    ensures StrHead(0x0102) == [0xda, 1, 2] && StrHead(0x0102_0304) == [0xdb, 1, 2, 3, 4]
    ensures BinHead(0x0102) == [0xc5, 1, 2] && BinHead(0x0102_0304) == [0xc6, 1, 2, 3, 4]
  {
    hide BE;
    Digits2(1, 2);
    Digits4(1, 2, 3, 4);
  }

  lemma OneMore(m: nat, b: byte, w: nat)
    ensures BE(m * 0x100 + b, w + 1) == BE(m, w) + [b]
  {
    assert (m * 0x100 + b) / 0x100 == m;
  }

  lemma LongUInt()
    ensures UIntBytes(0x1_0203_0405) == [0xcf, 0, 0, 0, 1, 2, 3, 4, 5]
  {
    hide BE;
    Digits4(0, 0, 0, 1);
    OneMore(1, 2, 4);
    OneMore(0x0102, 3, 5);
    OneMore(0x01_0203, 4, 6);
    OneMore(0x0102_0304, 5, 7);
  }

  lemma LongSInt()
    ensures SIntBytes(-0x8000_0000_0000_0000) == [0xd3, 0x80, 0, 0, 0, 0, 0, 0, 0]
  {
    hide BE;
    Digits4(0x80, 0, 0, 0);
    OneMore(0x8000_0000, 0, 4);
    OneMore(0x80_0000_0000, 0, 5);
    OneMore(0x8000_0000_0000, 0, 6);
    OneMore(0x80_0000_0000_0000, 0, 7);
  }

  lemma ContainerHeads()
    ensures ContainerHead(Shortest, ArrayKind, 0) == [0x90] && ContainerHead(Shortest, ArrayKind, 15) == [0x9f]
    ensures ContainerHead(Shortest, MapKind, 0) == [0x80] && ContainerHead(Shortest, MapKind, 15) == [0x8f]
    ensures ContainerHead(Shortest, ArrayKind, 32) == [0xdc, 0x00, 0x20]
    ensures ContainerHead(Shortest, MapKind, 32) == [0xde, 0x00, 0x20]
    ensures ContainerHead(Shortest, ArrayKind, 0x0102_0304) == [0xdd, 1, 2, 3, 4]
    ensures ContainerHead(Shortest, MapKind, 0x0102_0304) == [0xdf, 1, 2, 3, 4]
    ensures ContainerHead(Wide, ArrayKind, 4) == [0xdd, 0, 0, 0, 4] && ContainerHead(Wide, MapKind, 4) == [0xdf, 0, 0, 0, 4]
  {
    hide BE;
    Digits2(0, 0x20);
    Digits4(1, 2, 3, 4);
    Digits4(0, 0, 0, 4);
  }

  // ----- frames on the wire -----

  /** "test_4" */
  const NAME: seq<byte> := [0x74, 0x65, 0x73, 0x74, 0x5f, 0x34]
  /** "return test_4()" */
  const EXPR: seq<byte> := [0x72, 0x65, 0x74, 0x75, 0x72, 0x6e, 0x20, 0x74, 0x65, 0x73, 0x74, 0x5f, 0x34, 0x28, 0x29]
  /** An array with the text "_vspace". */
  const VSPACE_KEY: seq<byte> := [0x91, 0xa7, 0x5f, 0x76, 0x73, 0x70, 0x61, 0x63, 0x65]

  /** Every short frame with small numbers in its header. */
  lemma ShortFrame(code: byte, sync: byte, ps: seq<Pair>, body: seq<byte>)
    requires code < 0x80 && sync < 0x80 && |ps| < 16 && PairsBytes(ps) == body && |body| < 250
    ensures FrameBytes(code, sync, ps)
         == [0xce, 0, 0, 0, |body| + 6, 0x82, 0x00, code, 0x01, sync, 0x80 + |ps|] + body
  {
    hide PairsBytes, BE, HeaderBytes, BodyBytes, LUInt;
    ShortParts(code, sync, ps, body);
    ShortLength(|body| + 6);
    var p := Payload(code, sync, ps);
    assert |p| == |body| + 6;
    assert p == [0x82, 0x00, code, 0x01, sync, 0x80 + |ps|] + body;
  }

  lemma ShortLength(n: byte)
    ensures LUInt(n) == [0xce, 0, 0, 0, n]
  {
    hide BE;
    Digits4(0, 0, 0, n);
  }

  lemma ShortParts(code: byte, sync: byte, ps: seq<Pair>, body: seq<byte>)
    requires code < 0x80 && sync < 0x80 && |ps| < 16 && PairsBytes(ps) == body
    ensures HeaderBytes(code, sync) == [0x82, 0x00, code, 0x01, sync]
    ensures BodyBytes(ps) == [0x80 + |ps|] + body
  {
    hide PairsBytes, BE;
  }

  lemma PairsOfTwo(p: Pair, q: Pair)
    ensures PairsBytes([p, q]) == PairBytes(p) + PairBytes(q)
  {
    assert [p, q][..1] == [p] && [p][..0] == [];
    assert PairsBytes([p]) == [] + PairBytes(p);
  }

  lemma PairsOfFour(ps: seq<Pair>)
    requires |ps| == 4
    ensures PairsBytes(ps) == PairBytes(ps[0]) + PairBytes(ps[1]) + PairBytes(ps[2]) + PairBytes(ps[3])
  {
    assert ps[..3][..2] == ps[..2] == [ps[0], ps[1]];
    PairsOfTwo(ps[0], ps[1]);
    assert PairsBytes(ps[..3]) == PairsBytes(ps[..2]) + PairBytes(ps[2]);
  }

  lemma PairsOfSix(ps: seq<Pair>)
    requires |ps| == 6
    ensures PairsBytes(ps) == PairBytes(ps[0]) + PairBytes(ps[1]) + PairBytes(ps[2]) + PairBytes(ps[3])
                              + PairBytes(ps[4]) + PairBytes(ps[5])
  {
    assert ps[..5][..4] == ps[..4];
    PairsOfFour(ps[..4]);
    assert PairsBytes(ps[..5]) == PairsBytes(ps[..4]) + PairBytes(ps[4]);
  }

  /** A pair in the area: a key below 0x80, and its value's bytes. */
  lemma OnePair(p: Pair)
    requires p.key < 0x80
    ensures PairBytes(p) == [p.key] + p.chunk
  {
  }

  lemma TextPairs(r: Fields, p: Pair, q: Pair)
    requires FieldsOk(r) && (r.tp == 6 || r.tp == 8 || r.tp == 10) && r.indexBase == 0
    requires r.key.Some? && |r.key.value| < 32 && r.tuple == Some(q.chunk) && q.key == 0x21
    requires p == Pair(if r.tp == 8 then 0x27 else 0x22, [0xa0 + |r.key.value|] + r.key.value)
    ensures Pairs(r) == [p, q]
  {
    hide BE;
    assert NumberPairs(r) == [] && KeyPairs(r) == [p] && TuplePairs(r) == [q] && BasePairs(r) == [];
  }

  /** The frame of a text request without arguments. */
  lemma TextFrame(tp: nat, sync: byte, text: seq<byte>)
    requires (tp == 6 || tp == 8 || tp == 10) && sync < 0x80 && |text| < 32
    ensures FrameBytes(tp, sync, Pairs(Fields(tp, 0, 0, 0, 0xffff_ffff, 0, Some(text), Some([0x90]), 0)))
         == [0xce, 0, 0, 0, |text| + 10, 0x82, 0x00, tp, 0x01, sync, 0x82, if tp == 8 then 0x27 else 0x22, 0xa0 + |text|]
            + text + [0x21, 0x90]
  {
    hide PairsBytes, PairBytes, BE, FrameBytes, Pairs;
    var r := Fields(tp, 0, 0, 0, 0xffff_ffff, 0, Some(text), Some([0x90]), 0);
    var p, q := Pair(if tp == 8 then 0x27 else 0x22, [0xa0 + |text|] + text), Pair(0x21, [0x90]);
    TextPairs(r, p, q);
    PairsOfTwo(p, q);
    OnePair(p);
    OnePair(q);
    var body := [p.key] + p.chunk + ([q.key] + q.chunk);
    ShortFrame(tp, sync, [p, q], body);
    assert body == [p.key, 0xa0 + |text|] + text + [0x21, 0x90];
  }

  /** A call of test_4 and an evaluation of it, syncs 1 and 2, one behind the other. */
  lemma CallThenEval()
    ensures FrameBytes(6, 1, Pairs(Fields(6, 0, 0, 0, 0xffff_ffff, 0, Some(NAME), Some([0x90]), 0)))
         == [0xce, 0, 0, 0, 0x10, 0x82, 0x00, 0x06, 0x01, 0x01, 0x82, 0x22, 0xa6] + NAME + [0x21, 0x90]
    ensures FrameBytes(8, 2, Pairs(Fields(8, 0, 0, 0, 0xffff_ffff, 0, Some(EXPR), Some([0x90]), 0)))
         == [0xce, 0, 0, 0, 0x19, 0x82, 0x00, 0x08, 0x01, 0x02, 0x82, 0x27, 0xaf] + EXPR + [0x21, 0x90]
  {
    hide FrameBytes, Pairs;
    TextFrame(6, 1, NAME);
    TextFrame(8, 2, EXPR);
  }

  /** The pairs of a select by an index, without and with an offset and an iterator. */
  lemma SelectPairsAre(r: Fields)
    requires FieldsOk(r) && r.tp == 1 && r.key.Some? && r.tuple.None? && r.index != 0
    ensures var numbers := [Pair(0x10, UIntBytes(r.space)), Pair(0x11, UIntBytes(r.index)), Pair(0x12, UIntBytes(r.limit))];
      && (r.offset == 0 && r.iter == 0 ==> Pairs(r) == numbers + [Pair(0x20, r.key.value)])
      && (r.offset != 0 && r.iter != 0 ==>
            Pairs(r) == numbers + [Pair(0x13, UIntBytes(r.offset)), Pair(0x14, UIntBytes(r.iter)), Pair(0x20, r.key.value)])
  {
    hide UIntBytes;
    assert [] + r.key.value == r.key.value;
  }

  const SPACE_281: seq<byte> := [0x10, 0xcd, 0x01, 0x19, 0x11, 0x02]

  lemma Chunks()
    ensures UIntBytes(281) == [0xcd, 0x01, 0x19] && UIntBytes(2) == [0x02] && UIntBytes(1) == [0x01]
    ensures UIntBytes(6) == [0x06] && UIntBytes(0xffff_ffff) == [0xce, 0xff, 0xff, 0xff, 0xff]
  {
    hide BE;
    Digits2(0x01, 0x19);
    Digits4(0xff, 0xff, 0xff, 0xff);
  }

  lemma FirstPairs()
    ensures PairBytes(Pair(0x10, [0xcd, 0x01, 0x19])) + PairBytes(Pair(0x11, [0x02])) == SPACE_281
  {
  }

  lemma WholePairs(ps: seq<Pair>)
    requires |ps| == 4 && PairBytes(ps[0]) + PairBytes(ps[1]) == SPACE_281
    ensures PairsBytes(ps) == SPACE_281 + (PairBytes(ps[2]) + PairBytes(ps[3]))
  {
    hide PairBytes, PairsBytes;
    PairsOfFour(ps);
  }

  lemma WholeSixPairs(ps: seq<Pair>)
    requires |ps| == 6 && PairBytes(ps[0]) + PairBytes(ps[1]) == SPACE_281
    ensures PairsBytes(ps)
         == SPACE_281 + (PairBytes(ps[2]) + PairBytes(ps[3]) + PairBytes(ps[4]) + PairBytes(ps[5]))
  {
    hide PairBytes, PairsBytes;
    PairsOfSix(ps);
  }

  /** A select from space 281 by index 2, sync 1. */
  lemma SelectFrame()
    ensures FrameBytes(1, 1, Pairs(Fields(1, 281, 2, 0, 0xffff_ffff, 0, Some(VSPACE_KEY), None, 0)))
         == [0xce, 0, 0, 0, 0x1c, 0x82, 0x00, 0x01, 0x01, 0x01, 0x84]
            + (SPACE_281 + ([0x12, 0xce, 0xff, 0xff, 0xff, 0xff] + ([0x20] + VSPACE_KEY)))
  {
    hide PairsBytes, PairBytes, UIntBytes, FrameBytes, Pairs;
    var r := Fields(1, 281, 2, 0, 0xffff_ffff, 0, Some(VSPACE_KEY), None, 0);
    var ps := [Pair(0x10, [0xcd, 0x01, 0x19]), Pair(0x11, [0x02]), Pair(0x12, [0xce, 0xff, 0xff, 0xff, 0xff]),
               Pair(0x20, VSPACE_KEY)];
    SelectPairsAre(r);
    Chunks();
    assert Pairs(r) == ps;
    FirstPairs();
    WholePairs(ps);
    OnePair(ps[2]);
    OnePair(ps[3]);
    ShortFrame(1, 1, ps, SPACE_281 + (PairBytes(ps[2]) + PairBytes(ps[3])));
  }

  /** The same with limit 1, offset 1 and iterator 6. */
  lemma SelectAllFrame()
    ensures FrameBytes(1, 1, Pairs(Fields(1, 281, 2, 1, 1, 6, Some(VSPACE_KEY), None, 0)))
         == [0xce, 0, 0, 0, 0x1c, 0x82, 0x00, 0x01, 0x01, 0x01, 0x86]
            + (SPACE_281 + ([0x12, 0x01] + [0x13, 0x01] + [0x14, 0x06] + ([0x20] + VSPACE_KEY)))
  {
    hide PairsBytes, PairBytes, UIntBytes, FrameBytes, Pairs;
    var r := Fields(1, 281, 2, 1, 1, 6, Some(VSPACE_KEY), None, 0);
    var ps := [Pair(0x10, [0xcd, 0x01, 0x19]), Pair(0x11, [0x02]), Pair(0x12, [0x01]), Pair(0x13, [0x01]),
               Pair(0x14, [0x06]), Pair(0x20, VSPACE_KEY)];
    SelectPairsAre(r);
    Chunks();
    assert Pairs(r) == ps;
    FirstPairs();
    WholeSixPairs(ps);
    OnePair(ps[2]);
    OnePair(ps[3]);
    OnePair(ps[4]);
    OnePair(ps[5]);
    assert PairBytes(ps[2]) == [0x12, 0x01] && PairBytes(ps[3]) == [0x13, 0x01] && PairBytes(ps[4]) == [0x14, 0x06];
    ShortFrame(1, 1, ps, SPACE_281 + (PairBytes(ps[2]) + PairBytes(ps[3]) + PairBytes(ps[4]) + PairBytes(ps[5])));
  }
}
