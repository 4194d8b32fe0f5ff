/** What the header-only builder has in its buffer: finished frames and an open one,
    each behind a length that is always up to date. */
module TpSpec {
  import opened Bytes
  import opened MsgPack
  import opened MsgPackLaws
  import opened RequestSpec
  import opened RequestLaws
  import Request

  /** Code and sync; the sync always takes five bytes. */
  function TpHeader(code: byte, sync: nat): (h: seq<byte>)
    ensures |h| == 9
  {
    [0x82, CODE, code, SYNC, 0xce] + BE(sync, 4)
  }

  function Frame(payload: seq<byte>): (f: seq<byte>)
    ensures |f| == 5 + |payload|
  {
    [0xce] + BE(|payload|, 4) + payload
  }

  function Frames(ps: seq<seq<byte>>): seq<byte> {
    if ps == [] then [] else Frames(ps[..|ps| - 1]) + Frame(ps[|ps| - 1])
  }

  /** A new request. */
  function Opened(ps: seq<seq<byte>>, code: byte, body: seq<byte>): seq<seq<byte>> {
    ps + [TpHeader(code, 0) + body]
  }

  /** More bytes for the last request. */
  function Extended(ps: seq<seq<byte>>, more: seq<byte>): seq<seq<byte>>
    requires ps != []
  {
    ps[..|ps| - 1] + [ps[|ps| - 1] + more]
  }

  /** A sync number for the last request. */
  function Synced(ps: seq<seq<byte>>, reqid: nat): seq<seq<byte>>
    requires ps != [] && |ps[|ps| - 1]| >= 9
  {
    var last := ps[|ps| - 1];
    ps[..|ps| - 1] + [last[..4] + [0xce] + BE(reqid, 4) + last[9..]]
  }

  // ----- precomputed sizes -----

  function SizeofUInt(n: nat): nat {
    if n < 0x80 then 1 else if n < 0x100 then 2 else if n < 0x1_0000 then 3 else if n < U32 then 5 else 9
  }

  function SizeofInt(i: int): nat {
    if i >= -0x20 then 1 else if i >= -0x80 then 2 else if i >= -0x8000 then 3
    else if i >= -0x8000_0000 then 5 else 9
  }

  function SizeofStr(len: nat): nat {
    if len < 32 then 1 + len else if len < 0x100 then 2 + len else if len < 0x1_0000 then 3 + len else 5 + len
  }

  function SizeofBin(len: nat): nat {
    if len < 0x100 then 2 + len else if len < 0x1_0000 then 3 + len else 5 + len
  }

  function SizeofContainer(count: nat): nat {
    if count < 16 then 1 else if count < 0x1_0000 then 3 else 5
  }

  /** Every size the builders reserve is the number of bytes they then encode. */
  lemma SizesExact(n: nat, i: int, raw: seq<byte>, kind: Kind)
    ensures SizeofUInt(n) == |UIntBytes(n)|
    ensures -U63 <= i < 0 ==> SizeofInt(i) == |SIntBytes(i)|
    ensures SizeofStr(|raw|) == |StrHead(|raw|) + raw|
    ensures SizeofBin(|raw|) == |BinHead(|raw|) + raw|
    ensures SizeofContainer(n) == |ContainerHead(Shortest, kind, n)|
  {
  }

  function SizeofValue(v: Value): nat
    requires !v.Node?
  {
    match v
    case Nil => 1
    case Bool(_) => 1
    case UInt(n) => SizeofUInt(n)
    case SInt(i) => SizeofInt(i)
    case Float(_) => 5
    case Double(_) => 9
    case Str(raw) => SizeofStr(|raw|)
    case Bin(raw) => SizeofBin(|raw|)
  }

  lemma ValueSize(v: Value)
    requires WellFormed(v) && !v.Node?
    ensures SizeofValue(v) == |Encode(Shortest, v)|
  {
    match v
    case UInt(n) => SizesExact(n, 0, [], ArrayKind);
    case SInt(i) => SizesExact(0, i, [], ArrayKind);
    case Str(raw) => SizesExact(0, 0, raw, ArrayKind);
    case Bin(raw) => SizesExact(0, 0, raw, ArrayKind);
    case _ =>
  }

  /** The size reserved for a splice counts the field number three times. */
  function SpliceReserved(field: nat, len: nat): nat {
    SizeofContainer(5) + SizeofStr(1) + SizeofUInt(field) + SizeofUInt(field) + SizeofUInt(field) + SizeofStr(len)
  }

  function SpliceBytes(field: nat, offset: nat, cut: nat, paste: seq<byte>): seq<byte> {
    ContainerHead(Shortest, ArrayKind, 5) + (StrHead(1) + [0x3a]) + UIntBytes(field) + UIntBytes(offset)
      + UIntBytes(cut) + (StrHead(|paste|) + paste)
  }

  /** It is right exactly if offset and length together are as wide as two field
      numbers. */
  lemma SpliceSize(field: nat, offset: nat, cut: nat, paste: seq<byte>)
    ensures SpliceReserved(field, |paste|) == |SpliceBytes(field, offset, cut, paste)|
            <==> SizeofUInt(offset) + SizeofUInt(cut) == 2 * SizeofUInt(field)
  {
    hide StrHead, BinHead, ContainerHead, UIntBytes;
    SizesExact(field, 0, paste, ArrayKind);
    SizesExact(offset, 0, [0x3a], ArrayKind);
    SizesExact(cut, 0, paste, ArrayKind);
    SizesExact(5, 0, paste, ArrayKind);
  }

  /** The size the bundled reallocator asks for. */
  function Grown(size: nat, required: nat): nat {
    if size * 2 < required then size + required else size * 2
  }

  /** A larger buffer has room for what is required exactly if doubling the old one
      gives room beside the bytes in use, or does not even cover the requirement alone. */
  lemma GrownEnough(size: nat, used: nat, required: nat)
    requires used <= size
    ensures used + required <= Grown(size, required) <==> (required <= 2 * size ==> used + required <= 2 * size)
  {
  }

  // ----- what a reader finds -----

  /** The length in front of a payload is right exactly if 32 bits can hold it. */
  lemma LengthExact(payload: seq<byte>)
    ensures FromBE(Frame(payload)[1..5]) == |payload| <==> |payload| < U32
  {
    PowValues();
    assert Frame(payload)[1..5] == BE(|payload|, 4);
    BEOfFromBE(BE(|payload|, 4));
    if |payload| < U32 {
      FromBEOfBE(|payload|, 4);
    }
  }

  lemma FrameSplits(payload: seq<byte>, t: seq<byte>)
    requires |payload| < U32
    ensures ReadToken(Frame(payload) + t) == Got(Leaf(UInt(|payload|)), payload + t)
  {
    PowValues();
    TagAndNumber(0xce, |payload|, 4, payload + t);
    assert Frame(payload) + t == [0xce] + BE(|payload|, 4) + (payload + t);
  }

  /** Takes payloads from the front of s as long as there are bytes. */
  function Split(s: seq<byte>): Option<seq<seq<byte>>> {
    if s == [] then Some([])
    else match ReadToken(s)
      case Got(Leaf(UInt(n)), t) =>
        if |t| < n then None
        else (
          match Split(t[n..])
          case Some(more) => Some([t[..n]] + more)
          case None => None)
      case _ => None
  }

  /** The buffer is a row of frames: a reader that goes from length to length finds
      exactly the payloads. */
  lemma {:induction false} FramesSplit(ps: seq<seq<byte>>, t: seq<byte>)
    requires forall i | 0 <= i < |ps| :: |ps[i]| < U32
    requires Split(t).Some?
    ensures Split(Frames(ps) + t) == Some(ps + Split(t).value)
    decreases |ps|
  {
    hide ReadToken, Frame;
    if ps == [] {
      assert Frames(ps) + t == t;
      assert ps + Split(t).value == Split(t).value;
    } else {
      var n := |ps| - 1;
      var f := Frame(ps[n]);
      FrameSplits(ps[n], t);
      assert f + t != [];
      assert (ps[n] + t)[..|ps[n]|] == ps[n] && (ps[n] + t)[|ps[n]|..] == t;
      FramesSplit(ps[..n], f + t);
      assert Frames(ps) + t == Frames(ps[..n]) + (f + t);
      assert ps[..n] + ([ps[n]] + Split(t).value) == ps + Split(t).value;
    }
  }

  // ----- the bodies the builders begin -----

  function NumPair(key: byte, n: nat): Pair {
    Pair(key, UIntBytes(n))
  }

  /** A map's header, some of its pairs, and the key of the next. */
  function Begun(count: nat, ps: seq<Pair>, key: byte): seq<byte> {
    ContainerHead(Shortest, MapKind, count) + PairsBytes(ps) + UIntBytes(key)
  }

  /** The start of an update operation, up to its argument. */
  function OpStart(sign: byte, field: nat): seq<byte> {
    ContainerHead(Shortest, ArrayKind, 3) + (StrHead(1) + [sign]) + UIntBytes(field)
  }

  function SelectNumbers(space: nat, index: nat, offset: nat, iter: nat, limit: nat): seq<Pair> {
    [NumPair(SPACE, space), NumPair(INDEX, index), NumPair(OFFSET, offset), NumPair(LIMIT, limit), NumPair(ITERATOR, iter)]
  }

  function SelectSize(space: nat, index: nat, offset: nat, iter: nat, limit: nat): nat {
    SizeofContainer(6) + SizeofUInt(SPACE) + SizeofUInt(space) + SizeofUInt(INDEX) + SizeofUInt(index)
      + SizeofUInt(OFFSET) + SizeofUInt(offset) + SizeofUInt(LIMIT) + SizeofUInt(limit)
      + SizeofUInt(ITERATOR) + SizeofUInt(iter) + SizeofUInt(KEY)
  }

  function SpaceSize(count: nat, space: nat, key: byte): nat {
    SizeofContainer(count) + SizeofUInt(SPACE) + SizeofUInt(space) + SizeofUInt(key)
  }

  /** An evaluation's size is computed with the key of a call; both are one byte. */
  function TextSize(len: nat): nat {
    SizeofContainer(2) + SizeofUInt(FUNCTION) + SizeofStr(len) + SizeofUInt(TUPLE)
  }

  function TextPair(key: byte, text: seq<byte>): Pair {
    Pair(key, StrHead(|text|) + text)
  }
}
