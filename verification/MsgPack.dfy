/**
 * The MessagePack format: values, the shortest encoding, the five-byte-header
 * ("wide") encoding, and a decoder for every format of the int, str, bin,
 * array, map, nil, bool and float families.
 */
module MsgPack {
  import opened Bytes

  datatype Kind = ArrayKind | MapKind

  /** UInt is a value of the unsigned formats, SInt one of the signed formats. A
      map's items are its keys and values in turn. */
  datatype Value =
    | Nil
    | Bool(flag: bool)
    | UInt(n: nat)
    | SInt(i: int)
    | Float(bits: seq<byte>)
    | Double(bits: seq<byte>)
    | Str(raw: seq<byte>)
    | Bin(raw: seq<byte>)
    | Node(kind: Kind, items: seq<Value>)

  datatype Style = Shortest | Wide

  datatype Token = Leaf(v: Value) | Open(kind: Kind, count: nat)

  datatype Parsed<+T> = Bad | Got(val: T, rest: seq<byte>)

  /** The declared count of a container: pairs for a map, elements for an array. */
  function Count(kind: Kind, size: nat): nat {
    if kind.MapKind? then size / 2 else size
  }

  /** The number of values that follow a container header. */
  function Children(kind: Kind, count: nat): nat {
    if kind.MapKind? then 2 * count else count
  }

  predicate WellFormed(v: Value) {
    match v
    case Nil => true
    case Bool(_) => true
    case UInt(n) => n < U64
    case SInt(i) => -U63 <= i < 0
    case Float(bits) => |bits| == 4
    case Double(bits) => |bits| == 8
    case Str(raw) => |raw| < U32
    case Bin(raw) => |raw| < U32
    case Node(kind, items) =>
      && Count(kind, |items|) < U32
      && (kind.MapKind? ==> |items| % 2 == 0)
      && AllWellFormed(items)
  }

  predicate AllWellFormed(vs: seq<Value>) {
    forall v | v in vs :: WellFormed(v)
  }

  // ----- encoding -----

  function UIntBytes(n: nat): (s: seq<byte>)
    ensures 1 <= |s| <= 9
    ensures n < U32 ==> |s| <= 5
    ensures n < 0x80 ==> s == [n]
  {
    if n < 0x80 then [n]
    else if n < 0x100 then [0xcc] + BE(n, 1)
    else if n < 0x1_0000 then [0xcd] + BE(n, 2)
    else if n < U32 then [0xce] + BE(n, 4)
    else [0xcf] + BE(n, 8)
  }

  function SIntBytes(i: int): seq<byte>
    requires -U63 <= i < 0
  {
    if i >= -0x20 then [0x100 + i]
    else if i >= -0x80 then [0xd0] + BE(0x100 + i, 1)
    else if i >= -0x8000 then [0xd1] + BE(0x1_0000 + i, 2)
    else if i >= -0x8000_0000 then [0xd2] + BE(U32 + i, 4)
    else [0xd3] + BE(U64 + i, 8)
  }

  function StrHead(len: nat): (s: seq<byte>)
    ensures 1 <= |s| <= 5
  {
    if len < 32 then [0xa0 + len]
    else if len < 0x100 then [0xd9] + BE(len, 1)
    else if len < 0x1_0000 then [0xda] + BE(len, 2)
    else [0xdb] + BE(len, 4)
  }

  function BinHead(len: nat): seq<byte> {
    if len < 0x100 then [0xc4] + BE(len, 1)
    else if len < 0x1_0000 then [0xc5] + BE(len, 2)
    else [0xc6] + BE(len, 4)
  }

  function ContainerHead(style: Style, kind: Kind, count: nat): (s: seq<byte>)
    ensures |s| == 1 || |s| == 3 || |s| == 5
    ensures style.Wide? ==> |s| == 5
  {
    if style.Shortest? && count < 16 then [(if kind.MapKind? then 0x80 else 0x90) + count]
    else if style.Shortest? && count < 0x1_0000 then
      [if kind.MapKind? then 0xde else 0xdc] + BE(count, 2)
    else [if kind.MapKind? then 0xdf else 0xdd] + BE(count, 4)
  }

  function Encode(style: Style, v: Value): (s: seq<byte>)
    requires WellFormed(v)
    ensures |s| > 0
    decreases v
  {
    match v
    case Nil => [0xc0]
    case Bool(flag) => [if flag then 0xc3 else 0xc2]
    case UInt(n) => UIntBytes(n)
    case SInt(i) => SIntBytes(i)
    case Float(bits) => [0xca] + bits
    case Double(bits) => [0xcb] + bits
    case Str(raw) => StrHead(|raw|) + raw
    case Bin(raw) => BinHead(|raw|) + raw
    case Node(kind, items) =>
      ContainerHead(style, kind, Count(kind, |items|)) + EncodeAll(style, items)
  }

  function EncodeAll(style: Style, vs: seq<Value>): (s: seq<byte>)
    requires AllWellFormed(vs)
    ensures vs == [] <==> s == []
    decreases vs
  {
    if vs == [] then [] else Encode(style, vs[0]) + EncodeAll(style, vs[1..])
  }

  // ----- decoding -----

  /** What a tag octet announces. */
  datatype Shape =
    | Whole(tok: Token)
    | FixStr(len: nat)
    | Sized(isStr: bool, w: nat)
    | Number(signed: bool, w: nat)
    | RawBits(w: nat)
    | CountOf(kind: Kind, w: nat)
    | Unused

  function ShapeOf(b: byte): (r: Shape)
    ensures r.Number? ==> r.w == 1 || r.w == 2 || r.w == 4 || r.w == 8
    ensures r.RawBits? ==> r.w == 4 || r.w == 8
    ensures r.Whole? && r.tok.Leaf? ==> !r.tok.v.Node?
  {
    if b < 0x80 then Whole(Leaf(UInt(b)))
    else if b < 0x90 then Whole(Open(MapKind, b - 0x80))
    else if b < 0xa0 then Whole(Open(ArrayKind, b - 0x90))
    else if b < 0xc0 then FixStr(b - 0xa0)
    else if b >= 0xe0 then Whole(Leaf(SInt(b as int - 0x100)))
    else match b
      case 0xc0 => Whole(Leaf(Nil))
      case 0xc2 => Whole(Leaf(Bool(false)))
      case 0xc3 => Whole(Leaf(Bool(true)))
      case 0xc4 => Sized(false, 1)
      case 0xc5 => Sized(false, 2)
      case 0xc6 => Sized(false, 4)
      case 0xca => RawBits(4)
      case 0xcb => RawBits(8)
      case 0xcc => Number(false, 1)
      case 0xcd => Number(false, 2)
      case 0xce => Number(false, 4)
      case 0xcf => Number(false, 8)
      case 0xd0 => Number(true, 1)
      case 0xd1 => Number(true, 2)
      case 0xd2 => Number(true, 4)
      case 0xd3 => Number(true, 8)
      case 0xd9 => Sized(true, 1)
      case 0xda => Sized(true, 2)
      case 0xdb => Sized(true, 4)
      case 0xdc => CountOf(ArrayKind, 2)
      case 0xdd => CountOf(ArrayKind, 4)
      case 0xde => CountOf(MapKind, 2)
      case 0xdf => CountOf(MapKind, 4)
      case _ => Unused
  }

  /** The type a reader sees from the tag alone. Extension tags and 0xc1 share MpExt. */
  datatype MpType = MpNil | MpUInt | MpInt | MpStr | MpBin | MpArray | MpMap | MpBool | MpFloat | MpDouble | MpExt

  function ContainerType(kind: Kind): MpType {
    if kind.MapKind? then MpMap else MpArray
  }

  function ValueType(v: Value): MpType {
    match v
    case Nil => MpNil
    case Bool(_) => MpBool
    case UInt(_) => MpUInt
    case SInt(_) => MpInt
    case Float(_) => MpFloat
    case Double(_) => MpDouble
    case Str(_) => MpStr
    case Bin(_) => MpBin
    case Node(kind, _) => ContainerType(kind)
  }

  function TypeOf(b: byte): MpType {
    match ShapeOf(b)
    case Whole(Leaf(v)) => ValueType(v)
    case Whole(Open(kind, _)) => ContainerType(kind)
    case FixStr(_) => MpStr
    case Sized(isStr, _) => if isStr then MpStr else MpBin
    case Number(signed, _) => if signed then MpInt else MpUInt
    case RawBits(w) => if w == 4 then MpFloat else MpDouble
    case CountOf(kind, _) => ContainerType(kind)
    case Unused => MpExt
  }

  function TakeNum(s: seq<byte>, w: nat): (r: Parsed<nat>)
    ensures r.Got? ==> |s| == w + |r.rest|
  {
    if |s| < w then Bad else Got(FromBE(s[..w]), s[w..])
  }

  /** Two's complement reading of a w-octet number. */
  function Signed(n: nat, w: nat): int {
    if 2 * n < Pow256(w) then n else n - Pow256(w)
  }

  function TakeRaw(s: seq<byte>, len: nat, isStr: bool): (r: Parsed<Token>)
    ensures r.Got? ==> |r.rest| <= |s|
  {
    if |s| < len then Bad
    else Got(Leaf(if isStr then Str(s[..len]) else Bin(s[..len])), s[len..])
  }

  /** The payload that a tag's shape asks for. */
  function ReadShape(shape: Shape, s: seq<byte>): (r: Parsed<Token>)
    ensures r.Got? ==> |r.rest| <= |s|
  {
    match shape
    case Whole(tok) => Got(tok, s)
    case FixStr(len) => TakeRaw(s, len, true)
    case Sized(isStr, w) => (
      match TakeNum(s, w)
      case Bad => Bad
      case Got(len, t) => TakeRaw(t, len, isStr))
    case Number(signed, w) => (
      match TakeNum(s, w)
      case Bad => Bad
      case Got(n, t) => Got(Leaf(if signed then SInt(Signed(n, w)) else UInt(n)), t))
    case RawBits(w) =>
      if |s| < w then Bad
      else Got(Leaf(if w == 4 then Float(s[..w]) else Double(s[..w])), s[w..])
    case CountOf(kind, w) => (
      match TakeNum(s, w)
      case Bad => Bad
      case Got(n, t) => Got(Open(kind, n), t))
    case Unused => Bad
  }

  /** One header with its inline payload: a scalar, or the opening of a container. */
  function ReadToken(s: seq<byte>): (r: Parsed<Token>)
    ensures r.Got? ==> |r.rest| < |s|
    ensures r.Got? && r.val.Leaf? ==> !r.val.v.Node?
  {
    if s == [] then Bad else ReadShape(ShapeOf(s[0]), s[1..])
  }

  /** One complete value from the front of s. */
  function Decode(s: seq<byte>): (r: Parsed<Value>)
    ensures r.Got? ==> |r.rest| < |s|
    decreases |s|, 0
  {
    match ReadToken(s)
    case Bad => Bad
    case Got(Leaf(v), t) => Got(v, t)
    case Got(Open(kind, count), t) =>
      match DecodeAll(t, Children(kind, count))
      case Bad => Bad
      case Got(items, u) => Got(Node(kind, items), u)
  }

  /** k complete values one after another. */
  function DecodeAll(s: seq<byte>, k: nat): (r: Parsed<seq<Value>>)
    ensures r.Got? ==> |r.val| == k
    ensures r.Got? ==> |r.rest| <= |s|
    decreases |s|, 1
  {
    if k == 0 then Got([], s) else
    match Decode(s)
    case Bad => Bad
    case Got(v, t) =>
      match DecodeAll(t, k - 1)
      case Bad => Bad
      case Got(vs, u) => Got([v] + vs, u)
  }
}
