/** The IPROTO request: its fields, and the frame they are compiled to. */
module RequestSpec {
  import opened Bytes
  import opened MsgPack

  const CODE := 0x00
  const SYNC := 0x01

  const SPACE := 0x10
  const INDEX := 0x11
  const LIMIT := 0x12
  const OFFSET := 0x13
  const ITERATOR := 0x14
  const INDEX_BASE := 0x15
  const KEY := 0x20
  const TUPLE := 0x21
  const FUNCTION := 0x22
  const EXPRESSION := 0x27
  const OPS := 0x28

  const OP_SELECT := 1
  const OP_INSERT := 2
  const OP_REPLACE := 3
  const OP_UPDATE := 4
  const OP_DELETE := 5
  const OP_CALL_16 := 6
  const OP_EVAL := 8
  const OP_UPSERT := 9
  const OP_CALL := 10
  const OP_PING := 64

  const INT64_MAX := U63 - 1

  datatype Fields = Fields(
    tp: nat, space: nat, index: nat, offset: nat, limit: nat, iter: nat,
    key: Option<seq<byte>>, tuple: Option<seq<byte>>, indexBase: int)

  /** The C types of the fields. */
  predicate FieldsOk(r: Fields) {
    && r.tp < 0x80 && r.space < U32 && r.index < U32 && r.offset < U32 && r.limit < U32 && r.iter < U32
    && -0x8000_0000 <= r.indexBase < 0x8000_0000
  }

  predicate IsCall(tp: nat) {
    tp == OP_CALL || tp == OP_CALL_16
  }

  predicate HasSpace(tp: nat) {
    tp < OP_CALL_16
  }

  predicate HasIndex(tp: nat) {
    tp == OP_SELECT || tp == OP_UPDATE || tp == OP_DELETE
  }

  /** Requests whose key field is a string to be given a header. */
  predicate HasText(tp: nat) {
    tp == OP_EVAL || IsCall(tp)
  }

  /** A key on a request that has none. */
  predicate Refused(r: Fields) {
    r.key.Some? && !HasText(r.tp) && !HasIndex(r.tp) && r.tp != OP_UPSERT
  }

  /** A body pair: its key and the bytes of its value. */
  datatype Pair = Pair(key: byte, chunk: seq<byte>)

  function When(c: bool, key: byte, chunk: seq<byte>): (s: seq<Pair>)
    ensures |s| == if c then 1 else 0
  {
    if c then [Pair(key, chunk)] else []
  }

  function UInt64(n: int): (u: nat)
    requires -U63 <= n < U63
    ensures u < U64
  {
    if n < 0 then n + U64 else n
  }

  function SelectPairs(r: Fields): (s: seq<Pair>)
    requires FieldsOk(r)
    ensures |s| <= 3 && (r.tp != OP_SELECT ==> s == [])
  {
    When(r.tp == OP_SELECT, LIMIT, UIntBytes(r.limit))
      + When(r.offset != 0 && r.tp == OP_SELECT, OFFSET, UIntBytes(r.offset))
      + When(r.iter != 0 && r.tp == OP_SELECT, ITERATOR, UIntBytes(r.iter))
  }

  /** The pairs before the key. */
  function NumberPairs(r: Fields): (s: seq<Pair>)
    requires FieldsOk(r)
    ensures |s| <= 5
  {
    When(HasSpace(r.tp), SPACE, UIntBytes(r.space))
      + When(r.index != 0 && HasIndex(r.tp), INDEX, UIntBytes(r.index))
      + SelectPairs(r)
  }

  function KeyTag(tp: nat): byte {
    if tp == OP_EVAL then EXPRESSION else if IsCall(tp) then FUNCTION
    else if tp == OP_UPSERT then OPS else KEY
  }

  /** The header a text key gets; the length is passed as 32 bits. */
  function KeyHead(r: Fields): (s: seq<byte>)
    requires r.key.Some?
    ensures |s| <= 5
  {
    if HasText(r.tp) then StrHead(|r.key.value| % U32) else []
  }

  function KeyPairs(r: Fields): (s: seq<Pair>)
    ensures |s| <= 1
  {
    if r.key.Some? then [Pair(KeyTag(r.tp), KeyHead(r) + r.key.value)] else []
  }

  function TuplePairs(r: Fields): (s: seq<Pair>)
    ensures |s| <= 1
  {
    if r.tuple.Some? then [Pair(TUPLE, r.tuple.value)] else []
  }

  function BasePairs(r: Fields): (s: seq<Pair>)
    requires FieldsOk(r)
    ensures |s| <= 1
  {
    When(r.indexBase != 0 && (r.tp == OP_UPDATE || r.tp == OP_UPSERT), INDEX_BASE,
         UIntBytes(UInt64(r.indexBase)))
  }

  /** The body pairs of a request, in the order in which they are written. */
  function Pairs(r: Fields): (s: seq<Pair>)
    requires FieldsOk(r)
    ensures |s| <= 8
  {
    NumberPairs(r) + KeyPairs(r) + TuplePairs(r) + BasePairs(r)
  }

  function PairBytes(p: Pair): seq<byte> {
    UIntBytes(p.key) + p.chunk
  }

  function PairsBytes(ps: seq<Pair>): seq<byte> {
    if ps == [] then [] else PairsBytes(ps[..|ps| - 1]) + PairBytes(ps[|ps| - 1])
  }

  /** The length prefix: five bytes, or nine when the length needs more than 32 bits. */
  function LUInt(n: nat): seq<byte> {
    if n < U32 then [0xce] + BE(n, 4) else [0xcf] + BE(n, 8)
  }

  function HeaderBytes(code: nat, sync: nat): seq<byte> {
    ContainerHead(Shortest, MapKind, 2) + UIntBytes(CODE) + UIntBytes(code) + UIntBytes(SYNC) + UIntBytes(sync)
  }

  function BodyBytes(ps: seq<Pair>): seq<byte> {
    ContainerHead(Shortest, MapKind, |ps|) + PairsBytes(ps)
  }

  function Payload(code: nat, sync: nat, ps: seq<Pair>): seq<byte> {
    HeaderBytes(code, sync) + BodyBytes(ps)
  }

  function FrameBytes(code: nat, sync: nat, ps: seq<Pair>): seq<byte> {
    LUInt(|Payload(code, sync, ps)|) + Payload(code, sync, ps)
  }
}
