/**
 * Replies as values. The parser finds in the bytes what the two maps say,
 * replies laid end to end come out one by one, and an incomplete reply is
 * answered with a request for exactly what is missing.
 */
module ReplyLaws {
  import opened Bytes
  import opened MsgPack
  import opened MsgPackLaws
  import opened ReplySpec
  import Reply
  import BufStream
  import IoRecv

  /** A reply with its tuples decoded. */
  datatype Content = Content(
    bitmap: set<nat>, code: nat, sync: nat, schemaId: nat,
    error: Option<seq<byte>>, data: Option<Value>)

  function Decoded(raw: seq<byte>): Value {
    match Decode(raw)
    case Got(v, _) => v
    case Bad => Nil
  }

  function ContentOf(r: ReplySpec.Reply): Content {
    Content(r.bitmap, r.code, r.sync, r.schemaId, r.error,
            if r.data.Some? then Some(Decoded(r.data.value)) else None)
  }

  /** The reply's tuples are one value of their own. */
  predicate DataAlone(r: ReplySpec.Reply) {
    r.data.Some? ==> Decode(r.data.value) == Got(Decoded(r.data.value), [])
  }

  /** The header pairs in turn; None unless they are the code (0), the sync (1) or the
      schema's number (5) with unsigned values. Keys are compared in 32 bits. */
  function HeaderOf(h: seq<Value>, c: Content): Option<Content> {
    if |h| < 2 then Some(c)
    else if !h[0].UInt? || !h[1].UInt? then None
    else
      var key, n := h[0].n % 0x1_0000_0000, h[1].n;
      var seen := c.(bitmap := c.bitmap + {key});
      if key == 0x01 then HeaderOf(h[2..], seen.(sync := n))
      else if key == 0x00 then HeaderOf(h[2..], seen.(code := n))
      else if key == 0x05 then HeaderOf(h[2..], seen.(schemaId := n))
      else None
  }

  /** Every body key is that of tuples (0x30) or of an error message (0x31). */
  predicate KnownKeys(b: seq<Value>) {
    |b| >= 2 ==>
      b[0].UInt? && (b[0].n % 0x1_0000_0000 == 0x30 || b[0].n % 0x1_0000_0000 == 0x31) && KnownKeys(b[2..])
  }

  /** The body pairs in turn; None if a message is not a string or tuples are not
      an array. An error message cuts the code down to 15 bits. */
  function BodyOf(b: seq<Value>, c: Content): Option<Content>
    requires KnownKeys(b)
  {
    if |b| < 2 then Some(c)
    else
      var key := b[0].n % 0x1_0000_0000;
      var seen := c.(bitmap := c.bitmap + {key});
      if key == 0x31 then
        if b[1].Str? then BodyOf(b[2..], seen.(error := Some(b[1].raw), code := c.code % 0x8000)) else None
      else if b[1].Node? && b[1].kind.ArrayKind? then BodyOf(b[2..], seen.(data := Some(b[1])))
      else None
  }

  function ReplyOf(h: seq<Value>, b: seq<Value>): Option<Content>
    requires KnownKeys(b)
  {
    match HeaderOf(h, Content({}, 0, 0, 0, None, None))
    case None => None
    case Some(c) => BodyOf(b, c)
  }

  // ----- the parser finds the content -----

  lemma PairSplit(s: seq<byte>, k: nat, vs: seq<Value>, t: seq<byte>)
    requires k >= 2 && DecodeAll(s, k) == Got(vs, t)
    ensures Decode(s).Got? && Decode(s).val == vs[0]
    ensures Decode(Decode(s).rest).Got? && Decode(Decode(s).rest).val == vs[1]
    ensures DecodeAll(Decode(Decode(s).rest).rest, k - 2) == Got(vs[2..], t)
    ensures s != [] && Decode(s).rest != []
    ensures TypeOf(s[0]) == ValueType(vs[0]) && TypeOf(Decode(s).rest[0]) == ValueType(vs[1])
  {
    hide ReadToken, TypeOf;
    var u := Decode(s).rest;
    TypeOfTag(s);
    assert DecodeAll(u, k - 1) == Got(vs[1..], t);
    TypeOfTag(u);
    assert DecodeAll(Decode(u).rest, k - 2) == Got(vs[1..][1..], t);
    assert vs[1..][1..] == vs[2..];
  }

  lemma {:induction false} HeaderFinds(s: seq<byte>, n: nat, r: ReplySpec.Reply, h: seq<Value>, t: seq<byte>)
    requires DecodeAll(s, 2 * n) == Got(h, t)
    ensures match HeaderOf(h, ContentOf(r))
      case Some(c) =>
        && Header(s, n, r).Go? && Header(s, n, r).rest == t && ContentOf(Header(s, n, r).r) == c
        && Header(s, n, r).r.data == r.data
      case None => Header(s, n, r) == Abort
    decreases n
  {
    hide Decode, DecodeAll, TypeOf, Decoded;
    if n == 0 {
      NoneLeft(s);
    } else {
      PairSplit(s, 2 * n, h, t);
      var u := Decode(s).rest;
      match HeaderPair(s, r)
      case Go(r', v) =>
        assert v == Decode(u).rest;
        HeaderFinds(v, n - 1, r', h[2..], t);
      case _ =>
    }
  }

  lemma NoneLeft(s: seq<byte>)
    ensures DecodeAll(s, 0) == Got([], s)
  {
  }

  lemma BodyValueFinds(key: nat, u: seq<byte>, r: ReplySpec.Reply, v: Value)
    requires Decode(u).Got? && Decode(u).val == v && TypeOf(u[0]) == ValueType(v)
    requires key == DATA || key == ERROR
    requires DataAlone(r)
    ensures match BodyValue(key, u, r)
      case Go(r', w) =>
        && w == Decode(u).rest && DataAlone(r')
        && (if key == ERROR then
              v.Str? && ContentOf(r') == ContentOf(r).(error := Some(v.raw), code := r.code % 0x8000)
            else
              v.Node? && v.kind.ArrayKind? && ContentOf(r') == ContentOf(r).(data := Some(v)))
      case Abort => if key == ERROR then !v.Str? else !(v.Node? && v.kind.ArrayKind?)
      case Lost => false
  {
    hide Decode, TypeOf;
    DecodeOwnBytes(u);
  }

  lemma {:induction false} BodyFinds(s: seq<byte>, n: nat, r: ReplySpec.Reply, b: seq<Value>, t: seq<byte>)
    requires DecodeAll(s, 2 * n) == Got(b, t) && KnownKeys(b) && DataAlone(r)
    ensures match BodyOf(b, ContentOf(r))
      case Some(c) =>
        Body(s, n, r).Go? && ContentOf(Body(s, n, r).r) == c && DataAlone(Body(s, n, r).r)
      case None => Body(s, n, r) == Abort
    decreases n
  {
    hide Decode, DecodeAll, TypeOf, Decoded, BodyValue, DataAlone;
    if n == 0 {
      NoneLeft(s);
    } else {
      PairSplit(s, 2 * n, b, t);
      var u := Decode(s).rest;
      var key := b[0].n % U32;
      BodyValueFinds(key, u, r, b[1]);
      match BodyValue(key, u, r)
      case Go(r', v) =>
        var next := r'.(bitmap := r'.bitmap + {key});
        SameData(r', next);
        BodyFinds(v, n - 1, next, b[2..], t);
      case _ =>
    }
  }

  lemma SameData(r: ReplySpec.Reply, q: ReplySpec.Reply)
    requires q.data == r.data
    ensures DataAlone(q) <==> DataAlone(r)
  {
  }

  lemma OpenMapFinds(s: seq<byte>, items: seq<Value>, t: seq<byte>)
    requires Decode(s) == Got(Node(MapKind, items), t)
    ensures |items| % 2 == 0
    ensures OpenMap(s).Got? && OpenMap(s).val == |items| / 2
    ensures DecodeAll(OpenMap(s).rest, |items|) == Got(items, t)
  {
    hide ReadToken, TypeOf;
    TypeOfTag(s);
    assert s != [];
    match ReadToken(s)
    case Got(Open(kind, count), u) =>
      assert DecodeAll(u, Children(kind, count)) == Got(items, t);
      assert |items| == 2 * count;
    case _ =>
  }

  /** The round trip: a payload that is a header map and then a body map with known
      keys, encoded in any way, parses to exactly what the maps say; and it is
      rolled back exactly if they break the rules for replies. */
  lemma ReplyParses(payload: seq<byte>, h: seq<Value>, rest: seq<byte>, b: seq<Value>)
    requires Decode(payload) == Got(Node(MapKind, h), rest) && Decode(rest) == Got(Node(MapKind, b), [])
    requires KnownKeys(b)
    ensures match ReplyOf(h, b)
      case Some(c) =>
        && ParseReply(payload).Complete?
        && ContentOf(ParseReply(payload).r) == c && DataAlone(ParseReply(payload).r)
      case None => ParseReply(payload) == Rollback
  {
    hide Decode, DecodeAll, OpenMap, Header, Body, HeaderOf, BodyOf, KnownKeys;
    OpenMapFinds(payload, h, rest);
    var s := OpenMap(payload).rest;
    HeaderFinds(s, |h| / 2, EMPTY, h, rest);
    OpenMapFinds(rest, b, []);
    var x := Header(s, |h| / 2, EMPTY);
    if x.Go? {
      SameData(EMPTY, x.r);
      BodyFinds(OpenMap(rest).rest, |b| / 2, x.r, b, []);
    }
  }

  /** A payload without a body is always rolled back. */
  lemma HeaderOnlyRejected(payload: seq<byte>, h: seq<Value>)
    requires Decode(payload) == Got(Node(MapKind, h), [])
    ensures ParseReply(payload) == Rollback
  {
    hide DecodeAll, Header, HeaderOf;
    OpenMapFinds(payload, h, []);
    HeaderFinds(OpenMap(payload).rest, |h| / 2, EMPTY, h, []);
  }
}
