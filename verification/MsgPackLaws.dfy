/** What the format promises: decoding inverts both encodings, and a decoded
    value does not depend on the bytes that follow it. */
module MsgPackLaws {
  import opened Bytes
  import opened MsgPack

  lemma TakeNumOfBE(n: nat, w: nat, t: seq<byte>)
    requires n < Pow256(w)
    ensures TakeNum(BE(n, w) + t, w) == Got(n, t)
  {
    FromBEOfBE(n, w);
    assert (BE(n, w) + t)[..w] == BE(n, w);
    assert (BE(n, w) + t)[w..] == t;
  }

  /** A tag, a big-endian number of the width it announces, and what follows. */
  lemma TagAndNumber(tag: byte, n: nat, w: nat, t: seq<byte>)
    requires n < Pow256(w)
    ensures var s := [tag] + BE(n, w) + t;
      ReadToken(s) == ReadShape(ShapeOf(tag), s[1..]) && TakeNum(s[1..], w) == Got(n, t)
  {
    TakeNumOfBE(n, w, t);
    assert ([tag] + BE(n, w) + t)[1..] == BE(n, w) + t;
  }

  lemma TagAlone(tag: byte, t: seq<byte>)
    ensures ReadToken([tag] + t) == ReadShape(ShapeOf(tag), t)
  {
    assert ([tag] + t)[1..] == t;
  }

  lemma ReadUInt(n: nat, t: seq<byte>)
    requires n < U64
    ensures ReadToken(UIntBytes(n) + t) == Got(Leaf(UInt(n)), t)
  {
    PowValues();
    if n < 0x80 { TagAlone(n, t); }
    else if n < 0x100 { TagAndNumber(0xcc, n, 1, t); }
    else if n < 0x1_0000 { TagAndNumber(0xcd, n, 2, t); }
    else if n < U32 { TagAndNumber(0xce, n, 4, t); }
    else { TagAndNumber(0xcf, n, 8, t); }
  }

  lemma ReadSIntAs(tag: byte, i: int, w: nat, t: seq<byte>)
    requires 2 * i + Pow256(w) >= 0 && i < 0 && ShapeOf(tag) == Number(true, w)
    ensures ReadToken([tag] + BE(Pow256(w) + i, w) + t) == Got(Leaf(SInt(i)), t)
  {
    TagAndNumber(tag, Pow256(w) + i, w, t);
  }

  lemma ReadSIntTiny(i: int, t: seq<byte>)
    requires -0x20 <= i < 0
    ensures ReadToken(SIntBytes(i) + t) == Got(Leaf(SInt(i)), t)
  {
    TagAlone(0x100 + i, t);
  }

  lemma ReadSIntWide(i: int, t: seq<byte>)
    requires -U63 <= i < -0x20
    ensures ReadToken(SIntBytes(i) + t) == Got(Leaf(SInt(i)), t)
  {
    hide ReadToken, BE;
    PowValues();
    if i >= -0x80 { ReadSIntAs(0xd0, i, 1, t); }
    else if i >= -0x8000 { ReadSIntAs(0xd1, i, 2, t); }
    else if i >= -0x8000_0000 { ReadSIntAs(0xd2, i, 4, t); }
    else { ReadSIntAs(0xd3, i, 8, t); }
  }

  lemma ReadSInt(i: int, t: seq<byte>)
    requires -U63 <= i < 0
    ensures ReadToken(SIntBytes(i) + t) == Got(Leaf(SInt(i)), t)
  {
    hide ReadToken, BE, Pow256;
    if i >= -0x20 {
      ReadSIntTiny(i, t);
    } else {
      ReadSIntWide(i, t);
    }
  }

  lemma TakeRawOf(raw: seq<byte>, t: seq<byte>, isStr: bool)
    ensures TakeRaw(raw + t, |raw|, isStr) == Got(Leaf(if isStr then Str(raw) else Bin(raw)), t)
  {
    assert (raw + t)[..|raw|] == raw && (raw + t)[|raw|..] == t;
  }

  lemma ReadStr(raw: seq<byte>, t: seq<byte>)
    requires |raw| < U32
    ensures ReadToken(StrHead(|raw|) + raw + t) == Got(Leaf(Str(raw)), t)
  {
    PowValues();
    var len := |raw|;
    TakeRawOf(raw, t, true);
    assert StrHead(len) + raw + t == StrHead(len) + (raw + t);
    if len < 32 { TagAlone(0xa0 + len, raw + t); }
    else if len < 0x100 { TagAndNumber(0xd9, len, 1, raw + t); }
    else if len < 0x1_0000 { TagAndNumber(0xda, len, 2, raw + t); }
    else { TagAndNumber(0xdb, len, 4, raw + t); }
  }

  lemma ReadBin(raw: seq<byte>, t: seq<byte>)
    requires |raw| < U32
    ensures ReadToken(BinHead(|raw|) + raw + t) == Got(Leaf(Bin(raw)), t)
  {
    PowValues();
    var len := |raw|;
    TakeRawOf(raw, t, false);
    assert BinHead(len) + raw + t == BinHead(len) + (raw + t);
    if len < 0x100 { TagAndNumber(0xc4, len, 1, raw + t); }
    else if len < 0x1_0000 { TagAndNumber(0xc5, len, 2, raw + t); }
    else { TagAndNumber(0xc6, len, 4, raw + t); }
  }

  lemma ReadBits(tag: byte, bits: seq<byte>, t: seq<byte>)
    requires (tag == 0xca && |bits| == 4) || (tag == 0xcb && |bits| == 8)
    ensures ReadToken([tag] + bits + t)
         == Got(Leaf(if tag == 0xca then Float(bits) else Double(bits)), t)
  {
    assert [tag] + bits + t == [tag] + (bits + t);
    TagAlone(tag, bits + t);
    assert (bits + t)[..|bits|] == bits && (bits + t)[|bits|..] == t;
  }

  lemma ReadContainerHead(style: Style, kind: Kind, count: nat, t: seq<byte>)
    requires count < U32
    ensures ReadToken(ContainerHead(style, kind, count) + t) == Got(Open(kind, count), t)
  {
    PowValues();
    if style.Shortest? && count < 16 {
      TagAlone((if kind.MapKind? then 0x80 else 0x90) + count, t);
    } else if style.Shortest? && count < 0x1_0000 {
      TagAndNumber(if kind.MapKind? then 0xde else 0xdc, count, 2, t);
    } else {
      TagAndNumber(if kind.MapKind? then 0xdf else 0xdd, count, 4, t);
    }
  }

  lemma ReadScalar(style: Style, v: Value, t: seq<byte>)
    requires WellFormed(v) && !v.Node?
    ensures ReadToken(Encode(style, v) + t) == Got(Leaf(v), t)
  {
    match v
    case Nil => TagAlone(0xc0, t);
    case Bool(flag) => TagAlone(if flag then 0xc3 else 0xc2, t);
    case UInt(n) => ReadUInt(n, t);
    case SInt(i) => ReadSInt(i, t);
    case Float(bits) => ReadBits(0xca, bits, t);
    case Double(bits) => ReadBits(0xcb, bits, t);
    case Str(raw) => ReadStr(raw, t);
    case Bin(raw) => ReadBin(raw, t);
  }

  /** Decoding inverts the encoder, in both styles, whatever follows the value. */
  lemma {:induction false} DecodeOfEncode(style: Style, v: Value, t: seq<byte>)
    requires WellFormed(v)
    ensures Decode(Encode(style, v) + t) == Got(v, t)
    decreases v
  {
    hide Encode, EncodeAll, Decode, DecodeAll;
    if v.Node? {
      var tail := EncodeAll(style, v.items) + t;
      DecodeAllOfEncodeAll(style, v.items, t);
      DecodeNode(style, v.kind, v.items, tail, t);
      EncodeNode(style, v, t);
    } else {
      DecodeScalar(style, v, t);
    }
  }

  lemma DecodeScalar(style: Style, v: Value, t: seq<byte>)
    requires WellFormed(v) && !v.Node?
    ensures Decode(Encode(style, v) + t) == Got(v, t)
  {
    hide ReadToken, Encode;
    ReadScalar(style, v, t);
  }

  lemma EncodeNode(style: Style, v: Value, t: seq<byte>)
    requires WellFormed(v) && v.Node?
    ensures AllWellFormed(v.items)
    ensures Encode(style, v) + t
         == ContainerHead(style, v.kind, Count(v.kind, |v.items|)) + (EncodeAll(style, v.items) + t)
  {
    hide EncodeAll, ContainerHead;
  }

  lemma DecodeNode(style: Style, kind: Kind, items: seq<Value>, tail: seq<byte>, t: seq<byte>)
    requires Count(kind, |items|) < U32 && (kind.MapKind? ==> |items| % 2 == 0)
    requires DecodeAll(tail, |items|) == Got(items, t)
    ensures Decode(ContainerHead(style, kind, Count(kind, |items|)) + tail) == Got(Node(kind, items), t)
  {
    ReadContainerHead(style, kind, Count(kind, |items|), tail);
  }

  lemma {:induction false} DecodeAllOfEncodeAll(style: Style, vs: seq<Value>, t: seq<byte>)
    requires AllWellFormed(vs)
    ensures DecodeAll(EncodeAll(style, vs) + t, |vs|) == Got(vs, t)
    decreases vs
  {
    if vs == [] {
      assert EncodeAll(style, vs) + t == t;
    } else {
      var v, rest := vs[0], vs[1..];
      var head, tail := Encode(style, v), EncodeAll(style, rest);
      assert [v] + rest == vs;
      assert EncodeAll(style, vs) + t == head + (tail + t);
      assert DecodeAll(head + (tail + t), 1 + |rest|) == Got([v] + rest, t) by {
        DecodeOfEncode(style, v, tail + t);
        DecodeAllOfEncodeAll(style, rest, t);
        DecodeAllStep(head + (tail + t), tail + t, v, rest, t);
      }
    }
  }

  lemma DecodeAllStep(s: seq<byte>, tail: seq<byte>, v: Value, vs: seq<Value>, t: seq<byte>)
    requires Decode(s) == Got(v, tail) && DecodeAll(tail, |vs|) == Got(vs, t)
    ensures DecodeAll(s, 1 + |vs|) == Got([v] + vs, t)
  {
  }

  lemma {:induction false} EncodeAllConcat(style: Style, a: seq<Value>, b: seq<Value>)
    requires AllWellFormed(a) && AllWellFormed(b)
    ensures AllWellFormed(a + b)
    ensures EncodeAll(style, a + b) == EncodeAll(style, a) + EncodeAll(style, b)
  {
    hide Encode;
    if a == [] {
      assert a + b == b;
      assert EncodeAll(style, a) == [];
    } else {
      EncodeAllConcat(style, a[1..], b);
      assert (a + b)[0] == a[0] && (a + b)[1..] == a[1..] + b;
      var x, y, z := Encode(style, a[0]), EncodeAll(style, a[1..]), EncodeAll(style, b);
      assert EncodeAll(style, a + b) == x + (y + z);
      assert EncodeAll(style, a) == x + y;
    }
  }

  lemma EncodeAllSnoc(style: Style, vs: seq<Value>, v: Value)
    requires AllWellFormed(vs) && WellFormed(v)
    ensures AllWellFormed(vs + [v])
    ensures EncodeAll(style, vs + [v]) == EncodeAll(style, vs) + Encode(style, v)
  {
    EncodeAllConcat(style, vs, [v]);
    assert [v][1..] == [];
    assert EncodeAll(style, [v]) == Encode(style, v);
  }

  // ----- locality: a decoded value does not look past its own bytes -----

  lemma TakeExtends(s: seq<byte>, t: seq<byte>, n: nat)
    requires n <= |s|
    ensures (s + t)[..n] == s[..n] && (s + t)[n..] == s[n..] + t
  {
  }

  lemma TakeNumExtends(s: seq<byte>, w: nat, t: seq<byte>)
    requires TakeNum(s, w).Got?
    ensures TakeNum(s + t, w) == Got(TakeNum(s, w).val, TakeNum(s, w).rest + t)
  {
    TakeExtends(s, t, w);
  }

  lemma TakeRawExtends(s: seq<byte>, len: nat, isStr: bool, t: seq<byte>)
    requires TakeRaw(s, len, isStr).Got?
    ensures TakeRaw(s + t, len, isStr) == Got(TakeRaw(s, len, isStr).val, TakeRaw(s, len, isStr).rest + t)
  {
    TakeExtends(s, t, len);
  }

  lemma ReadShapeExtends(shape: Shape, s: seq<byte>, t: seq<byte>)
    requires ReadShape(shape, s).Got?
    ensures ReadShape(shape, s + t) == Got(ReadShape(shape, s).val, ReadShape(shape, s).rest + t)
  {
    match shape
    case Whole(_) =>
    case FixStr(len) => TakeRawExtends(s, len, true, t);
    case Sized(isStr, w) =>
      TakeNumExtends(s, w, t);
      TakeRawExtends(TakeNum(s, w).rest, TakeNum(s, w).val, isStr, t);
    case Number(_, w) => TakeNumExtends(s, w, t);
    case RawBits(w) => TakeExtends(s, t, w);
    case CountOf(_, w) => TakeNumExtends(s, w, t);
  }

  lemma ReadTokenExtends(s: seq<byte>, t: seq<byte>)
    requires ReadToken(s).Got?
    ensures ReadToken(s + t) == Got(ReadToken(s).val, ReadToken(s).rest + t)
  {
    assert (s + t)[1..] == s[1..] + t;
    ReadShapeExtends(ShapeOf(s[0]), s[1..], t);
  }

  lemma {:induction false} DecodeExtends(s: seq<byte>, t: seq<byte>)
    requires Decode(s).Got?
    ensures Decode(s + t) == Got(Decode(s).val, Decode(s).rest + t)
    decreases |s|, 0
  {
    ReadTokenExtends(s, t);
    var Got(tok, u) := ReadToken(s);
    match tok
    case Leaf(_) =>
    case Open(kind, count) => DecodeAllExtends(u, Children(kind, count), t);
  }

  lemma {:induction false} DecodeAllExtends(s: seq<byte>, k: nat, t: seq<byte>)
    requires DecodeAll(s, k).Got?
    ensures DecodeAll(s + t, k) == Got(DecodeAll(s, k).val, DecodeAll(s, k).rest + t)
    decreases |s|, 1
  {
    if k > 0 {
      DecodeExtends(s, t);
      DecodeAllExtends(Decode(s).rest, k - 1, t);
    }
  }

  /** A value on its own decodes with nothing left over. */
  lemma DecodeAlone(style: Style, v: Value)
    requires WellFormed(v)
    ensures Decode(Encode(style, v)) == Got(v, [])
  {
    DecodeOfEncode(style, v, []);
    assert Encode(style, v) + [] == Encode(style, v);
  }

  // ----- what is left over is a suffix of the input -----

  lemma ReadTokenSuffix(s: seq<byte>)
    requires ReadToken(s).Got?
    ensures ReadToken(s).rest == s[|s| - |ReadToken(s).rest|..]
  {
  }

  lemma {:induction false} DecodeSuffix(s: seq<byte>)
    requires Decode(s).Got?
    ensures Decode(s).rest == s[|s| - |Decode(s).rest|..]
    decreases |s|, 0
  {
    ReadTokenSuffix(s);
    var Got(tok, t) := ReadToken(s);
    if tok.Open? {
      DecodeAllSuffix(t, Children(tok.kind, tok.count));
    }
  }

  lemma {:induction false} DecodeAllSuffix(s: seq<byte>, k: nat)
    requires DecodeAll(s, k).Got?
    ensures DecodeAll(s, k).rest == s[|s| - |DecodeAll(s, k).rest|..]
    decreases |s|, 1
  {
    if k > 0 {
      DecodeSuffix(s);
      DecodeAllSuffix(Decode(s).rest, k - 1);
    }
  }

  /** The tag alone tells the type of a value that decodes. */
  lemma TypeOfTag(s: seq<byte>)
    requires Decode(s).Got?
    ensures TypeOf(s[0]) == ValueType(Decode(s).val)
  {
  }

  // ----- cutting off what a value leaves over -----

  lemma CutFront(s: seq<byte>, u: seq<byte>, n: nat)
    requires n <= |s|
    ensures (s + u)[..n] == s[..n] && (s + u)[n..] == s[n..] + u
  {
  }

  lemma ReadShapeCuts(shape: Shape, s: seq<byte>, u: seq<byte>)
    requires ReadShape(shape, s + u).Got? && |ReadShape(shape, s + u).rest| >= |u|
    ensures ReadShape(shape, s).Got? && ReadShape(shape, s).val == ReadShape(shape, s + u).val
    ensures ReadShape(shape, s + u).rest == ReadShape(shape, s).rest + u
  {
    match shape
    case Whole(_) =>
    case FixStr(len) => CutFront(s, u, len);
    case Sized(isStr, w) =>
      CutFront(s, u, w);
      CutFront(s[w..], u, FromBE(s[..w]));
    case Number(_, w) => CutFront(s, u, w);
    case RawBits(w) => CutFront(s, u, w);
    case CountOf(_, w) => CutFront(s, u, w);
    case Unused =>
  }

  lemma ReadTokenCuts(s: seq<byte>, u: seq<byte>)
    requires ReadToken(s + u).Got? && |ReadToken(s + u).rest| >= |u|
    ensures ReadToken(s).Got? && ReadToken(s).val == ReadToken(s + u).val
    ensures ReadToken(s + u).rest == ReadToken(s).rest + u
  {
    hide ReadShape;
    assert s != [];
    assert (s + u)[1..] == s[1..] + u;
    ReadShapeCuts(ShapeOf(s[0]), s[1..], u);
  }

  /** A value that decodes from a longer input decodes from its own bytes. */
  lemma {:induction false} DecodeCuts(s: seq<byte>, u: seq<byte>)
    requires Decode(s + u).Got? && |Decode(s + u).rest| >= |u|
    ensures Decode(s).Got? && Decode(s).val == Decode(s + u).val
    ensures Decode(s + u).rest == Decode(s).rest + u
    decreases |s + u|, 0
  {
    hide ReadToken;
    var Got(tok, t) := ReadToken(s + u);
    ReadTokenCuts(s, u);
    if tok.Open? {
      DecodeAllCuts(ReadToken(s).rest, Children(tok.kind, tok.count), u);
    }
  }

  lemma {:induction false} DecodeAllCuts(s: seq<byte>, k: nat, u: seq<byte>)
    requires DecodeAll(s + u, k).Got? && |DecodeAll(s + u, k).rest| >= |u|
    ensures DecodeAll(s, k).Got? && DecodeAll(s, k).val == DecodeAll(s + u, k).val
    ensures DecodeAll(s + u, k).rest == DecodeAll(s, k).rest + u
    decreases |s + u|, 1
  {
    hide ReadToken;
    if k > 0 {
      DecodeCuts(s, u);
      DecodeAllCuts(Decode(s).rest, k - 1, u);
    }
  }

  /** The bytes of a decoded value are a value on their own. */
  lemma DecodeOwnBytes(s: seq<byte>)
    requires Decode(s).Got?
    ensures Decode(s[..|s| - |Decode(s).rest|]) == Got(Decode(s).val, [])
  {
    var own, rest := s[..|s| - |Decode(s).rest|], Decode(s).rest;
    DecodeSuffix(s);
    assert s == own + rest;
    DecodeCuts(own, rest);
    assert |Decode(own).rest| == 0;
  }

  // ----- the shortest form -----

  lemma ReadNumBelow(s: seq<byte>, w: nat)
    requires TakeNum(s, w).Got?
    ensures TakeNum(s, w).val < Pow256(w)
  {
    BEOfFromBE(s[..w]);
  }

  lemma NumberWidths(n: nat, i: int, w: nat)
    requires w == 1 || w == 2 || w == 4 || w == 8
    ensures n < Pow256(w) ==> |UIntBytes(n)| <= 1 + w
    ensures 2 * i + Pow256(w) >= 0 && -U63 <= i < 0 ==> |SIntBytes(i)| <= 1 + w
  {
    hide BE;
    PowValues();
  }

  lemma HeadWidths(len: nat, w: nat, kind: Kind)
    requires (w == 1 || w == 2 || w == 4) && len < Pow256(w)
    ensures |StrHead(len)| <= 1 + w && |BinHead(len)| <= 1 + w
    ensures w > 1 ==> |ContainerHead(Shortest, kind, len)| <= 1 + w
    ensures len < U32
  {
    hide BE;
    PowValues();
  }

  /** No header is shorter than the one the encoder writes. */
  lemma ShortestToken(s: seq<byte>)
    requires ReadToken(s).Got?
    ensures match ReadToken(s)
      case Got(Leaf(v), t) => WellFormed(v) ==> |Encode(Shortest, v)| + |t| <= |s|
      case Got(Open(kind, count), t) =>
        count < U32 && |ContainerHead(Shortest, kind, count)| + |t| <= |s|
  {
    hide FromBE, Pow256, UIntBytes, SIntBytes, StrHead, BinHead, ContainerHead, TakeNum;
    var shape, t := ShapeOf(s[0]), s[1..];
    match shape
    case Sized(_, w) =>
      ReadNumBelow(t, w);
      HeadWidths(TakeNum(t, w).val, w, ArrayKind);
    case Number(_, w) =>
      ReadNumBelow(t, w);
      NumberWidths(TakeNum(t, w).val, Signed(TakeNum(t, w).val, w), w);
    case CountOf(kind, w) =>
      ReadNumBelow(t, w);
      HeadWidths(TakeNum(t, w).val, w, kind);
    case FixStr(len) => SmallHeads(len);
    case Whole(Open(_, count)) => SmallHeads(count);
    case Whole(Leaf(v)) => SmallNumbers(v);
    case _ =>
  }

  lemma SmallHeads(n: nat)
    ensures n < 32 ==> |StrHead(n)| == 1
    ensures n < 16 ==> |ContainerHead(Shortest, ArrayKind, n)| == 1 && |ContainerHead(Shortest, MapKind, n)| == 1
  {
  }

  lemma SmallNumbers(v: Value)
    ensures v.UInt? && v.n < 0x80 ==> |UIntBytes(v.n)| == 1
    ensures v.SInt? && -0x20 <= v.i < 0 ==> |SIntBytes(v.i)| == 1
  {
  }

  /** The encoder's form is the shortest: no bytes that decode to the same value are
      fewer. */
  lemma {:induction false} ShortestForm(s: seq<byte>)
    requires Decode(s).Got? && WellFormed(Decode(s).val)
    ensures |Encode(Shortest, Decode(s).val)| + |Decode(s).rest| <= |s|
    decreases |s|, 0
  {
    hide ReadToken, ContainerHead;
    ShortestToken(s);
    var Got(tok, t) := ReadToken(s);
    if tok.Open? {
      var k := Children(tok.kind, tok.count);
      assert Decode(s).val == Node(tok.kind, DecodeAll(t, k).val);
      ShortestForms(t, k);
      assert Count(tok.kind, k) == tok.count;
    }
  }

  lemma {:induction false} ShortestForms(s: seq<byte>, k: nat)
    requires DecodeAll(s, k).Got? && AllWellFormed(DecodeAll(s, k).val)
    ensures |EncodeAll(Shortest, DecodeAll(s, k).val)| + |DecodeAll(s, k).rest| <= |s|
    decreases |s|, 1
  {
    hide Encode;
    if k > 0 {
      var v, u := Decode(s).val, Decode(s).rest;
      var vs := DecodeAll(s, k).val;
      assert vs[0] == v && vs[1..] == DecodeAll(u, k - 1).val;
      assert v in vs;
      ShortestForm(s);
      ShortestForms(u, k - 1);
    }
  }
}
