/**
 * Reading requests back. A server that takes a frame apart finds exactly the
 * fields the request carries.
 */
module RequestLaws {
  import opened Bytes
  import opened MsgPack
  import opened MsgPackLaws
  import ObjectSpec
  import opened RequestSpec

  // ----- the server's side -----

  datatype Message = Message(code: Value, sync: Value, fields: map<nat, Value>)

  /** The last value stored under each key; None if a key is not unsigned. */
  function FieldMap(items: seq<Value>): Option<map<nat, Value>> {
    var n := |items|;
    if n == 0 then Some(map[])
    else if n == 1 || !items[n - 2].UInt? then None
    else match FieldMap(items[..n - 2])
      case None => None
      case Some(m) => Some(m[items[n - 2].n := items[n - 1]])
  }

  function ReadMap(s: seq<byte>): Option<(map<nat, Value>, seq<byte>)> {
    match Decode(s)
    case Got(Node(MapKind, items), rest) => (
      match FieldMap(items)
      case Some(m) => Some((m, rest))
      case None => None)
    case _ => None
  }

  /** Takes one frame from the front of s: a length, a header map and a body map
      that fill the length exactly. */
  function ReadFrame(s: seq<byte>): Option<(Message, seq<byte>)> {
    match ReadToken(s)
    case Got(Leaf(UInt(len)), t) =>
      if |t| < len then None
      else (
        match ReadMap(t[..len])
        case None => None
        case Some((header, body)) =>
          match ReadMap(body)
          case None => None
          case Some((fields, rest)) =>
            if rest == [] && 0x00 in header && 0x01 in header then
              Some((Message(header[0x00], header[0x01], fields), t[len..]))
            else None)
    case _ => None
  }

  // ----- pairs and the values they stand for -----

  datatype Entry = Entry(key: byte, v: Value)

  predicate Reads(p: Pair, e: Entry) {
    p.key == e.key && p.key < 0x80 && Decode(p.chunk) == Got(e.v, [])
  }

  predicate ReadsAll(ps: seq<Pair>, es: seq<Entry>) {
    |ps| == |es| && forall i | 0 <= i < |ps| :: Reads(ps[i], es[i])
  }

  function Items(es: seq<Entry>): (vs: seq<Value>)
    ensures |vs| == 2 * |es|
  {
    if es == [] then []
    else Items(es[..|es| - 1]) + [UInt(es[|es| - 1].key), es[|es| - 1].v]
  }

  function MapOf(es: seq<Entry>): map<nat, Value> {
    if es == [] then map[] else MapOf(es[..|es| - 1])[es[|es| - 1].key := es[|es| - 1].v]
  }

  function Lookup(m: map<nat, Value>, k: nat): Option<Value> {
    if k in m then Some(m[k]) else None
  }

  lemma {:induction false} FieldMapOfItems(es: seq<Entry>)
    ensures FieldMap(Items(es)) == Some(MapOf(es))
    decreases |es|
  {
    if es != [] {
      FieldMapOfItems(es[..|es| - 1]);
      var n := |Items(es)|;
      assert Items(es)[..n - 2] == Items(es[..|es| - 1]);
    }
  }

  lemma {:induction false} DecodeAllAppend(s: seq<byte>, n: nat, xs: seq<Value>, u: seq<byte>, m: nat,
                                           ys: seq<Value>, t: seq<byte>)
    requires DecodeAll(s, n) == Got(xs, u) && DecodeAll(u, m) == Got(ys, t)
    ensures DecodeAll(s, n + m) == Got(xs + ys, t)
    decreases n
  {
    hide Decode;
    if n == 0 {
      assert xs + ys == ys;
    } else {
      DecodeAllAppend(Decode(s).rest, n - 1, xs[1..], u, m, ys, t);
      assert [xs[0]] + (xs[1..] + ys) == xs + ys;
      assert Decode(s).val == xs[0];
    }
  }

  lemma PairDecodes(p: Pair, e: Entry, t: seq<byte>)
    requires Reads(p, e)
    ensures DecodeAll(PairBytes(p) + t, 2) == Got([UInt(e.key), e.v], t)
  {
    hide Decode, DecodeAll, UIntBytes;
    DecodeOfEncode(Shortest, UInt(p.key), p.chunk + t);
    DecodeExtends(p.chunk, t);
    assert [] + t == t;
    assert PairBytes(p) + t == UIntBytes(p.key) + (p.chunk + t);
    NoValues(t);
    DecodeAllStep(p.chunk + t, t, e.v, [], t);
    DecodeAllStep(PairBytes(p) + t, p.chunk + t, UInt(e.key), [e.v] + [], t);
    assert [UInt(e.key)] + ([e.v] + []) == [UInt(e.key), e.v];
  }

  lemma NoValues(t: seq<byte>)
    ensures DecodeAll(t, 0) == Got([], t)
  {
  }

  lemma {:induction false} PairsDecode(ps: seq<Pair>, es: seq<Entry>, t: seq<byte>)
    requires ReadsAll(ps, es)
    ensures DecodeAll(PairsBytes(ps) + t, 2 * |ps|) == Got(Items(es), t)
    decreases |ps|
  {
    hide DecodeAll, Decode, PairBytes, Reads;
    if ps == [] {
      NoValues(t);
      assert PairsBytes(ps) + t == t;
    } else {
      var n := |ps| - 1;
      var init, last := PairsBytes(ps[..n]), PairBytes(ps[n]);
      assert Reads(ps[n], es[n]);
      PairsDecode(ps[..n], es[..n], last + t);
      PairDecodes(ps[n], es[n], t);
      DecodeAllAppend(init + (last + t), 2 * n, Items(es[..n]), last + t, 2, [UInt(es[n].key), es[n].v], t);
      assert init + (last + t) == PairsBytes(ps) + t;
    }
  }

  /** A body of readable pairs reads as the map of their values. */
  lemma BodyReads(ps: seq<Pair>, es: seq<Entry>)
    requires ReadsAll(ps, es) && |ps| < U32
    ensures ReadMap(BodyBytes(ps)) == Some((MapOf(es), []))
  {
    hide Decode, DecodeAll, PairsBytes, ContainerHead;
    PairsDecode(ps, es, []);
    assert PairsBytes(ps) + [] == PairsBytes(ps);
    DecodeNode(Shortest, MapKind, Items(es), PairsBytes(ps), []);
    FieldMapOfItems(es);
  }

  lemma HeaderReads(code: nat, sync: nat, t: seq<byte>)
    requires code < U64 && sync < U64
    ensures ReadMap(HeaderBytes(code, sync) + t) == Some((map[CODE := UInt(code), SYNC := UInt(sync)], t))
  {
    hide Decode, DecodeAll, PairsBytes, ContainerHead, UIntBytes, MapOf, Items;
    var ps := [Pair(CODE, UIntBytes(code)), Pair(SYNC, UIntBytes(sync))];
    var es := [Entry(CODE, UInt(code)), Entry(SYNC, UInt(sync))];
    DecodeAlone(Shortest, UInt(code));
    DecodeAlone(Shortest, UInt(sync));
    assert Reads(ps[0], es[0]) && Reads(ps[1], es[1]);
    PairsDecode(ps, es, t);
    TwoEntries(es[0], es[1]);
    TwoPairs(ps[0], ps[1]);
    DecodeNode(Shortest, MapKind, Items(es), PairsBytes(ps) + t, t);
    FieldMapOfItems(es);
    assert HeaderBytes(code, sync) + t == ContainerHead(Shortest, MapKind, 2) + (PairsBytes(ps) + t);
  }

  lemma TwoEntries(a: Entry, b: Entry)
    ensures MapOf([a, b]) == map[a.key as nat := a.v][b.key as nat := b.v]
  {
    assert [a, b][..1] == [a] && [a][..0] == [];
    assert MapOf([a]) == map[][a.key as nat := a.v];
  }

  lemma TwoPairs(a: Pair, b: Pair)
    ensures PairsBytes([a, b]) == PairBytes(a) + PairBytes(b)
  {
    assert [a, b][..1] == [a] && [a][..0] == [];
    assert PairsBytes([a]) == [] + PairBytes(a);
  }

  lemma PrefixReads(n: nat, t: seq<byte>)
    requires n < U64
    ensures ReadToken(LUInt(n) + t) == Got(Leaf(UInt(n)), t)
  {
    hide ReadToken;
    PowValues();
    if n < U32 {
      TagAndNumber(0xce, n, 4, t);
    } else {
      TagAndNumber(0xcf, n, 8, t);
    }
  }

  /** Whatever pairs a frame is made of, and whatever follows it, a reader finds
      its code, its sync and its pairs, and stops at its end. */
  lemma FrameReads(code: nat, sync: nat, ps: seq<Pair>, es: seq<Entry>, t: seq<byte>)
    requires code < U64 && sync < U64 && ReadsAll(ps, es) && |ps| < U32
    requires |Payload(code, sync, ps)| < U64
    ensures ReadFrame(FrameBytes(code, sync, ps) + t)
         == Some((Message(UInt(code), UInt(sync), MapOf(es)), t))
  {
    hide ReadToken, ReadMap, HeaderBytes, BodyBytes, LUInt, MapOf, ReadsAll;
    var p := Payload(code, sync, ps);
    assert FrameBytes(code, sync, ps) + t == LUInt(|p|) + (p + t);
    PrefixReads(|p|, p + t);
    assert (p + t)[..|p|] == p && (p + t)[|p|..] == t;
    HeaderReads(code, sync, BodyBytes(ps));
    BodyReads(ps, es);
  }

  /** The prefix is the five-byte form exactly if the payload is below 4 GiB. */
  lemma PrefixWidth(code: nat, sync: nat, ps: seq<Pair>)
    ensures |FrameBytes(code, sync, ps)| == |Payload(code, sync, ps)| + 5 <==> |Payload(code, sync, ps)| < U32
    ensures |Payload(code, sync, ps)| < U32 ==> FrameBytes(code, sync, ps)[0] == 0xce
  {
  }

  // ----- the fields a request carries -----

  predicate OneValue(raw: seq<byte>) {
    ObjectSpec.Verify(raw, None) == 0
  }

  /** The types whose key is a text: CALL_16, EVAL and CALL. */
  predicate TakesText(tp: nat) {
    tp == 6 || tp == 8 || tp == 10
  }

  /** The caller's memory holds what the protocol wants there: text below 4 GiB,
      or exactly one MessagePack value. */
  predicate Sound(r: Fields) {
    && (r.key.Some? ==> if TakesText(r.tp) then |r.key.value| < U32 else OneValue(r.key.value))
    && (r.tuple.Some? ==> OneValue(r.tuple.value))
  }

  function RawValue(raw: seq<byte>): Value {
    match Decode(raw)
    case Got(v, _) => v
    case Bad => Nil
  }

  function KeyValue(r: Fields): Value
    requires r.key.Some?
  {
    if TakesText(r.tp) then Str(r.key.value) else RawValue(r.key.value)
  }

  function If(c: bool, v: Value): Option<Value> {
    if c then Some(v) else None
  }

  /** What a server must find under key k of the body of request r, in the protocol's
      numbers. The types are 1 SELECT, 2 INSERT, 3 REPLACE, 4 UPDATE, 5 DELETE,
      6 CALL_16, 8 EVAL, 9 UPSERT, 10 CALL and 64 PING; the keys 0x10 space, 0x11 index,
      0x12 limit, 0x13 offset, 0x14 iterator, 0x15 index base, 0x20 key, 0x21 tuple,
      0x22 function, 0x27 expression and 0x28 operations. */
  function Carried(r: Fields, k: nat): Option<Value>
    requires FieldsOk(r)
  {
    match k
    case 0x10 => If(r.tp < 6, UInt(r.space))
    case 0x11 => If(r.index != 0 && (r.tp == 1 || r.tp == 4 || r.tp == 5), UInt(r.index))
    case 0x12 => If(r.tp == 1, UInt(r.limit))
    case 0x13 => If(r.offset != 0 && r.tp == 1, UInt(r.offset))
    case 0x14 => If(r.iter != 0 && r.tp == 1, UInt(r.iter))
    case 0x15 =>
      If(r.indexBase != 0 && (r.tp == 4 || r.tp == 9),
         UInt(if r.indexBase < 0 then r.indexBase + 0x1_0000_0000_0000_0000 else r.indexBase))
    case 0x20 => if r.key.Some? && !TakesText(r.tp) && r.tp != 9 then Some(RawValue(r.key.value)) else None
    case 0x21 => if r.tuple.Some? then Some(RawValue(r.tuple.value)) else None
    case 0x22 => if r.key.Some? && (r.tp == 6 || r.tp == 10) then Some(Str(r.key.value)) else None
    case 0x27 => if r.key.Some? && r.tp == 8 then Some(Str(r.key.value)) else None
    case 0x28 => if r.key.Some? && r.tp == 9 then Some(RawValue(r.key.value)) else None
    case _ => None
  }

  function WhenEntry(c: bool, key: byte, v: Value): (s: seq<Entry>)
    ensures |s| == if c then 1 else 0
  {
    if c then [Entry(key, v)] else []
  }

  function NumberEntries(r: Fields): seq<Entry>
    requires FieldsOk(r)
  {
    WhenEntry(HasSpace(r.tp), SPACE, UInt(r.space))
      + WhenEntry(r.index != 0 && HasIndex(r.tp), INDEX, UInt(r.index))
      + (WhenEntry(r.tp == OP_SELECT, LIMIT, UInt(r.limit))
         + WhenEntry(r.offset != 0 && r.tp == OP_SELECT, OFFSET, UInt(r.offset))
         + WhenEntry(r.iter != 0 && r.tp == OP_SELECT, ITERATOR, UInt(r.iter)))
  }

  function KeyEntries(r: Fields): seq<Entry> {
    if r.key.Some? then [Entry(KeyTag(r.tp), KeyValue(r))] else []
  }

  function TupleEntries(r: Fields): seq<Entry> {
    if r.tuple.Some? then [Entry(TUPLE, RawValue(r.tuple.value))] else []
  }

  function BaseEntries(r: Fields): seq<Entry>
    requires FieldsOk(r)
  {
    WhenEntry(r.indexBase != 0 && (r.tp == OP_UPDATE || r.tp == OP_UPSERT), INDEX_BASE,
              UInt(UInt64(r.indexBase)))
  }

  function Entries(r: Fields): seq<Entry>
    requires FieldsOk(r)
  {
    NumberEntries(r) + KeyEntries(r) + TupleEntries(r) + BaseEntries(r)
  }

  lemma ReadsConcat(ps: seq<Pair>, es: seq<Entry>, qs: seq<Pair>, fs: seq<Entry>)
    requires ReadsAll(ps, es) && ReadsAll(qs, fs)
    ensures ReadsAll(ps + qs, es + fs)
  {
    hide Reads;
  }

  lemma ReadsWhen(c: bool, key: byte, n: nat)
    requires key < 0x80 && n < U64
    ensures ReadsAll(When(c, key, UIntBytes(n)), WhenEntry(c, key, UInt(n)))
  {
    hide Decode, UIntBytes;
    DecodeAlone(Shortest, UInt(n));
  }

  lemma NumbersRead(r: Fields)
    requires FieldsOk(r)
    ensures ReadsAll(NumberPairs(r), NumberEntries(r))
  {
    hide ReadsAll, When, WhenEntry, UIntBytes;
    var sel, idx, off, itr := r.tp == OP_SELECT, r.index != 0 && HasIndex(r.tp),
      r.offset != 0 && r.tp == OP_SELECT, r.iter != 0 && r.tp == OP_SELECT;
    ReadsWhen(HasSpace(r.tp), SPACE, r.space);
    ReadsWhen(idx, INDEX, r.index);
    ReadsWhen(sel, LIMIT, r.limit);
    ReadsWhen(off, OFFSET, r.offset);
    ReadsWhen(itr, ITERATOR, r.iter);
    var p1, e1 := When(HasSpace(r.tp), SPACE, UIntBytes(r.space)), WhenEntry(HasSpace(r.tp), SPACE, UInt(r.space));
    var p2, e2 := When(idx, INDEX, UIntBytes(r.index)), WhenEntry(idx, INDEX, UInt(r.index));
    var p3, e3 := When(sel, LIMIT, UIntBytes(r.limit)), WhenEntry(sel, LIMIT, UInt(r.limit));
    var p4, e4 := When(off, OFFSET, UIntBytes(r.offset)), WhenEntry(off, OFFSET, UInt(r.offset));
    var p5, e5 := When(itr, ITERATOR, UIntBytes(r.iter)), WhenEntry(itr, ITERATOR, UInt(r.iter));
    ReadsConcat(p1, e1, p2, e2);
    ReadsConcat(p3, e3, p4, e4);
    ReadsConcat(p3 + p4, e3 + e4, p5, e5);
    ReadsConcat(p1 + p2, e1 + e2, p3 + p4 + p5, e3 + e4 + e5);
  }

  lemma RawReads(key: byte, raw: seq<byte>)
    requires OneValue(raw) && key < 0x80
    ensures Reads(Pair(key, raw), Entry(key, RawValue(raw)))
  {
  }

  lemma KeyReads(r: Fields)
    requires FieldsOk(r) && Sound(r)
    ensures ReadsAll(KeyPairs(r), KeyEntries(r))
  {
    hide Decode, StrHead, OneValue;
    if r.key.Some? {
      var raw := r.key.value;
      if HasText(r.tp) {
        DecodeAlone(Shortest, Str(raw));
        assert |raw| % U32 == |raw|;
      } else {
        RawReads(KeyTag(r.tp), raw);
        assert [] + raw == raw;
      }
    }
  }

  lemma TupleReads(r: Fields)
    requires FieldsOk(r) && Sound(r)
    ensures ReadsAll(TuplePairs(r), TupleEntries(r))
  {
    hide Decode, OneValue;
    if r.tuple.Some? {
      RawReads(TUPLE, r.tuple.value);
    }
  }

  lemma PairsRead(r: Fields)
    requires FieldsOk(r) && Sound(r)
    ensures ReadsAll(Pairs(r), Entries(r))
  {
    hide ReadsAll, NumberPairs, NumberEntries, KeyPairs, KeyEntries, TuplePairs, TupleEntries, When, WhenEntry,
      UIntBytes, OneValue;
    NumbersRead(r);
    KeyReads(r);
    TupleReads(r);
    ReadsWhen(r.indexBase != 0 && (r.tp == OP_UPDATE || r.tp == OP_UPSERT), INDEX_BASE, UInt64(r.indexBase));
    ReadsConcat(NumberPairs(r), NumberEntries(r), KeyPairs(r), KeyEntries(r));
    ReadsConcat(NumberPairs(r) + KeyPairs(r), NumberEntries(r) + KeyEntries(r), TuplePairs(r), TupleEntries(r));
    ReadsConcat(NumberPairs(r) + KeyPairs(r) + TuplePairs(r), NumberEntries(r) + KeyEntries(r) + TupleEntries(r),
                BasePairs(r), BaseEntries(r));
  }

  lemma {:induction false} LookupConcat(a: seq<Entry>, b: seq<Entry>, k: nat)
    ensures Lookup(MapOf(a + b), k) ==
      if Lookup(MapOf(b), k).Some? then Lookup(MapOf(b), k) else Lookup(MapOf(a), k)
    decreases |b|
  {
    if b == [] {
      assert a + b == a;
    } else {
      LookupConcat(a, b[..|b| - 1], k);
      assert (a + b)[..|a + b| - 1] == a + b[..|b| - 1];
    }
  }

  lemma LookupOne(e: Entry, k: nat)
    ensures Lookup(MapOf([e]), k) == If(k == e.key, e.v)
    ensures Lookup(MapOf([]), k) == None
  {
    assert [e][..0] == [];
  }

  lemma LookupWhen(c: bool, key: byte, v: Value, k: nat)
    ensures Lookup(MapOf(WhenEntry(c, key, v)), k) == If(c && k == key, v)
  {
    LookupOne(Entry(key, v), k);
  }

  lemma NumbersLookup(r: Fields, k: nat)
    requires FieldsOk(r)
    ensures Lookup(MapOf(NumberEntries(r)), k) ==
      match k
      case 0x10 => If(HasSpace(r.tp), UInt(r.space))
      case 0x11 => If(r.index != 0 && HasIndex(r.tp), UInt(r.index))
      case 0x12 => If(r.tp == OP_SELECT, UInt(r.limit))
      case 0x13 => If(r.offset != 0 && r.tp == OP_SELECT, UInt(r.offset))
      case 0x14 => If(r.iter != 0 && r.tp == OP_SELECT, UInt(r.iter))
      case _ => None
  {
    hide Lookup, MapOf, WhenEntry;
    var sel, idx, off, itr := r.tp == OP_SELECT, r.index != 0 && HasIndex(r.tp),
      r.offset != 0 && r.tp == OP_SELECT, r.iter != 0 && r.tp == OP_SELECT;
    LookupWhen(HasSpace(r.tp), SPACE, UInt(r.space), k);
    LookupWhen(idx, INDEX, UInt(r.index), k);
    LookupWhen(sel, LIMIT, UInt(r.limit), k);
    LookupWhen(off, OFFSET, UInt(r.offset), k);
    LookupWhen(itr, ITERATOR, UInt(r.iter), k);
    var e1, e2 := WhenEntry(HasSpace(r.tp), SPACE, UInt(r.space)), WhenEntry(idx, INDEX, UInt(r.index));
    var e3, e4, e5 := WhenEntry(sel, LIMIT, UInt(r.limit)), WhenEntry(off, OFFSET, UInt(r.offset)),
      WhenEntry(itr, ITERATOR, UInt(r.iter));
    LookupConcat(e1, e2, k);
    LookupConcat(e3, e4, k);
    LookupConcat(e3 + e4, e5, k);
    LookupConcat(e1 + e2, e3 + e4 + e5, k);
  }

  lemma EntriesLookup(r: Fields, k: nat)
    requires FieldsOk(r)
    ensures Lookup(MapOf(Entries(r)), k) == Carried(r, k)
  {
    hide Lookup, MapOf, WhenEntry, NumberEntries, RawValue;
    NumbersLookup(r, k);
    var base := r.indexBase != 0 && (r.tp == OP_UPDATE || r.tp == OP_UPSERT);
    LookupWhen(base, INDEX_BASE, UInt(UInt64(r.indexBase)), k);
    LookupOne(Entry(0, Nil), k);
    if r.key.Some? { LookupOne(KeyEntries(r)[0], k); }
    if r.tuple.Some? { LookupOne(TupleEntries(r)[0], k); }
    LookupConcat(NumberEntries(r), KeyEntries(r), k);
    LookupConcat(NumberEntries(r) + KeyEntries(r), TupleEntries(r), k);
    LookupConcat(NumberEntries(r) + KeyEntries(r) + TupleEntries(r), BaseEntries(r), k);
  }

  /** The round trip: from the frame of a request, and whatever follows it, a
      server recovers the type, the sync number and exactly the fields carried. */
  lemma RequestRecovered(r: Fields, sync: nat, t: seq<byte>)
    requires FieldsOk(r) && Sound(r) && sync < U64 && |Payload(r.tp, sync, Pairs(r))| < U64
    ensures var read := ReadFrame(FrameBytes(r.tp, sync, Pairs(r)) + t);
      && read.Some? && read.value.1 == t
      && read.value.0.code == UInt(r.tp) && read.value.0.sync == UInt(sync)
      && forall k: nat :: Lookup(read.value.0.fields, k) == Carried(r, k)
  {
    hide ReadFrame, FrameBytes, Pairs, Payload, Entries, Carried, Lookup, MapOf, ReadsAll, Sound;
    PairsRead(r);
    FrameReads(r.tp, sync, Pairs(r), Entries(r), t);
    forall k: nat
      ensures Lookup(MapOf(Entries(r)), k) == Carried(r, k)
    {
      EntriesLookup(r, k);
    }
  }

  /** The space reaches the server exactly for the types below CALL_16: an upsert,
      which needs one, loses it. */
  lemma SpaceCarried(r: Fields)
    requires FieldsOk(r)
    ensures Carried(r, SPACE) == Some(UInt(r.space)) <==> r.tp < OP_CALL_16
    ensures r.tp == OP_UPSERT ==> Carried(r, SPACE) == None
  {
  }

  /** Apart from upserts a request has at most seven pairs. */
  lemma SevenPairs(r: Fields)
    requires FieldsOk(r) && r.tp != OP_UPSERT
    ensures |Pairs(r)| <= 7
  {
  }
}
