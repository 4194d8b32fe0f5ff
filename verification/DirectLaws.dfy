/** The two ways of encoding a request agree. */
module DirectLaws {
  import opened Bytes
  import opened MsgPack
  import opened MsgPackLaws
  import opened RequestSpec
  import opened RequestLaws
  import opened Direct

  /** A field as the server takes it: an absent index, offset or iterator is 0. */
  function ReadField(m: map<nat, Value>, k: nat): Option<Value> {
    if k in m then Some(m[k])
    else if k == 0x11 || k == 0x13 || k == 0x14 then Some(UInt(0))
    else None
  }

  /** Two messages that ask the same of the server. */
  ghost predicate Alike(a: Message, b: Message) {
    a.code == b.code && a.sync == b.sync
    && forall k: nat :: ReadField(a.fields, k) == ReadField(b.fields, k)
  }

  function DirectNumberEntries(r: Fields): seq<Entry> {
    WhenEntry(HasSpace(r.tp), SPACE, UInt(r.space))
      + WhenEntry(HasIndex(r.tp), INDEX, UInt(r.index))
      + (WhenEntry(r.tp == OP_SELECT, LIMIT, UInt(r.limit))
         + WhenEntry(r.tp == OP_SELECT, OFFSET, UInt(r.offset))
         + WhenEntry(r.tp == OP_SELECT, ITERATOR, UInt(r.iter)))
  }

  function DirectEntries(r: Fields): seq<Entry> {
    DirectNumberEntries(r) + KeyEntries(r) + TupleEntries(r)
  }

  lemma DirectNumbersRead(r: Fields)
    requires FieldsOk(r)
    ensures ReadsAll(DirectNumbers(r), DirectNumberEntries(r))
  {
    hide ReadsAll, When, WhenEntry, UIntBytes;
    var space, idx, sel := HasSpace(r.tp), HasIndex(r.tp), r.tp == OP_SELECT;
    ReadsWhen(space, SPACE, r.space);
    ReadsWhen(idx, INDEX, r.index);
    ReadsWhen(sel, LIMIT, r.limit);
    ReadsWhen(sel, OFFSET, r.offset);
    ReadsWhen(sel, ITERATOR, r.iter);
    var p1, e1 := When(space, SPACE, UIntBytes(r.space)), WhenEntry(space, SPACE, UInt(r.space));
    var p2, e2 := When(idx, INDEX, UIntBytes(r.index)), WhenEntry(idx, INDEX, UInt(r.index));
    var p3, e3 := When(sel, LIMIT, UIntBytes(r.limit)), WhenEntry(sel, LIMIT, UInt(r.limit));
    var p4, e4 := When(sel, OFFSET, UIntBytes(r.offset)), WhenEntry(sel, OFFSET, UInt(r.offset));
    var p5, e5 := When(sel, ITERATOR, UIntBytes(r.iter)), WhenEntry(sel, ITERATOR, UInt(r.iter));
    ReadsConcat(p1, e1, p2, e2);
    ReadsConcat(p3, e3, p4, e4);
    ReadsConcat(p3 + p4, e3 + e4, p5, e5);
    ReadsConcat(p1 + p2, e1 + e2, p3 + p4 + p5, e3 + e4 + e5);
  }

  lemma DirectPairsRead(r: Fields)
    requires FieldsOk(r) && Sound(r)
    ensures ReadsAll(DirectPairs(r), DirectEntries(r))
  {
    hide ReadsAll, DirectNumbers, DirectNumberEntries, KeyPairs, KeyEntries, TuplePairs, TupleEntries, Sound;
    DirectNumbersRead(r);
    KeyReads(r);
    TupleReads(r);
    ReadsConcat(DirectNumbers(r), DirectNumberEntries(r), KeyPairs(r), KeyEntries(r));
    ReadsConcat(DirectNumbers(r) + KeyPairs(r), DirectNumberEntries(r) + KeyEntries(r),
                TuplePairs(r), TupleEntries(r));
  }

  lemma DirectNumbersLookup(r: Fields, k: nat)
    ensures Lookup(MapOf(DirectNumberEntries(r)), k) ==
      match k
      case 0x10 => If(HasSpace(r.tp), UInt(r.space))
      case 0x11 => If(HasIndex(r.tp), UInt(r.index))
      case 0x12 => If(r.tp == OP_SELECT, UInt(r.limit))
      case 0x13 => If(r.tp == OP_SELECT, UInt(r.offset))
      case 0x14 => If(r.tp == OP_SELECT, UInt(r.iter))
      case _ => None
  {
    hide Lookup, MapOf, WhenEntry;
    var space, idx, sel := HasSpace(r.tp), HasIndex(r.tp), r.tp == OP_SELECT;
    LookupWhen(space, SPACE, UInt(r.space), k);
    LookupWhen(idx, INDEX, UInt(r.index), k);
    LookupWhen(sel, LIMIT, UInt(r.limit), k);
    LookupWhen(sel, OFFSET, UInt(r.offset), k);
    LookupWhen(sel, ITERATOR, UInt(r.iter), k);
    var e1, e2 := WhenEntry(space, SPACE, UInt(r.space)), WhenEntry(idx, INDEX, UInt(r.index));
    var e3, e4, e5 := WhenEntry(sel, LIMIT, UInt(r.limit)), WhenEntry(sel, OFFSET, UInt(r.offset)),
      WhenEntry(sel, ITERATOR, UInt(r.iter));
    LookupConcat(e1, e2, k);
    LookupConcat(e3, e4, k);
    LookupConcat(e3 + e4, e5, k);
    LookupConcat(e1 + e2, e3 + e4 + e5, k);
  }

  /** What a server must find under key k of the body of the direct request for r. */
  function DirectCarried(r: Fields, k: nat): Option<Value>
    requires FieldsOk(r) && r.indexBase == 0
  {
    match k
    case 0x11 => If(r.tp == 1 || r.tp == 4 || r.tp == 5, UInt(r.index))
    case 0x13 => If(r.tp == 1, UInt(r.offset))
    case 0x14 => If(r.tp == 1, UInt(r.iter))
    case _ => Carried(r, k)
  }

  lemma DirectLookup(r: Fields, k: nat)
    requires FieldsOk(r) && r.indexBase == 0
    ensures Lookup(MapOf(DirectEntries(r)), k) == DirectCarried(r, k)
  {
    hide Lookup, MapOf, WhenEntry, DirectNumberEntries, RawValue;
    DirectNumbersLookup(r, k);
    LookupOne(Entry(0, Nil), k);
    if r.key.Some? { LookupOne(KeyEntries(r)[0], k); }
    if r.tuple.Some? { LookupOne(TupleEntries(r)[0], k); }
    LookupConcat(DirectNumberEntries(r), KeyEntries(r), k);
    LookupConcat(DirectNumberEntries(r) + KeyEntries(r), TupleEntries(r), k);
  }

  lemma FieldsAlike(r: Fields, k: nat)
    requires FieldsOk(r) && r.indexBase == 0
    ensures ReadField(MapOf(DirectEntries(r)), k) == ReadField(MapOf(Entries(r)), k)
  {
    hide MapOf, Entries, DirectEntries, RawValue;
    DirectLookup(r, k);
    EntriesLookup(r, k);
  }

  /** The compiled frame and the direct frame of the same request, under the same
      sync number, read alike: same header, and the same fields once an absent
      index, offset or iterator counts as 0. */
  lemma EncodersAgree(r: Fields, sync: nat, t: seq<byte>, u: seq<byte>)
    requires FieldsOk(r) && Sound(r) && sync < U64 && r.indexBase == 0
    requires |Payload(r.tp, sync, Pairs(r))| < U64 && |Payload(r.tp, sync, DirectPairs(r))| < U64
    ensures var a, b := ReadFrame(FrameBytes(r.tp, sync, Pairs(r)) + t),
        ReadFrame(FrameBytes(r.tp, sync, DirectPairs(r)) + u);
      && a.Some? && a.value.1 == t && b.Some? && b.value.1 == u
      && Alike(a.value.0, b.value.0)
  {
    hide ReadFrame, FrameBytes, Pairs, DirectPairs, Payload, Entries, DirectEntries, MapOf, ReadsAll, Sound, ReadField;
    PairsRead(r);
    DirectPairsRead(r);
    FrameReads(r.tp, sync, Pairs(r), Entries(r), t);
    FrameReads(r.tp, sync, DirectPairs(r), DirectEntries(r), u);
    forall k: nat
      ensures ReadField(MapOf(Entries(r)), k) == ReadField(MapOf(DirectEntries(r)), k)
    {
      FieldsAlike(r, k);
    }
  }

  // ----- what each direct function says, in terms of its arguments -----

  lemma SameMap(m: map<nat, Value>, n: map<nat, Value>)
    requires forall k: nat :: Lookup(m, k) == Lookup(n, k)
    ensures m == n
  {
    forall k | k in m || k in n
      ensures k in m && k in n && m[k] == n[k]
    {
      assert Lookup(m, k) == Lookup(n, k);
    }
  }

  /** The direct frame of r, whatever follows it, reads as exactly the fields it carries. */
  lemma DirectReads(r: Fields, sync: nat, t: seq<byte>, fields: map<nat, Value>)
    requires FieldsOk(r) && Sound(r) && sync < U64 && r.indexBase == 0
    requires |Payload(r.tp, sync, DirectPairs(r))| < U64
    requires forall k: nat :: DirectCarried(r, k) == Lookup(fields, k)
    ensures ReadFrame(FrameBytes(r.tp, sync, DirectPairs(r)) + t) == Some((Message(UInt(r.tp), UInt(sync), fields), t))
  {
    hide ReadFrame, FrameBytes, DirectPairs, Payload, DirectEntries, DirectCarried, MapOf, ReadsAll, Sound, Lookup;
    DirectPairsRead(r);
    FrameReads(r.tp, sync, DirectPairs(r), DirectEntries(r), t);
    forall k: nat
      ensures Lookup(MapOf(DirectEntries(r)), k) == Lookup(fields, k)
    {
      DirectLookup(r, k);
    }
    SameMap(MapOf(DirectEntries(r)), fields);
  }

  /** A direct select asks for just what its arguments say. */
  lemma SelectSays(space: nat, index: nat, limit: nat, offset: nat, iter: nat, key: seq<byte>, sync: nat, t: seq<byte>)
    requires space < U32 && index < U32 && limit < U32 && offset < U32 && iter < U32 && IsArray(key) && sync < U64
    requires var ps := DirectPairs(SelectFields(space, index, limit, offset, iter, key)); |Payload(1, sync, ps)| < U64
    ensures
      var ps := DirectPairs(SelectFields(space, index, limit, offset, iter, key));
      ReadFrame(FrameBytes(1, sync, ps) + t) == Some((Message(UInt(1), UInt(sync),
        map[0x10 := UInt(space), 0x11 := UInt(index), 0x12 := UInt(limit), 0x13 := UInt(offset), 0x14 := UInt(iter),
            0x20 := RawValue(key)]), t))
  {
    hide ReadFrame, FrameBytes, DirectPairs, RawValue;
    OneArray(key);
    DirectReads(SelectFields(space, index, limit, offset, iter, key), sync, t,
      map[0x10 := UInt(space), 0x11 := UInt(index), 0x12 := UInt(limit), 0x13 := UInt(offset), 0x14 := UInt(iter),
          0x20 := RawValue(key)]);
  }

  /** A direct insert (2) or replace (3). */
  lemma StoreSays(tp: nat, space: nat, tuple: seq<byte>, sync: nat, t: seq<byte>)
    requires (tp == 2 || tp == 3) && space < U32 && IsArray(tuple) && sync < U64
    requires |Payload(tp, sync, DirectPairs(StoreFields(tp, space, tuple)))| < U64
    ensures ReadFrame(FrameBytes(tp, sync, DirectPairs(StoreFields(tp, space, tuple))) + t)
      == Some((Message(UInt(tp), UInt(sync), map[0x10 := UInt(space), 0x21 := RawValue(tuple)]), t))
  {
    hide ReadFrame, FrameBytes, DirectPairs, RawValue;
    OneArray(tuple);
    DirectReads(StoreFields(tp, space, tuple), sync, t, map[0x10 := UInt(space), 0x21 := RawValue(tuple)]);
  }

  lemma DeleteSays(space: nat, index: nat, key: seq<byte>, sync: nat, t: seq<byte>)
    requires space < U32 && index < U32 && IsArray(key) && sync < U64
    requires |Payload(5, sync, DirectPairs(DeleteFields(space, index, key)))| < U64
    ensures ReadFrame(FrameBytes(5, sync, DirectPairs(DeleteFields(space, index, key))) + t)
      == Some((Message(UInt(5), UInt(sync), map[0x10 := UInt(space), 0x11 := UInt(index), 0x20 := RawValue(key)]), t))
  {
    hide ReadFrame, FrameBytes, DirectPairs, RawValue;
    OneArray(key);
    DirectReads(DeleteFields(space, index, key), sync, t,
      map[0x10 := UInt(space), 0x11 := UInt(index), 0x20 := RawValue(key)]);
  }

  /** The operations of a direct update stand where a tuple would. */
  lemma UpdateSays(space: nat, index: nat, key: seq<byte>, ops: seq<byte>, sync: nat, t: seq<byte>)
    requires space < U32 && index < U32 && IsArray(key) && IsArray(ops) && sync < U64
    requires |Payload(4, sync, DirectPairs(UpdateFields(space, index, key, ops)))| < U64
    ensures ReadFrame(FrameBytes(4, sync, DirectPairs(UpdateFields(space, index, key, ops))) + t)
      == Some((Message(UInt(4), UInt(sync),
           map[0x10 := UInt(space), 0x11 := UInt(index), 0x20 := RawValue(key), 0x21 := RawValue(ops)]), t))
  {
    hide ReadFrame, FrameBytes, DirectPairs, RawValue;
    OneArray(key);
    OneArray(ops);
    DirectReads(UpdateFields(space, index, key, ops), sync, t,
      map[0x10 := UInt(space), 0x11 := UInt(index), 0x20 := RawValue(key), 0x21 := RawValue(ops)]);
  }

  /** A call (6 or 10) names its function under 0x22, an eval (8) puts its expression under 0x27. */
  lemma RpcSays(tp: nat, text: seq<byte>, args: seq<byte>, sync: nat, t: seq<byte>)
    requires (tp == 6 || tp == 8 || tp == 10) && |text| < U32 && IsArray(args) && sync < U64
    requires |Payload(tp, sync, DirectPairs(RpcFields(tp, text, args)))| < U64
    ensures ReadFrame(FrameBytes(tp, sync, DirectPairs(RpcFields(tp, text, args))) + t)
      == Some((Message(UInt(tp), UInt(sync),
           map[if tp == 8 then 0x27 else 0x22 := Str(text), 0x21 := RawValue(args)]), t))
  {
    hide ReadFrame, FrameBytes, DirectPairs, RawValue;
    OneArray(args);
    DirectReads(RpcFields(tp, text, args), sync, t, map[if tp == 8 then 0x27 else 0x22 := Str(text), 0x21 := RawValue(args)]);
  }

  /** Each direct function's arguments are those of a request the theorem is about,
      except that the text of a call must have a length that fits 32 bits. */
  lemma DirectArguments(space: nat, index: nat, limit: nat, offset: nat, iter: nat, tp: nat,
                        text: seq<byte>, a: seq<byte>, b: seq<byte>)
    requires space < U32 && index < U32 && limit < U32 && offset < U32 && iter < U32
    requires IsArray(a) && IsArray(b) && HasText(tp)
    ensures FieldsOk(SelectFields(space, index, limit, offset, iter, a))
      && Sound(SelectFields(space, index, limit, offset, iter, a))
    ensures FieldsOk(StoreFields(OP_INSERT, space, a)) && Sound(StoreFields(OP_INSERT, space, a))
    ensures FieldsOk(StoreFields(OP_REPLACE, space, a)) && Sound(StoreFields(OP_REPLACE, space, a))
    ensures FieldsOk(DeleteFields(space, index, a)) && Sound(DeleteFields(space, index, a))
    ensures FieldsOk(UpdateFields(space, index, a, b)) && Sound(UpdateFields(space, index, a, b))
    ensures FieldsOk(RpcFields(tp, text, a))
    ensures Sound(RpcFields(tp, text, a)) <==> |text| < U32
  {
    OneArray(a);
    OneArray(b);
  }

  lemma OneArray(a: seq<byte>)
    requires IsArray(a)
    ensures OneValue(a)
  {
  }

  // ----- the direct upsert -----

  lemma {:induction false} DecodeAllShort(s: seq<byte>, n: nat, m: nat)
    requires DecodeAll(s, n).Got? && DecodeAll(DecodeAll(s, n).rest, m).Bad?
    ensures DecodeAll(s, n + m).Bad?
    decreases n
  {
    if n > 0 {
      DecodeAllShort(Decode(s).rest, n - 1, m);
    }
  }

  /** No direct upsert can be read: it announces one pair more than it writes. */
  lemma UpsertUnreadable(space: nat, tuple: seq<byte>, ops: seq<byte>)
    requires space < U32 && IsArray(tuple) && IsArray(ops)
    ensures Decode(UpsertBody(space, tuple, ops)) == Bad
    ensures ReadMap(UpsertBody(space, tuple, ops)) == None
  {
    hide PairsBytes, UIntBytes, ContainerHead, IsArray;
    var ps := UpsertPairs(space, tuple, ops);
    var es := WhenEntry(true, SPACE, UInt(space)) + [Entry(TUPLE, RawValue(tuple))] + [Entry(OPS, RawValue(ops))];
    UpsertReads(space, tuple, ops, ps, es);
    PairsDecode(ps, es, []);
    assert PairsBytes(ps) + [] == PairsBytes(ps);
    NothingLeft();
    DecodeAllShort(PairsBytes(ps), 6, 2);
    ReadContainerHead(Shortest, MapKind, 4, PairsBytes(ps));
  }

  /** So a reader finds no message in the frame of a direct upsert. */
  lemma UpsertFrameUnreadable(space: nat, tuple: seq<byte>, ops: seq<byte>, sync: nat, t: seq<byte>)
    requires space < U32 && IsArray(tuple) && IsArray(ops) && sync < U64
    requires |HeaderBytes(OP_UPSERT, sync) + UpsertBody(space, tuple, ops)| < U64
    ensures var p := HeaderBytes(OP_UPSERT, sync) + UpsertBody(space, tuple, ops);
      ReadFrame(LUInt(|p|) + p + t) == None
  {
    hide ReadToken, ReadMap, HeaderBytes, UpsertBody, LUInt, IsArray;
    var body := UpsertBody(space, tuple, ops);
    var p := HeaderBytes(OP_UPSERT, sync) + body;
    UpsertUnreadable(space, tuple, ops);
    assert LUInt(|p|) + p + t == LUInt(|p|) + (p + t);
    PrefixReads(|p|, p + t);
    assert (p + t)[..|p|] == p;
    HeaderReads(OP_UPSERT, sync, body);
  }

  lemma NothingLeft()
    ensures DecodeAll([], 2) == Bad
  {
    assert Decode([]) == Bad;
  }

  lemma UpsertReads(space: nat, tuple: seq<byte>, ops: seq<byte>, ps: seq<Pair>, es: seq<Entry>)
    requires space < U32 && IsArray(tuple) && IsArray(ops)
    requires ps == UpsertPairs(space, tuple, ops)
    requires es == WhenEntry(true, SPACE, UInt(space)) + [Entry(TUPLE, RawValue(tuple))] + [Entry(OPS, RawValue(ops))]
    ensures ReadsAll(ps, es) && |ps| == 3
  {
    hide Decode, RawValue, UIntBytes, IsArray;
    OneArray(tuple);
    OneArray(ops);
    ReadsWhen(true, SPACE, space);
    RawReads(TUPLE, tuple);
    RawReads(OPS, ops);
  }
}
