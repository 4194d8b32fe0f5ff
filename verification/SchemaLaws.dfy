/**
 * The schema as two plain maps: what spaces and indexes are called, against
 * the one hash that keeps names and numbers together.
 */
module SchemaLaws {
  import opened Bytes
  import opened MsgPack
  import opened MsgPackLaws
  import opened ReplySpec
  import opened SchemaSpec
  import ReplyLaws

  // ----- runs of rows -----

  /** Puts rows until one fails. */
  function PutAll(st: Store, rows: seq<Row>): (x: (Store, bool))
    requires Sound(st)
    ensures Sound(x.0)
    decreases |rows|
  {
    if rows == [] then (st, true)
    else match Put(st, rows[0])
      case None => (st, false)
      case Some(st') => PutAll(st', rows[1..])
  }

  /** Two plain maps: name to number, and for every known space number its indexes
      by name. Adding a space again makes it forget its indexes. */
  datatype Plain = Plain(names: map<seq<byte>, nat>, indexes: map<nat, map<seq<byte>, nat>>)

  const EMPTY_PLAIN := Plain(map[], map[])

  function PlainPut(p: Plain, row: Row): Option<Plain> {
    match row
    case SpaceRow(number, name) => Some(Plain(p.names[name := number], p.indexes[number := map[]]))
    case IndexRow(space, number, name) =>
      if space in p.indexes then
        var index: map<seq<byte>, nat> := p.indexes[space][name := number];
        Some(p.(indexes := p.indexes[space := index]))
      else None
  }

  function PlainPutAll(p: Plain, rows: seq<Row>): (Plain, bool)
    decreases |rows|
  {
    if rows == [] then (p, true)
    else match PlainPut(p, rows[0])
      case None => (p, false)
      case Some(p') => PlainPutAll(p', rows[1..])
  }

  // ----- names and numbers share the hash -----

  predicate NumbersOk(rows: seq<Row>) {
    forall i | 0 <= i < |rows| :: rows[i].number < U32 && (rows[i].IndexRow? ==> rows[i].space < U32)
  }

  /** q is not the memory of a space number. */
  predicate NameFree(rows: seq<Row>, q: seq<byte>) {
    forall i | 0 <= i < |rows| && rows[i].SpaceRow? :: Native(rows[i].number) != q
  }

  /** The memory of n is not the name of a space. */
  predicate NumberFree(rows: seq<Row>, n: nat) {
    forall i | 0 <= i < |rows| && rows[i].SpaceRow? :: rows[i].name != Native(n)
  }

  /** q is not the memory of an index number of space n. */
  predicate IndexFree(rows: seq<Row>, n: nat, q: seq<byte>) {
    forall i | 0 <= i < |rows| && rows[i].IndexRow? && rows[i].space == n :: Native(rows[i].number) != q
  }

  /** No index belongs to a space number whose memory is the name of a space. */
  predicate IndexesFree(rows: seq<Row>) {
    forall i | 0 <= i < |rows| && rows[i].IndexRow? :: NumberFree(rows, rows[i].space)
  }

  lemma NativeInjective(a: nat, b: nat)
    requires a < U32 && b < U32 && Native(a) == Native(b)
    ensures a == b
  {
    hide Native, FromNative;
    FromNativeOfNative(a);
    FromNativeOfNative(b);
  }

  // ----- what the hash and the maps agree on -----

  predicate NameAgrees(st: Store, p: Plain, q: seq<byte>)
    requires Sound(st)
  {
    (q in st.hash <==> q in p.names) && (q in p.names ==> st.spaces[st.hash[q]].number == p.names[q])
  }

  predicate IndexAgrees(index: map<seq<byte>, Index>, names: map<seq<byte>, nat>, q: seq<byte>) {
    (q in index <==> q in names) && (q in names ==> index[q].number == names[q])
  }

  /** The object under the number n is a space with that number and the indexes the
      maps tell. */
  ghost predicate NumberAgrees(rows: seq<Row>, st: Store, p: Plain, n: nat)
    requires Sound(st)
  {
    && (Native(n) in st.hash <==> n in p.indexes)
    && (n in p.indexes ==>
          var s := st.spaces[st.hash[Native(n)]];
          && s.number == n
          && forall q | IndexFree(rows, n, q) :: IndexAgrees(s.index, p.indexes[n], q))
  }

  ghost predicate Agrees(rows: seq<Row>, st: Store, p: Plain) {
    && Sound(st)
    && (forall q | NameFree(rows, q) :: NameAgrees(st, p, q))
    && (forall n: nat | n < U32 && NumberFree(rows, n) :: NumberAgrees(rows, st, p, n))
  }

  lemma SpaceKeepsNumber(rows: seq<Row>, st: Store, p: Plain, row: Row, n: nat)
    requires Sound(st) && row.SpaceRow? && row.number < U32 && n < U32
    requires row.name != Native(n) && NumberAgrees(rows, st, p, n)
    ensures NumberAgrees(rows, Put(st, row).value, PlainPut(p, row).value, n)
  {
    hide Native, IndexFree;
    if Native(n) == Native(row.number) {
      NativeInjective(n, row.number);
    }
  }

  lemma IndexKeepsNumber(rows: seq<Row>, st: Store, p: Plain, row: Row, n: nat)
    requires Sound(st) && row.IndexRow? && row.space < U32 && n < U32 && row in rows
    requires NumberAgrees(rows, st, p, n) && NumberAgrees(rows, st, p, row.space) && row.space in p.indexes
    ensures Put(st, row).Some? && PlainPut(p, row).Some?
    ensures NumberAgrees(rows, Put(st, row).value, PlainPut(p, row).value, n)
  {
    hide Native;
  }

  lemma StepAgrees(rows: seq<Row>, st: Store, p: Plain, row: Row)
    requires Agrees(rows, st, p) && NumbersOk(rows) && IndexesFree(rows) && row in rows
    ensures match Put(st, row)
      case None => PlainPut(p, row).None?
      case Some(st') => PlainPut(p, row).Some? && Agrees(rows, st', PlainPut(p, row).value)
  {
    hide Native, NumberAgrees, NameFree, NumberFree;
    RowIn(rows, row);
    if row.SpaceRow? {
      var st', p' := Put(st, row).value, PlainPut(p, row).value;
      forall n: nat | n < U32 && NumberFree(rows, n)
        ensures NumberAgrees(rows, st', p', n)
      {
        RowFree(rows, row, n);
        SpaceKeepsNumber(rows, st, p, row, n);
      }
      forall q | NameFree(rows, q)
        ensures NameAgrees(st', p', q)
      {
        NameNotNumber(rows, row, q);
      }
    } else {
      NumberKnown(rows, st, p, row.space);
      if row.space in p.indexes {
        IndexKeepsNumber(rows, st, p, row, row.space);
        var st', p' := Put(st, row).value, PlainPut(p, row).value;
        forall n: nat | n < U32 && NumberFree(rows, n)
          ensures NumberAgrees(rows, st', p', n)
        {
          IndexKeepsNumber(rows, st, p, row, n);
        }
        forall q | NameFree(rows, q)
          ensures NameAgrees(st', p', q)
        {
          assert NameAgrees(st, p, q);
        }
      }
    }
  }

  lemma RowIn(rows: seq<Row>, row: Row)
    requires row in rows && NumbersOk(rows) && IndexesFree(rows)
    ensures row.number < U32 && (row.IndexRow? ==> row.space < U32 && NumberFree(rows, row.space))
  {
  }

  lemma RowFree(rows: seq<Row>, row: Row, n: nat)
    requires row in rows && row.SpaceRow? && NumberFree(rows, n)
    ensures row.name != Native(n)
  {
  }

  lemma NameNotNumber(rows: seq<Row>, row: Row, q: seq<byte>)
    requires row in rows && row.SpaceRow? && NameFree(rows, q)
    ensures Native(row.number) != q
  {
  }

  lemma NumberKnown(rows: seq<Row>, st: Store, p: Plain, n: nat)
    requires Sound(st) && NumberAgrees(rows, st, p, n)
    ensures Native(n) in st.hash <==> n in p.indexes
  {
  }

  lemma AgreesIsSound(rows: seq<Row>, st: Store, p: Plain)
    requires Agrees(rows, st, p)
    ensures Sound(st)
  {
  }

  lemma {:induction false} RunAgrees(rows: seq<Row>, st: Store, p: Plain, k: nat)
    requires Agrees(rows, st, p) && NumbersOk(rows) && IndexesFree(rows) && k <= |rows|
    ensures var x, y := PutAll(st, rows[k..]), PlainPutAll(p, rows[k..]);
      x.1 == y.1 && Agrees(rows, x.0, y.0)
    decreases |rows| - k
  {
    hide Agrees, Put, PlainPut, NumbersOk, IndexesFree;
    if k < |rows| {
      assert rows[k..][0] == rows[k] && rows[k..][1..] == rows[k + 1..];
      StepAgrees(rows, st, p, rows[k]);
      AgreesIsSound(rows, st, p);
      match Put(st, rows[k])
      case Some(st') => RunAgrees(rows, st', PlainPut(p, rows[k]).value, k + 1);
      case None =>
    }
  }

  function PlainSid(p: Plain, name: seq<byte>): int {
    if name in p.names then Int32(p.names[name]) else -1
  }

  function PlainIid(p: Plain, sid: nat, name: seq<byte>): int {
    if sid in p.indexes && name in p.indexes[sid] then Int32(p.indexes[sid][name]) else -1
  }

  /** The schema agrees with the two maps after every run of rows, in any order and
      mixture: it stops at the same row, finds the same space under every name that is
      not the memory of a space number, and the same index under every name that is
      not the memory of an index number of its space. */
  lemma SchemaIsTwoMaps(rows: seq<Row>)
    requires NumbersOk(rows) && IndexesFree(rows)
    ensures PutAll(EMPTY_STORE, rows).1 == PlainPutAll(EMPTY_PLAIN, rows).1
    ensures var st, p := PutAll(EMPTY_STORE, rows).0, PlainPutAll(EMPTY_PLAIN, rows).0;
      && (forall q | NameFree(rows, q) :: Stosid(st, q) == PlainSid(p, q))
      && (forall sid: nat, q | sid < U32 && NumberFree(rows, sid) && IndexFree(rows, sid, q) ::
            Stoiid(st, sid, q) == PlainIid(p, sid, q))
  {
    hide Native, NameFree, NumberFree, IndexFree, IndexesFree, NumbersOk, PutAll, PlainPutAll;
    assert rows[0..] == rows;
    assert Agrees(rows, EMPTY_STORE, EMPTY_PLAIN);
    RunAgrees(rows, EMPTY_STORE, EMPTY_PLAIN, 0);
    var st, p := PutAll(EMPTY_STORE, rows).0, PlainPutAll(EMPTY_PLAIN, rows).0;
    forall sid: nat, q | sid < U32 && NumberFree(rows, sid) && IndexFree(rows, sid, q)
      ensures Stoiid(st, sid, q) == PlainIid(p, sid, q)
    {
      assert NumberAgrees(rows, st, p, sid);
    }
    forall q | NameFree(rows, q)
      ensures Stosid(st, q) == PlainSid(p, q)
    {
      assert NameAgrees(st, p, q);
    }
  }

  /** A number comes back as it is exactly if it is below 2^31; the highest number
      comes back as the answer for an unknown name. */
  lemma SignedAnswer(n: nat)
    requires n < U32
    ensures Int32(n) == n <==> n < 0x8000_0000
    ensures Int32(n) == -1 <==> n == U32 - 1
    ensures n >= 0x8000_0000 ==> Int32(n) == n - 0x1_0000_0000
  {
  }

  // ----- the exact answer, names like numbers included -----

  /** The last space that is called q, or whose number looks like q in memory. */
  function LastMatch(rows: seq<Row>, q: seq<byte>): Option<nat> {
    var n := |rows| - 1;
    if rows == [] then None
    else if rows[n].SpaceRow? && (rows[n].name == q || Native(rows[n].number) == q) then Some(rows[n].number)
    else LastMatch(rows[..n], q)
  }

  function LastNamed(rows: seq<Row>, q: seq<byte>): Option<nat> {
    var n := |rows| - 1;
    if rows == [] then None
    else if rows[n].SpaceRow? && rows[n].name == q then Some(rows[n].number)
    else LastNamed(rows[..n], q)
  }

  function SidOf(m: Option<nat>): int {
    match m
    case Some(number) => Int32(number)
    case None => -1
  }

  lemma {:induction false} PutAllSnoc(st: Store, rows: seq<Row>, row: Row)
    requires Sound(st) && PutAll(st, rows).1
    ensures PutAll(st, rows + [row])
         == match Put(PutAll(st, rows).0, row)
            case Some(st') => (st', true)
            case None => (PutAll(st, rows).0, false)
    decreases |rows|
  {
    hide Put;
    if rows == [] {
      assert (rows + [row])[1..] == [];
    } else {
      assert (rows + [row])[0] == rows[0] && (rows + [row])[1..] == rows[1..] + [row];
      match Put(st, rows[0])
      case Some(st') => PutAllSnoc(st', rows[1..], row);
      case None =>
    }
  }

  lemma {:induction false} PutAllPrefix(st: Store, rows: seq<Row>, row: Row)
    requires Sound(st) && PutAll(st, rows + [row]).1
    ensures PutAll(st, rows).1
    decreases |rows|
  {
    hide Put;
    if rows != [] {
      assert (rows + [row])[0] == rows[0] && (rows + [row])[1..] == rows[1..] + [row];
      match Put(st, rows[0])
      case Some(st') => PutAllPrefix(st', rows[1..], row);
      case None =>
    }
  }

  lemma PutNothing(st: Store)
    requires Sound(st)
    ensures PutAll(st, []) == (st, true)
  {
  }

  /** With no condition on names: a complete run answers with the last space that is
      called q or whose number has the bytes q. */
  lemma StosidExact(rows: seq<Row>, q: seq<byte>)
    requires NumbersOk(rows) && PutAll(EMPTY_STORE, rows).1
    ensures Stosid(PutAll(EMPTY_STORE, rows).0, q) == SidOf(LastMatch(rows, q))
    ensures q in PutAll(EMPTY_STORE, rows).0.hash <==> LastMatch(rows, q).Some?
  {
    hide PutAll, LastMatch;
    StosidOver(EMPTY_STORE, rows, q);
  }

  /** The number of the last space whose number looks like q, unless it or a later one
      is called q. */
  function ShadowedBy(rows: seq<Row>, q: seq<byte>): Option<nat> {
    var n := |rows| - 1;
    if rows == [] || (rows[n].SpaceRow? && rows[n].name == q) then None
    else if rows[n].SpaceRow? && Native(rows[n].number) == q then Some(rows[n].number)
    else ShadowedBy(rows[..n], q)
  }

  lemma {:induction false} MatchOrShadow(rows: seq<Row>, q: seq<byte>)
    ensures LastMatch(rows, q) == if ShadowedBy(rows, q).Some? then ShadowedBy(rows, q) else LastNamed(rows, q)
  {
    hide Native;
    if rows != [] {
      MatchOrShadow(rows[..|rows| - 1], q);
    }
  }

  /** The answer is the number of the last space called q, exactly unless that space
      is shadowed by another number. */
  lemma StosidAgrees(rows: seq<Row>, q: seq<byte>)
    requires NumbersOk(rows) && PutAll(EMPTY_STORE, rows).1
    ensures Stosid(PutAll(EMPTY_STORE, rows).0, q) == SidOf(LastNamed(rows, q))
            <==> (ShadowedBy(rows, q).Some? ==> SidOf(ShadowedBy(rows, q)) == SidOf(LastNamed(rows, q)))
  {
    hide PutAll, Stosid, LastMatch, LastNamed, ShadowedBy;
    StosidExact(rows, q);
    MatchOrShadow(rows, q);
  }

  /** A space whose name is four bytes long can be found under the name of another:
      space 1 answers for the space called "\x01\0\0\0", whose number is 2. */
  lemma NamesClash()
    ensures var rows := [SpaceRow(2, [1, 0, 0, 0]), SpaceRow(1, [97])];
      && NumbersOk(rows) && PutAll(EMPTY_STORE, rows).1
      && Stosid(PutAll(EMPTY_STORE, rows).0, [1, 0, 0, 0]) == 1
      && PlainSid(PlainPutAll(EMPTY_PLAIN, rows).0, [1, 0, 0, 0]) == 2
  {
    var rows := [SpaceRow(2, [1, 0, 0, 0]), SpaceRow(1, [97])];
    assert rows[1..] == [rows[1]] && rows[1..][1..] == [];
    assert PutAll(EMPTY_STORE, rows) == PutAll(Put(EMPTY_STORE, rows[0]).value, rows[1..]);
    assert PlainPutAll(EMPTY_PLAIN, rows) == PlainPutAll(PlainPut(EMPTY_PLAIN, rows[0]).value, rows[1..]);
    assert Native(1) == [1, 0, 0, 0];
  }

  // ----- rows from values -----

  /** The row a tuple stands for; None if it is none. */
  function RowOf(v: Value, ofIndexes: bool): Option<Row> {
    if !(v.Node? && v.kind.ArrayKind? && |v.items| >= 3 && v.items[0].UInt? && v.items[2].Str?) then None
    else if !ofIndexes then Some(SpaceRow(v.items[0].n % U32, v.items[2].raw))
    else if v.items[1].UInt? then Some(IndexRow(v.items[0].n % U32, v.items[1].n % U32, v.items[2].raw))
    else None
  }

  /** A tuple has at least the three fields that are read, and one of indexes starts
      with a number. */
  predicate Regular(v: Value, ofIndexes: bool) {
    v.Node? && v.kind.ArrayKind? ==> |v.items| >= 3 && (ofIndexes ==> v.items[0].UInt?)
  }

  /** The result of putting one tuple. */
  function PutTuple(st: Store, v: Value, ofIndexes: bool): (r: Option<Store>)
    requires Sound(st)
    ensures r.Some? ==> Sound(r.value)
  {
    match RowOf(v, ofIndexes)
    case Some(row) => Put(st, row)
    case None => None
  }

  function PutTuples(st: Store, vs: seq<Value>, ofIndexes: bool): (x: (Store, bool))
    requires Sound(st)
    ensures Sound(x.0)
    decreases |vs|
  {
    if vs == [] then (st, true)
    else match PutTuple(st, vs[0], ofIndexes)
      case None => (st, false)
      case Some(st') => PutTuples(st', vs[1..], ofIndexes)
  }

  lemma Opened(s: seq<byte>)
    requires Decode(s).Got? && Decode(s).val.Node? && Decode(s).val.kind.ArrayKind?
    ensures ReadToken(s).Got?
    ensures var items := Decode(s).val.items;
      DecodeAll(ReadToken(s).rest, |items|) == Got(items, Decode(s).rest)
  {
    hide DecodeAll;
  }

  /** What the parser sees of three values in a row. */
  lemma Three(t: seq<byte>, k: nat)
    requires k >= 3 && DecodeAll(t, k).Got?
    ensures var items := DecodeAll(t, k).val;
      && t != [] && Decode(t).Got? && Decode(t).val == items[0] && TypeOf(t[0]) == ValueType(items[0])
    ensures var items, u := DecodeAll(t, k).val, Decode(t).rest;
      && u != [] && Decode(u).Got? && Decode(u).val == items[1] && TypeOf(u[0]) == ValueType(items[1])
    ensures var items, v := DecodeAll(t, k).val, Decode(Decode(t).rest).rest;
      && v != [] && Decode(v).Got? && Decode(v).val == items[2] && TypeOf(v[0]) == ValueType(items[2])
  {
    hide ReadToken, TypeOf;
    var items, end := DecodeAll(t, k).val, DecodeAll(t, k).rest;
    ReplyLaws.PairSplit(t, k, items, end);
    var v := Decode(Decode(t).rest).rest;
    assert DecodeAll(v, k - 2) == Got(items[2..], end);
    TypeOfTag(v);
  }

  /** The parser's step over the bytes of a tuple is the step over its value. */
  lemma SpaceStep(st: Store, s: seq<byte>)
    requires Sound(st) && Decode(s).Got? && Regular(Decode(s).val, false)
    ensures SpaceFrom(st, s) == match PutTuple(st, Decode(s).val, false)
      case Some(st') => Done(st')
      case None => Refused
  {
    hide Decode, DecodeAll, TypeOf, ReadToken, Native;
    TypeOfTag(s);
    DecodeNonEmpty(s);
    var v := Decode(s).val;
    if v.Node? && v.kind.ArrayKind? {
      Opened(s);
      Three(ReadToken(s).rest, |v.items|);
    }
  }

  lemma IndexStep(st: Store, s: seq<byte>)
    requires Sound(st) && Decode(s).Got? && Regular(Decode(s).val, true)
    ensures IndexFrom(st, s) == match PutTuple(st, Decode(s).val, true)
      case Some(st') => Done(st')
      case None => Refused
  {
    hide Decode, DecodeAll, TypeOf, ReadToken, Native;
    TypeOfTag(s);
    DecodeNonEmpty(s);
    var v := Decode(s).val;
    if v.Node? && v.kind.ArrayKind? {
      Opened(s);
      Three(ReadToken(s).rest, |v.items|);
    }
  }

  lemma DecodeNonEmpty(s: seq<byte>)
    requires Decode(s).Got?
    ensures s != []
  {
  }

  lemma {:induction false} RowsAreTuples(st: Store, s: seq<byte>, vs: seq<Value>, t: seq<byte>, ofIndexes: bool)
    requires Sound(st) && DecodeAll(s, |vs|) == Got(vs, t)
    requires forall i | 0 <= i < |vs| :: Regular(vs[i], ofIndexes)
    ensures LoadRows(st, s, |vs|, ofIndexes)
         == Loaded(PutTuples(st, vs, ofIndexes).0, PutTuples(st, vs, ofIndexes).1)
    decreases |vs|
  {
    hide Regular, PutTuple, SpaceFrom, IndexFrom;
    if vs != [] {
      assert Decode(s).val == vs[0] && DecodeAll(Decode(s).rest, |vs| - 1) == Got(vs[1..], t);
      if ofIndexes { IndexStep(st, s); } else { SpaceStep(st, s); }
      match PutTuple(st, vs[0], ofIndexes)
      case Some(st') => RowsAreTuples(st', Decode(s).rest, vs[1..], t, ofIndexes);
      case None =>
    }
  }

  /** A reply's tuples, encoded in any way, go into the schema one after another, up
      to the first that does not fit. */
  lemma ReplyLoads(st: Store, data: seq<byte>, vs: seq<Value>, rest: seq<byte>, ofIndexes: bool)
    requires Sound(st) && Decode(data) == Got(Node(ArrayKind, vs), rest)
    requires forall i | 0 <= i < |vs| :: Regular(vs[i], ofIndexes)
    ensures LoadReply(st, Some(data), ofIndexes)
         == Loaded(PutTuples(st, vs, ofIndexes).0, PutTuples(st, vs, ofIndexes).1)
  {
    hide DecodeAll, LoadRows, PutTuples, Regular, TypeOf;
    TypeOfTag(data);
    DecodeNonEmpty(data);
    Opened(data);
    RowsAreTuples(st, OpenArray(data).rest, vs, rest, ofIndexes);
  }

  /** The rows of a reply: those of the tuples before the first that is none. */
  function RowsOf(vs: seq<Value>, ofIndexes: bool): (rows: seq<Row>)
    ensures |rows| <= |vs|
    decreases |vs|
  {
    if vs == [] || RowOf(vs[0], ofIndexes).None? then []
    else [RowOf(vs[0], ofIndexes).value] + RowsOf(vs[1..], ofIndexes)
  }

  lemma {:induction false} RowsOfKind(vs: seq<Value>, ofIndexes: bool)
    ensures NumbersOk(RowsOf(vs, ofIndexes))
    ensures forall i | 0 <= i < |RowsOf(vs, ofIndexes)| :: RowsOf(vs, ofIndexes)[i].IndexRow? <==> ofIndexes
    decreases |vs|
  {
    if vs != [] && RowOf(vs[0], ofIndexes).Some? {
      RowsOfKind(vs[1..], ofIndexes);
    }
  }

  /** Putting tuples is putting their rows. */
  lemma {:induction false} TuplesAreRows(st: Store, vs: seq<Value>, ofIndexes: bool)
    requires Sound(st)
    ensures var rows := RowsOf(vs, ofIndexes);
      PutTuples(st, vs, ofIndexes) == (PutAll(st, rows).0, PutAll(st, rows).1 && |rows| == |vs|)
    decreases |vs|
  {
    hide Put, RowOf;
    if vs != [] && RowOf(vs[0], ofIndexes).Some? {
      var row := RowOf(vs[0], ofIndexes).value;
      var rows := RowsOf(vs, ofIndexes);
      assert rows[0] == row && rows[1..] == RowsOf(vs[1..], ofIndexes);
      match Put(st, row)
      case Some(st') => TuplesAreRows(st', vs[1..], ofIndexes);
      case None =>
    }
  }

  lemma {:induction false} PutAllConcat(st: Store, a: seq<Row>, b: seq<Row>)
    requires Sound(st) && PutAll(st, a).1
    ensures PutAll(st, a + b) == PutAll(PutAll(st, a).0, b)
    decreases |a|
  {
    hide Put;
    if a == [] {
      assert a + b == b;
    } else {
      assert (a + b)[0] == a[0] && (a + b)[1..] == a[1..] + b;
      PutAllConcat(Put(st, a[0]).value, a[1..], b);
    }
  }

  lemma {:induction false} SpacesComplete(st: Store, rows: seq<Row>)
    requires Sound(st) && forall i | 0 <= i < |rows| :: rows[i].SpaceRow?
    ensures PutAll(st, rows).1
    decreases |rows|
  {
    hide PutSpace;
    if rows != [] {
      SpacesComplete(Put(st, rows[0]).value, rows[1..]);
    }
  }

  /** The schema after the tuples of a reply with spaces and one with indexes. */
  function LoadBoth(st: Store, vs: seq<Value>, ws: seq<Value>): (st': Store)
    requires Sound(st)
    ensures Sound(st')
  {
    PutTuples(PutTuples(st, vs, false).0, ws, true).0
  }

  lemma BothAreRows(st: Store, vs: seq<Value>, ws: seq<Value>)
    requires Sound(st)
    ensures LoadBoth(st, vs, ws) == PutAll(st, RowsOf(vs, false) + RowsOf(ws, true)).0
    ensures PutAll(st, RowsOf(vs, false)).1 && PutTuples(st, vs, false).0 == PutAll(st, RowsOf(vs, false)).0
  {
    hide PutAll, PutTuples, RowsOf;
    var a, b := RowsOf(vs, false), RowsOf(ws, true);
    TuplesAreRows(st, vs, false);
    RowsOfKind(vs, false);
    SpacesComplete(st, a);
    TuplesAreRows(PutAll(st, a).0, ws, true);
    PutAllConcat(st, a, b);
  }

  /** A reply with spaces and one with indexes, in any encoding and with tuples that
      may be malformed, load as two plain maps of the rows of both. */
  lemma RepliesAreTwoMaps(spaces: seq<byte>, indexes: seq<byte>, vs: seq<Value>, ws: seq<Value>)
    requires Decode(spaces) == Got(Node(ArrayKind, vs), []) && Decode(indexes) == Got(Node(ArrayKind, ws), [])
    requires forall i | 0 <= i < |vs| :: Regular(vs[i], false)
    requires forall i | 0 <= i < |ws| :: Regular(ws[i], true)
    requires IndexesFree(RowsOf(vs, false) + RowsOf(ws, true))
    ensures LoadReply(EMPTY_STORE, Some(spaces), false).Loaded?
    ensures var st := LoadReply(EMPTY_STORE, Some(spaces), false).st;
      LoadReply(st, Some(indexes), true).Loaded?
      && LoadReply(st, Some(indexes), true).st == LoadBoth(EMPTY_STORE, vs, ws)
    ensures var rows := RowsOf(vs, false) + RowsOf(ws, true);
      var st, p := LoadBoth(EMPTY_STORE, vs, ws), PlainPutAll(EMPTY_PLAIN, rows).0;
      && (forall q | NameFree(rows, q) :: Stosid(st, q) == PlainSid(p, q))
      && (forall sid: nat, q | sid < U32 && NumberFree(rows, sid) && IndexFree(rows, sid, q) ::
            Stoiid(st, sid, q) == PlainIid(p, sid, q))
  {
    hide Decode, LoadReply, PutTuples, PutAll, PlainPutAll, RowsOf, Regular, IndexesFree, NameFree, NumberFree, IndexFree;
    ReplyLoads(EMPTY_STORE, spaces, vs, [], false);
    ReplyLoads(PutTuples(EMPTY_STORE, vs, false).0, indexes, ws, [], true);
    BothAreRows(EMPTY_STORE, vs, ws);
    RowsOfKind(vs, false);
    RowsOfKind(ws, true);
    NumbersJoin(RowsOf(vs, false), RowsOf(ws, true));
    SchemaIsTwoMaps(RowsOf(vs, false) + RowsOf(ws, true));
  }

  lemma NumbersJoin(a: seq<Row>, b: seq<Row>)
    requires NumbersOk(a) && NumbersOk(b)
    ensures NumbersOk(a + b)
  {
  }

  // ----- loading over an old schema -----

  /** A run that fails is the complete run of the rows before the one that does. */
  lemma {:induction false} TakenPart(st: Store, rows: seq<Row>) returns (k: nat)
    requires Sound(st)
    ensures k <= |rows| && PutAll(st, rows[..k]) == (PutAll(st, rows).0, true)
    ensures k == |rows| <==> PutAll(st, rows).1
    decreases |rows|
  {
    hide Put;
    k := 0;
    if rows != [] {
      match Put(st, rows[0])
      case Some(st') =>
        var m := TakenPart(st', rows[1..]);
        k := 1 + m;
        assert rows[..k][0] == rows[0] && rows[..k][1..] == rows[1..][..m];
      case None =>
    }
  }

  /** Any rows over any old schema: a name finds the last new space that has it, or
      whose number has its bytes, and what it found before if there is none. */
  lemma {:induction false} StosidOver(st: Store, rows: seq<Row>, q: seq<byte>)
    requires Sound(st) && NumbersOk(rows) && PutAll(st, rows).1
    ensures Stosid(PutAll(st, rows).0, q)
         == if LastMatch(rows, q).Some? then SidOf(LastMatch(rows, q)) else Stosid(st, q)
    ensures q in PutAll(st, rows).0.hash <==> LastMatch(rows, q).Some? || q in st.hash
    decreases |rows|
  {
    hide Native, PutAll;
    if rows == [] {
      PutNothing(st);
    } else {
      var n := |rows| - 1;
      assert rows[..n] + [rows[n]] == rows;
      PutAllPrefix(st, rows[..n], rows[n]);
      PutAllSnoc(st, rows[..n], rows[n]);
      StosidOver(st, rows[..n], q);
    }
  }

  /** The load deletes the old schema as far as a name can tell, if and only if the name
      is matched anew or was unknown. */
  lemma NameForgotten(st: Store, rows: seq<Row>, q: seq<byte>)
    requires Sound(st) && NumbersOk(rows) && PutAll(st, rows).1 && PutAll(EMPTY_STORE, rows).1
    ensures Stosid(PutAll(st, rows).0, q) == Stosid(PutAll(EMPTY_STORE, rows).0, q)
            <==> LastMatch(rows, q).Some? || Stosid(st, q) == -1
  {
    hide PutAll, LastMatch;
    StosidOver(st, rows, q);
    StosidOver(EMPTY_STORE, rows, q);
  }

  /** Beside the old store st0, what b holds is what a holds. */
  ghost predicate Over(st0: Store, a: Store, b: Store) {
    && Sound(a) && Sound(b)
    && b.spaces == st0.spaces + a.spaces
    && (forall k | k in a.hash :: k in b.hash && b.hash[k] == |st0.spaces| + a.hash[k])
    && (forall k | k !in a.hash :: (k in b.hash <==> k in st0.hash) && (k in b.hash ==> b.hash[k] == st0.hash[k]))
  }

  lemma OverStep(st0: Store, a: Store, b: Store, row: Row)
    requires Sound(st0) && Over(st0, a, b) && Put(a, row).Some?
    ensures Put(b, row).Some? && Over(st0, Put(a, row).value, Put(b, row).value)
  {
    hide Native;
    if row.IndexRow? {
      var i := a.hash[Native(row.space)];
      assert b.spaces[|st0.spaces| + i] == a.spaces[i];
    }
  }

  /** A load that completes on its own completes over any old schema, and leaves both
      side by side. */
  lemma {:induction false} LoadOver(st0: Store, a: Store, b: Store, rows: seq<Row>)
    requires Sound(st0) && Over(st0, a, b) && PutAll(a, rows).1
    ensures PutAll(b, rows).1 && Over(st0, PutAll(a, rows).0, PutAll(b, rows).0)
    decreases |rows|
  {
    hide Over, Put;
    OverIsSound(st0, a, b);
    if rows != [] {
      OverStep(st0, a, b, rows[0]);
      LoadOver(st0, Put(a, rows[0]).value, Put(b, rows[0]).value, rows[1..]);
    }
  }

  lemma OverIsSound(st0: Store, a: Store, b: Store)
    requires Over(st0, a, b)
    ensures Sound(a) && Sound(b)
  {
  }

  lemma OverStart(st0: Store)
    requires Sound(st0)
    ensures Over(st0, EMPTY_STORE, st0)
  {
    assert st0.spaces + [] == st0.spaces;
  }

  /** An index is looked up in the new space of that number if there is one, and in the
      old one, with its old indexes, if not. */
  lemma StoiidOver(st: Store, rows: seq<Row>, sid: nat, q: seq<byte>)
    requires Sound(st) && NumbersOk(rows) && PutAll(EMPTY_STORE, rows).1
    ensures PutAll(st, rows).1
    ensures Stoiid(PutAll(st, rows).0, sid, q)
         == if LastMatch(rows, Native(sid)).Some? then Stoiid(PutAll(EMPTY_STORE, rows).0, sid, q)
            else Stoiid(st, sid, q)
  {
    hide Native, PutAll, LastMatch;
    OverStart(st);
    LoadOver(st, EMPTY_STORE, st, rows);
    StosidOver(EMPTY_STORE, rows, Native(sid));
  }

  /** So its old answer is gone if and only if the number is matched anew or there was
      none. */
  lemma IndexForgotten(st: Store, rows: seq<Row>, sid: nat, q: seq<byte>)
    requires Sound(st) && NumbersOk(rows) && PutAll(EMPTY_STORE, rows).1
    ensures Stoiid(PutAll(st, rows).0, sid, q) == Stoiid(PutAll(EMPTY_STORE, rows).0, sid, q)
            <==> LastMatch(rows, Native(sid)).Some? || Stoiid(st, sid, q) == -1
  {
    hide Native, PutAll, LastMatch;
    StoiidOver(st, rows, sid, q);
    StoiidOver(EMPTY_STORE, rows, sid, q);
  }

  /** Rows of indexes match no name. */
  lemma {:induction false} IndexesMatchNothing(a: seq<Row>, b: seq<Row>, q: seq<byte>)
    requires forall i | 0 <= i < |b| :: b[i].IndexRow?
    ensures LastMatch(a + b, q) == LastMatch(a, q)
    decreases |b|
  {
    hide Native;
    if b == [] {
      assert a + b == a;
    } else {
      var n := |b| - 1;
      assert (a + b)[|a + b| - 1] == b[n] && (a + b)[..|a + b| - 1] == a + b[..n];
      IndexesMatchNothing(a, b[..n], q);
    }
  }

  lemma {:induction false} IndexesKeepSids(st: Store, rows: seq<Row>, q: seq<byte>)
    requires Sound(st) && forall i | 0 <= i < |rows| :: rows[i].IndexRow?
    ensures Stosid(PutAll(st, rows).0, q) == Stosid(st, q)
    decreases |rows|
  {
    hide Native;
    if rows != [] && Put(st, rows[0]).Some? {
      IndexesKeepSids(Put(st, rows[0]).value, rows[1..], q);
    }
  }

  /** A reload over any old schema, complete or not: a space is found as in a schema that
      was deleted first, if and only if its name is matched anew or was unknown. */
  lemma ReloadForgets(st: Store, vs: seq<Value>, ws: seq<Value>, q: seq<byte>)
    requires Sound(st)
    ensures Stosid(LoadBoth(st, vs, ws), q) == Stosid(LoadBoth(EMPTY_STORE, vs, ws), q)
            <==> LastMatch(RowsOf(vs, false), q).Some? || Stosid(st, q) == -1
    ensures Stosid(LoadBoth(st, vs, ws), q)
         == if LastMatch(RowsOf(vs, false), q).Some? then SidOf(LastMatch(RowsOf(vs, false), q)) else Stosid(st, q)
  {
    hide PutAll, PutTuples, RowsOf, LastMatch, Stosid;
    SidsAfterBoth(st, vs, ws, q);
    SidsAfterBoth(EMPTY_STORE, vs, ws, q);
    NameForgotten(st, RowsOf(vs, false), q);
  }

  lemma SidsAfterBoth(st: Store, vs: seq<Value>, ws: seq<Value>, q: seq<byte>)
    requires Sound(st)
    ensures NumbersOk(RowsOf(vs, false)) && PutAll(st, RowsOf(vs, false)).1
    ensures Stosid(LoadBoth(st, vs, ws), q) == Stosid(PutAll(st, RowsOf(vs, false)).0, q)
    ensures Stosid(LoadBoth(st, vs, ws), q)
         == if LastMatch(RowsOf(vs, false), q).Some? then SidOf(LastMatch(RowsOf(vs, false), q)) else Stosid(st, q)
  {
    hide PutAll, PutTuples, RowsOf, LastMatch, Stosid;
    var a, b := RowsOf(vs, false), RowsOf(ws, true);
    BothAreRows(st, vs, ws);
    RowsOfKind(vs, false);
    RowsOfKind(ws, true);
    PutAllConcat(st, a, b);
    IndexesKeepSids(PutAll(st, a).0, b, q);
    StosidOver(st, a, q);
  }

  /** The same for an index, when the new indexes all belong to new spaces. */
  lemma ReloadForgetsIndex(st: Store, vs: seq<Value>, ws: seq<Value>, sid: nat, q: seq<byte>)
    requires Sound(st) && PutAll(EMPTY_STORE, RowsOf(vs, false) + RowsOf(ws, true)).1
    ensures Stoiid(LoadBoth(st, vs, ws), sid, q) == Stoiid(LoadBoth(EMPTY_STORE, vs, ws), sid, q)
            <==> LastMatch(RowsOf(vs, false), Native(sid)).Some? || Stoiid(st, sid, q) == -1
  {
    hide PutAll, PutTuples, RowsOf, LastMatch, Stoiid, Native;
    var a, b := RowsOf(vs, false), RowsOf(ws, true);
    BothAreRows(st, vs, ws);
    BothAreRows(EMPTY_STORE, vs, ws);
    RowsOfKind(vs, false);
    RowsOfKind(ws, true);
    NumbersJoin(a, b);
    IndexForgotten(st, a + b, sid, q);
    IndexesMatchNothing(a, b, Native(sid));
  }

  /** An input on which nothing is deleted: the server has no space any more, and still
      every old space and every old index is found. */
  lemma EmptyReloadKeeps(st: Store)
    requires Sound(st)
    ensures LoadBoth(st, [], []) == st
  {
  }

  /** For one, a space "a" with number 1 and an index "b" with number 7. */
  lemma OldEntriesSurvive()
    ensures var st := PutAll(EMPTY_STORE, [SpaceRow(1, [97]), IndexRow(1, 7, [98])]).0;
      && Stosid(LoadBoth(st, [], []), [97]) == 1 && Stosid(LoadBoth(EMPTY_STORE, [], []), [97]) == -1
      && Stoiid(LoadBoth(st, [], []), 1, [98]) == 7 && Stoiid(LoadBoth(EMPTY_STORE, [], []), 1, [98]) == -1
  {
    var rows := [SpaceRow(1, [97]), IndexRow(1, 7, [98])];
    var st1 := Put(EMPTY_STORE, rows[0]).value;
    var st2 := Put(st1, rows[1]).value;
    PutNothing(st2);
    assert rows[1..] == [rows[1]] && rows[1..][1..] == [];
    assert PutAll(st1, rows[1..]) == (st2, true);
    assert PutAll(EMPTY_STORE, rows) == (st2, true);
    EmptyReloadKeeps(st2);
    EmptyReloadKeeps(EMPTY_STORE);
  }

  // ----- the exact answer for an index -----

  /** How many spaces the rows make. */
  function SpaceCount(rows: seq<Row>): nat {
    if rows == [] then 0
    else SpaceCount(rows[..|rows| - 1]) + if rows[|rows| - 1].SpaceRow? then 1 else 0
  }

  /** The object that stands under the key k after the rows: the last that has the name k
      or the bytes k as its number. */
  function Holder(st: Store, rows: seq<Row>, k: seq<byte>): Option<nat> {
    if rows == [] then if k in st.hash then Some(st.hash[k]) else None
    else
      var n := |rows| - 1;
      if rows[n].SpaceRow? && (rows[n].name == k || Native(rows[n].number) == k) then
        Some(|st.spaces| + SpaceCount(rows[..n]))
      else Holder(st, rows[..n], k)
  }

  /** The number that an object has under q: that of the last index that was put into it
      and has the name q, or the bytes q as its number. */
  function Entry(st: Store, rows: seq<Row>, id: nat, q: seq<byte>): Option<nat> {
    if rows == [] then
      if id < |st.spaces| && q in st.spaces[id].index then Some(st.spaces[id].index[q].number) else None
    else
      var n := |rows| - 1;
      if rows[n].IndexRow? && Holder(st, rows[..n], Native(rows[n].space)) == Some(id)
         && (rows[n].name == q || Native(rows[n].number) == q)
      then Some(rows[n].number)
      else Entry(st, rows[..n], id, q)
  }

  function HolderIn(st: Store, k: seq<byte>): Option<nat> {
    if k in st.hash then Some(st.hash[k]) else None
  }

  function EntryIn(st: Store, id: nat, q: seq<byte>): Option<nat> {
    if id < |st.spaces| && q in st.spaces[id].index then Some(st.spaces[id].index[q].number) else None
  }

  lemma {:induction false} Contents(st: Store, rows: seq<Row>, k: seq<byte>, id: nat, q: seq<byte>)
    requires Sound(st) && PutAll(st, rows).1
    ensures var st' := PutAll(st, rows).0;
      && |st'.spaces| == |st.spaces| + SpaceCount(rows)
      && HolderIn(st', k) == Holder(st, rows, k)
      && EntryIn(st', id, q) == Entry(st, rows, id, q)
    decreases |rows|
  {
    hide Native, PutAll;
    if rows == [] {
      PutNothing(st);
    } else {
      var n := |rows| - 1;
      var row := rows[n];
      assert rows[..n] + [row] == rows;
      PutAllPrefix(st, rows[..n], row);
      PutAllSnoc(st, rows[..n], row);
      Contents(st, rows[..n], k, id, q);
      if row.IndexRow? {
        Contents(st, rows[..n], Native(row.space), id, q);
      }
    }
  }

  /** With no condition on names or numbers, over any old schema: the answer is the number
      that the object under the space's number has under q. Its indexes are those that
      were put into it under any of its keys while it stood there, so a space can get
      those of a space whose number is its name, and an index can be found under the
      number of another. */
  lemma StoiidExact(st: Store, rows: seq<Row>, sid: nat, q: seq<byte>)
    requires Sound(st) && PutAll(st, rows).1
    ensures Stoiid(PutAll(st, rows).0, sid, q) == match Holder(st, rows, Native(sid))
      case None => -1
      case Some(id) => SidOf(Entry(st, rows, id, q))
  {
    hide Native, PutAll, Holder, Entry;
    var k := Native(sid);
    Contents(st, rows, k, 0, q);
    if Holder(st, rows, k).Some? {
      Contents(st, rows, k, Holder(st, rows, k).value, q);
    }
  }

  /** So for a reload over any old schema, complete or not: the answer is that of the rows
      that were taken, which are all up to the first index of an unknown space. */
  lemma StoiidAfterReload(st: Store, vs: seq<Value>, ws: seq<Value>, sid: nat, q: seq<byte>) returns (rows: seq<Row>)
    requires Sound(st)
    ensures rows <= RowsOf(vs, false) + RowsOf(ws, true)
    ensures PutAll(st, rows) == (LoadBoth(st, vs, ws), true)
    ensures rows == RowsOf(vs, false) + RowsOf(ws, true) <==> PutAll(st, RowsOf(vs, false) + RowsOf(ws, true)).1
    ensures Stoiid(LoadBoth(st, vs, ws), sid, q) == match Holder(st, rows, Native(sid))
      case None => -1
      case Some(id) => SidOf(Entry(st, rows, id, q))
  {
    hide Native, PutAll, PutTuples, RowsOf, LoadBoth, Holder, Entry, Stoiid;
    var all := RowsOf(vs, false) + RowsOf(ws, true);
    BothAreRows(st, vs, ws);
    var k := TakenPart(st, all);
    rows := all[..k];
    StoiidExact(st, rows, sid, q);
  }
}
