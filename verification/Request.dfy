/**
 * The request compiler. It fills a small header area from left to right, cuts
 * it into slices around the caller's key and tuple, and goes back to fill in
 * the size of the body map and the length prefix.
 */
module Request {
  import opened Bytes
  import opened MsgPack
  import opened RequestSpec
  import BufStream
  import Memory

  class RequestObject {
    var tp: nat
    var sync: nat
    var space: nat
    var index: nat
    var offset: nat
    var limit: nat
    var iter: nat
    var key: Option<seq<byte>>
    var tuple: Option<seq<byte>>
    var indexBase: int

    function View(): Fields
      reads this
    {
      Fields(tp, space, index, offset, limit, iter, key, tuple, indexBase)
    }

    constructor (tp: nat)
      ensures View() == Fields(tp, 0, 0, 0, U32 - 1, 0, None, None, 0)
    {
      this.tp, sync := tp, 0;
      space, index, offset, limit, iter, indexBase := 0, 0, 0, U32 - 1, 0, 0;
      key, tuple := None, None;
    }

    method SetKey(obj: seq<byte>)
      modifies this`key
      ensures View() == old(View()).(key := Some(obj))
    {
      key := Some(obj);
    }

    method SetTuple(obj: seq<byte>)
      modifies this`tuple
      ensures View() == old(View()).(tuple := Some(obj))
    {
      tuple := Some(obj);
    }

    /** The procedure of a call; None stands for a null pointer. */
    method SetFunc(func: Option<seq<byte>>) returns (rv: int)
      modifies this`key
      ensures rv == if IsCall(tp) && func.Some? then 0 else -1
      ensures View() == if rv == 0 then old(View()).(key := func) else old(View())
    {
      if !IsCall(tp) {
        return -1;
      }
      if func.None? {
        return -1;
      }
      key := func;
      return 0;
    }

    method SetExpr(expr: Option<seq<byte>>) returns (rv: int)
      modifies this`key
      ensures rv == if tp == OP_EVAL && expr.Some? then 0 else -1
      ensures View() == if rv == 0 then old(View()).(key := expr) else old(View())
    {
      if tp != OP_EVAL {
        return -1;
      }
      if expr.None? {
        return -1;
      }
      key := expr;
      return 0;
    }

    /** The operations of an update go where a tuple would, those of an upsert
        where a key would. */
    method SetOps(ops: seq<byte>) returns (rv: int)
      modifies this`key, this`tuple
      ensures rv == if tp == OP_UPDATE || tp == OP_UPSERT then 0 else -1
      ensures View() ==
        if tp == OP_UPDATE then old(View()).(tuple := Some(ops))
        else if tp == OP_UPSERT then old(View()).(key := Some(ops))
        else old(View())
    {
      if tp == OP_UPDATE {
        tuple := Some(ops);
        return 0;
      } else if tp == OP_UPSERT {
        key := Some(ops);
        return 0;
      }
      return -1;
    }
  }

  // ----- slices of the header area and of the caller's memory -----

  datatype Iov = Local(start: nat, len: nat) | Remote(chunk: seq<byte>)

  predicate InArea(v: Iov, low: nat, high: nat) {
    v.Local? ==> low <= v.start && v.start + v.len <= high
  }

  predicate AllInArea(vs: seq<Iov>, low: nat, high: nat) {
    forall i | 0 <= i < |vs| :: InArea(vs[i], low, high)
  }

  function Piece(h: seq<byte>, v: Iov): seq<byte>
    requires InArea(v, 0, |h|)
  {
    match v
    case Local(start, len) => h[start..start + len]
    case Remote(chunk) => chunk
  }

  /** The bytes that a scatter list over the area h denotes. */
  function Flat(h: seq<byte>, vs: seq<Iov>): seq<byte>
    requires AllInArea(vs, 0, |h|)
  {
    if vs == [] then [] else Flat(h, vs[..|vs| - 1]) + Piece(h, vs[|vs| - 1])
  }

  /** Slices denote the same bytes in areas that agree where the slices lie. */
  lemma {:induction false} FlatLocal(h: seq<byte>, g: seq<byte>, vs: seq<Iov>, low: nat, high: nat)
    requires low <= high <= |h| == |g| && AllInArea(vs, low, high)
    requires forall i | low <= i < high :: h[i] == g[i]
    ensures Flat(h, vs) == Flat(g, vs)
    decreases |vs|
  {
    if vs != [] {
      FlatLocal(h, g, vs[..|vs| - 1], low, high);
      var v := vs[|vs| - 1];
      assert InArea(v, low, high);
      if v.Local? {
        assert h[v.start..v.start + v.len] == g[v.start..v.start + v.len];
      }
    }
  }

  /** Overwriting one octet of the first slice overwrites one octet of the whole. */
  lemma {:induction false} FlatPatched(h: seq<byte>, vs: seq<Iov>, at: nat, x: byte)
    requires AllInArea(vs, 0, |h|) && vs != [] && vs[0].Local?
    requires vs[0].start <= at < vs[0].start + vs[0].len
    requires AllInArea(vs[1..], at + 1, |h|)
    ensures |Flat(h, vs)| > at - vs[0].start
    ensures Flat(h[at := x], vs) == Flat(h, vs)[at - vs[0].start := x]
    decreases |vs|
  {
    hide Flat, Piece;
    var init, v, g := vs[..|vs| - 1], vs[|vs| - 1], h[at := x];
    if |vs| == 1 {
      FlatSingle(h, vs);
      FlatSingle(g, vs);
      PiecePatched(h, vs[0], at, x);
    } else {
      assert init[1..] == vs[1..][..|vs| - 2];
      FlatPatched(h, init, at, x);
      assert v == vs[1..][|vs| - 2];
      PieceBeyond(h, v, at, x);
      FlatLast(h, vs);
      FlatLast(g, vs);
      UpdateLeft(Flat(h, init), Piece(h, v), at - vs[0].start, x);
    }
  }

  lemma FlatLast(h: seq<byte>, vs: seq<Iov>)
    requires AllInArea(vs, 0, |h|) && vs != []
    ensures AllInArea(vs[..|vs| - 1], 0, |h|) && InArea(vs[|vs| - 1], 0, |h|)
    ensures Flat(h, vs) == Flat(h, vs[..|vs| - 1]) + Piece(h, vs[|vs| - 1])
  {
  }

  lemma PiecePatched(h: seq<byte>, v: Iov, at: nat, x: byte)
    requires v.Local? && InArea(v, 0, |h|) && v.start <= at < v.start + v.len
    ensures |Piece(h, v)| == v.len && Piece(h[at := x], v) == Piece(h, v)[at - v.start := x]
  {
  }

  lemma PieceBeyond(h: seq<byte>, v: Iov, at: nat, x: byte)
    requires InArea(v, at + 1, |h|) && at < |h|
    ensures Piece(h[at := x], v) == Piece(h, v)
  {
  }

  lemma FlatSingle(h: seq<byte>, vs: seq<Iov>)
    requires AllInArea(vs, 0, |h|) && |vs| == 1
    ensures Flat(h, vs) == Piece(h, vs[0])
  {
    assert vs[..0] == [];
  }

  lemma UpdateLeft(a: seq<byte>, b: seq<byte>, i: nat, x: byte)
    requires i < |a|
    ensures (a + b)[i := x] == a[i := x] + b
  {
  }

  lemma FlatSnoc(h: seq<byte>, vs: seq<Iov>, v: Iov)
    requires AllInArea(vs, 0, |h|) && InArea(v, 0, |h|)
    ensures Flat(h, vs + [v]) == Flat(h, vs) + Piece(h, v)
  {
    assert (vs + [v])[..|vs|] == vs;
  }

  /** The slices taken so far and the bytes after the last cut, end to end. */
  predicate Assembled(h: seq<byte>, vs: seq<Iov>, begin: nat, pos: nat, whole: seq<byte>) {
    && 9 <= begin <= pos <= |h|
    && AllInArea(vs, 9, begin)
    && Flat(h, vs) + h[begin..pos] == whole
  }

  lemma AssembledGrows(h: seq<byte>, g: seq<byte>, vs: seq<Iov>, begin: nat, pos: nat, p: nat,
                       whole: seq<byte>, chunk: seq<byte>)
    requires Assembled(h, vs, begin, pos, whole)
    requires pos <= p <= |g| == |h| && g[..p] == h[..pos] + chunk
    ensures Assembled(g, vs, begin, p, whole + chunk)
  {
    hide Flat;
    assert forall i | 0 <= i < pos :: h[i] == h[..pos][i] && g[i] == g[..p][i];
    FlatLocal(h, g, vs, 9, begin);
    assert g[begin..p] == g[..p][begin..];
    assert h[begin..pos] == h[..pos][begin..];
    assert g[begin..p] == h[begin..pos] + chunk;
    assert Flat(h, vs) + (h[begin..pos] + chunk) == (Flat(h, vs) + h[begin..pos]) + chunk;
  }

  /** Cutting here and adding foreign bytes. */
  lemma AssembledCut(h: seq<byte>, vs: seq<Iov>, begin: nat, pos: nat, whole: seq<byte>, chunk: seq<byte>)
    requires Assembled(h, vs, begin, pos, whole)
    ensures Assembled(h, vs + [Local(begin, pos - begin), Remote(chunk)], pos, pos, whole + chunk)
  {
    hide Flat;
    var mid := vs + [Local(begin, pos - begin)];
    FlatSnoc(h, vs, Local(begin, pos - begin));
    FlatSnoc(h, mid, Remote(chunk));
    assert vs + [Local(begin, pos - begin), Remote(chunk)] == mid + [Remote(chunk)];
    assert h[pos..pos] == [];
    assert Flat(h, mid) + chunk + [] == whole + chunk;
  }

  // ----- writing into the header area -----

  method Put(h: array<byte>, pos: nat, chunk: seq<byte>) returns (p: nat)
    requires pos + |chunk| <= h.Length
    modifies h
    ensures p == pos + |chunk| && h[..p] == old(h[..pos]) + chunk
  {
    Memory.Copy(h, pos, chunk);
    p := pos + |chunk|;
  }

  lemma PairsBytesSnoc(ps: seq<Pair>, p: Pair)
    ensures PairsBytes(ps + [p]) == PairsBytes(ps) + PairBytes(p)
  {
    assert (ps + [p])[..|ps|] == ps;
  }

  /** Writes one numeric pair if the condition holds, and counts it. */
  method PutWhen(h: array<byte>, pos: nat, nd: nat, c: bool, key: byte, n: nat,
                 ghost base: seq<byte>, ghost ps: seq<Pair>)
    returns (p: nat, nd': nat)
    requires pos + 18 <= h.Length && n < U64
    requires h[..pos] == base + PairsBytes(ps) && nd == |ps|
    modifies h
    ensures pos <= p <= pos + |UIntBytes(key)| + |UIntBytes(n)| && p <= h.Length
    ensures h[..p] == base + PairsBytes(ps + When(c, key, UIntBytes(n)))
    ensures nd' == |ps + When(c, key, UIntBytes(n))|
  {
    hide UIntBytes;
    p, nd' := pos, nd;
    if c {
      p := Put(h, p, UIntBytes(key));
      p := Put(h, p, UIntBytes(n));
      nd' := nd + 1;
      PairsBytesSnoc(ps, Pair(key, UIntBytes(n)));
      assert base + PairsBytes(ps) + UIntBytes(key) + UIntBytes(n)
          == base + (PairsBytes(ps) + (UIntBytes(key) + UIntBytes(n)));
    } else {
      assert ps + When(c, key, UIntBytes(n)) == ps;
    }
  }

  /** The numeric pairs that only a select has. */
  method PutSelect(h: array<byte>, pos: nat, count: nat, r: Fields, ghost base: seq<byte>, ghost before: seq<Pair>)
    returns (p: nat, nd: nat)
    requires FieldsOk(r) && pos + 36 <= h.Length
    requires h[..pos] == base + PairsBytes(before) && count == |before|
    modifies h
    ensures pos <= p <= pos + 18 && p <= h.Length && nd == count + |SelectPairs(r)|
    ensures h[..p] == base + PairsBytes(before + SelectPairs(r))
  {
    hide PairsBytes, UIntBytes;
    KeyLengths(r);
    p, nd := PutWhen(h, pos, count, r.tp == OP_SELECT, LIMIT, r.limit, base, before);
    ghost var ps := before + When(r.tp == OP_SELECT, LIMIT, UIntBytes(r.limit));
    p, nd := PutWhen(h, p, nd, r.offset != 0 && r.tp == OP_SELECT, OFFSET, r.offset, base, ps);
    ps := ps + When(r.offset != 0 && r.tp == OP_SELECT, OFFSET, UIntBytes(r.offset));
    p, nd := PutWhen(h, p, nd, r.iter != 0 && r.tp == OP_SELECT, ITERATOR, r.iter, base, ps);
    ps := ps + When(r.iter != 0 && r.tp == OP_SELECT, ITERATOR, UIntBytes(r.iter));
    assert ps == before + SelectPairs(r);
  }

  method PutNumbers(h: array<byte>, pos: nat, r: Fields) returns (p: nat, nd: nat)
    requires FieldsOk(r) && pos + 48 <= h.Length
    modifies h
    ensures pos <= p <= pos + 30 && nd == |NumberPairs(r)|
    ensures h[..p] == old(h[..pos]) + PairsBytes(NumberPairs(r))
  {
    hide PairsBytes, UIntBytes, SelectPairs;
    KeyLengths(r);
    ghost var base := h[..pos];
    ghost var ps: seq<Pair> := [];
    NoPairs();
    assert base + PairsBytes(ps) == base;
    p, nd := PutWhen(h, pos, 0, HasSpace(r.tp), SPACE, r.space, base, ps);
    ps := ps + When(HasSpace(r.tp), SPACE, UIntBytes(r.space));
    p, nd := PutWhen(h, p, nd, r.index != 0 && HasIndex(r.tp), INDEX, r.index, base, ps);
    ps := ps + When(r.index != 0 && HasIndex(r.tp), INDEX, UIntBytes(r.index));
    p, nd := PutSelect(h, p, nd, r, base, ps);
    assert ps + SelectPairs(r) == NumberPairs(r);
  }

  lemma KeyLengths(r: Fields)
    requires FieldsOk(r)
    ensures |UIntBytes(SPACE)| == |UIntBytes(INDEX)| == |UIntBytes(LIMIT)| == |UIntBytes(OFFSET)| == 1
    ensures |UIntBytes(ITERATOR)| == 1
  {
  }

  lemma NoPairs()
    ensures PairsBytes([]) == []
  {
  }

  // ----- assembling the frame -----

  /** The first slice starts the area and holds the octet at map; the other
      slices lie behind that octet. */
  predicate Shaped(vs: seq<Iov>, begin: nat, mapAt: nat, area: nat) {
    if vs == [] then begin == 9 <= mapAt
    else
      && vs[0].Local? && vs[0].start == 9 <= mapAt < 9 + vs[0].len
      && AllInArea(vs[1..], mapAt + 1, area) && mapAt < begin
  }

  /** Slices of the area and of the caller's memory take turns, and those of the area
      do not overlap and stand in order. */
  predicate Orderly(vs: seq<Iov>) {
    && (forall i | 0 <= i < |vs| :: vs[i].Local? <==> i % 2 == 0)
    && (forall i, j | 0 <= i < j < |vs| && vs[i].Local? && vs[j].Local? ::
          vs[i].start + vs[i].len <= vs[j].start)
  }

  lemma OrderlyCut(vs: seq<Iov>, begin: nat, pos: nat, more: seq<Iov>)
    requires Orderly(vs) && |vs| % 2 == 0 && AllInArea(vs, 9, begin) && begin <= pos
    requires |more| <= 1 && (more != [] ==> more[0].Remote?)
    ensures Orderly(vs + [Local(begin, pos - begin)] + more)
  {
    assert forall i | 0 <= i < |vs| :: InArea(vs[i], 9, begin);
  }

  lemma ShapedCut(vs: seq<Iov>, begin: nat, mapAt: nat, area: nat, pos: nat, more: seq<Iov>)
    requires Shaped(vs, begin, mapAt, area) && begin <= pos <= area && mapAt < pos
    requires AllInArea(more, 0, 0)
    requires forall i | 0 <= i < |more| :: more[i].Remote?
    ensures Shaped(vs + [Local(begin, pos - begin)] + more, pos, mapAt, area)
  {
    var all := vs + [Local(begin, pos - begin)] + more;
    if vs == [] {
      assert all[1..] == more;
    } else {
      assert all[1..] == vs[1..] + [Local(begin, pos - begin)] + more;
    }
  }

  method PutHeader(h: array<byte>, tp: nat, sync: nat) returns (pos: nat)
    requires h.Length == 128 && tp < 0x80 && sync < U64
    modifies h
    ensures 14 <= pos <= 22 && h[9..pos] == HeaderBytes(tp, sync)
  {
    hide UIntBytes;
    assert UIntBytes(CODE) == [CODE] && UIntBytes(SYNC) == [SYNC] && |UIntBytes(tp)| == 1;
    pos := 9;
    ghost var low := h[..9];
    pos := Put(h, pos, ContainerHead(Shortest, MapKind, 2));
    pos := Put(h, pos, UIntBytes(CODE));
    pos := Put(h, pos, UIntBytes(tp));
    pos := Put(h, pos, UIntBytes(SYNC));
    pos := Put(h, pos, UIntBytes(sync));
    assert h[..pos] == low + HeaderBytes(tp, sync);
    assert h[9..pos] == h[..pos][9..];
  }

  /** A pair whose value is the caller's memory: its head goes into the area, and
      the area is cut there. */
  method PutForeign(h: array<byte>, v: seq<Iov>, begin: nat, pos: nat, tag: byte, head: seq<byte>,
                    chunk: seq<byte>, ghost whole: seq<byte>, ghost mapAt: nat)
    returns (v': seq<Iov>, p: nat)
    requires Assembled(h[..], v, begin, pos, whole) && Shaped(v, begin, mapAt, h.Length)
    requires mapAt < pos && tag < 0x80 && pos + 1 + |head| <= h.Length
    requires Orderly(v) && |v| % 2 == 0
    modifies h
    ensures p == pos + 1 + |head|
    ensures Assembled(h[..], v', p, p, whole + PairBytes(Pair(tag, head + chunk)))
    ensures Shaped(v', p, mapAt, h.Length) && |v'| == |v| + 2 && Orderly(v')
  {
    hide Flat, Assembled, Shaped, Orderly;
    ghost var start := h[..];
    assert start[..pos] == h[..pos];
    p := Put(h, pos, UIntBytes(tag));
    p := Put(h, p, head);
    assert h[..p] == h[..][..p] == start[..pos] + (UIntBytes(tag) + head);
    AssembledBounds(start, v, begin, pos, whole);
    AssembledGrows(start, h[..], v, begin, pos, p, whole, UIntBytes(tag) + head);
    AssembledCut(h[..], v, begin, p, whole + (UIntBytes(tag) + head), chunk);
    ShapedCut(v, begin, mapAt, h.Length, p, [Remote(chunk)]);
    OrderlyCut(v, begin, p, [Remote(chunk)]);
    v' := v + [Local(begin, p - begin), Remote(chunk)];
    assert v' == v + [Local(begin, p - begin)] + [Remote(chunk)];
    assert whole + (UIntBytes(tag) + head) + chunk == whole + (UIntBytes(tag) + (head + chunk));
  }

  lemma AssembledBounds(h: seq<byte>, vs: seq<Iov>, begin: nat, pos: nat, whole: seq<byte>)
    requires Assembled(h, vs, begin, pos, whole)
    ensures 9 <= begin <= pos <= |h| && AllInArea(vs, 9, begin)
  {
  }

  lemma OnePairMore(base: seq<byte>, ps: seq<Pair>, p: Pair)
    ensures base + PairsBytes(ps) + PairBytes(p) == base + PairsBytes(ps + [p])
  {
    PairsBytesSnoc(ps, p);
  }

  method PutBase(h: array<byte>, v: seq<Iov>, begin: nat, pos: nat, r: Fields, ghost whole: seq<byte>)
    returns (p: nat)
    requires FieldsOk(r) && Assembled(h[..], v, begin, pos, whole) && pos + 18 <= h.Length
    requires r.indexBase != 0 && (r.tp == OP_UPDATE || r.tp == OP_UPSERT)
    modifies h
    ensures pos < p <= pos + 10
    ensures Assembled(h[..], v, begin, p, whole + PairBytes(BasePairs(r)[0]))
  {
    hide Flat, Assembled;
    ghost var start := h[..];
    assert start[..pos] == h[..pos];
    p := Put(h, pos, UIntBytes(INDEX_BASE));
    p := Put(h, p, UIntBytes(UInt64(r.indexBase)));
    assert h[..p] == h[..][..p] == start[..pos] + PairBytes(BasePairs(r)[0]);
    AssembledBounds(start, v, begin, pos, whole);
    AssembledGrows(start, h[..], v, begin, pos, p, whole, PairBytes(BasePairs(r)[0]));
  }

  /** The header, the room for the size of the map, and the numeric pairs. */
  method PutFront(h: array<byte>, r: Fields, sync: nat) returns (mapAt: nat, pos: nat, nd: nat, ghost y: byte)
    requires h.Length == 128 && FieldsOk(r) && sync < U64
    modifies h
    ensures 14 <= mapAt == 9 + |HeaderBytes(r.tp, sync)| <= 22 && mapAt < pos <= mapAt + 31
    ensures nd == |NumberPairs(r)|
    ensures Assembled(h[..], [], 9, pos, HeaderBytes(r.tp, sync) + [y] + PairsBytes(NumberPairs(r)))
  {
    hide HeaderBytes, PairsBytes, NumberPairs;
    pos := PutHeader(h, r.tp, sync);
    mapAt := pos;
    pos := pos + 1;
    y := h[mapAt];
    ghost var start := h[..];
    ghost var whole := HeaderBytes(r.tp, sync) + [y];
    assert start[9..pos] == whole by {
      assert start[9..pos] == h[9..mapAt] + [y];
    }
    assert Flat(start, []) + start[9..pos] == whole;
    assert Assembled(start, [], 9, pos, whole);
    ghost var before := pos;
    assert start[..before] == h[..before];
    pos, nd := PutNumbers(h, pos, r);
    assert h[..][..pos] == h[..pos];
    AssembledGrows(start, h[..], [], 9, before, pos, whole, PairsBytes(NumberPairs(r)));
  }

  /** Everything between the length prefix and the write: the slices of the frame,
      with an octet y still standing where the size of the body map belongs. */
  method Assemble(h: array<byte>, r: Fields, sync: nat)
    returns (ok: bool, v: seq<Iov>, mapAt: nat, nd: nat, ghost y: byte)
    requires h.Length == 128 && FieldsOk(r) && sync < U64
    modifies h
    ensures ok <==> !Refused(r)
    ensures ok ==> 1 <= |v| <= 5 && AllInArea(v, 9, 128) && Orderly(v)
    ensures ok ==> Shaped(v, 128, mapAt, 128) && mapAt == 9 + |HeaderBytes(r.tp, sync)| < 128
    ensures ok ==> nd == |Pairs(r)|
    ensures ok ==> Flat(h[..], v) == HeaderBytes(r.tp, sync) + [y] + PairsBytes(Pairs(r))
  {
    hide Flat, Shaped, Orderly, Assembled, HeaderBytes, PairsBytes, NumberPairs, PairBytes, KeyHead;
    v := [];
    var pos, begin := 0, 9;
    mapAt, pos, nd, y := PutFront(h, r, sync);
    ShapedEmpty(mapAt, 128);
    ghost var base := HeaderBytes(r.tp, sync) + [y];
    ghost var ps := NumberPairs(r);
    if r.key.Some? {
      if !HasText(r.tp) && !HasIndex(r.tp) && r.tp != OP_UPSERT {
        return false, v, mapAt, nd, y;
      }
      v, pos := PutForeign(h, v, begin, pos, KeyTag(r.tp), KeyHead(r), r.key.value, base + PairsBytes(ps), mapAt);
      begin, nd := pos, nd + 1;
      OnePairMore(base, ps, KeyPairs(r)[0]);
    }
    assert r.key.None? ==> ps + KeyPairs(r) == ps;
    ps := ps + KeyPairs(r);
    if r.tuple.Some? {
      v, pos := PutForeign(h, v, begin, pos, TUPLE, [], r.tuple.value, base + PairsBytes(ps), mapAt);
      begin, nd := pos, nd + 1;
      assert [] + r.tuple.value == r.tuple.value;
      OnePairMore(base, ps, TuplePairs(r)[0]);
    }
    assert r.tuple.None? ==> ps + TuplePairs(r) == ps;
    ps := ps + TuplePairs(r);
    if r.indexBase != 0 && (r.tp == OP_UPDATE || r.tp == OP_UPSERT) {
      pos := PutBase(h, v, begin, pos, r, base + PairsBytes(ps));
      nd := nd + 1;
      OnePairMore(base, ps, BasePairs(r)[0]);
    }
    assert BasePairs(r) == [] ==> ps + BasePairs(r) == ps;
    ps := ps + BasePairs(r);
    assert ps == Pairs(r);
    LastCut(h[..], v, begin, pos, base + PairsBytes(ps), mapAt);
    if pos != begin {
      v := v + [Local(begin, pos - begin)];
    }
    ok := true;
  }

  lemma ShapedEmpty(mapAt: nat, area: nat)
    requires 9 <= mapAt
    ensures Shaped([], 9, mapAt, area) && Orderly([])
  {
  }

  lemma LastCut(h: seq<byte>, vs: seq<Iov>, begin: nat, pos: nat, whole: seq<byte>, mapAt: nat)
    requires Assembled(h, vs, begin, pos, whole) && Shaped(vs, begin, mapAt, |h|) && mapAt < pos && mapAt < |h|
    requires Orderly(vs) && |vs| % 2 == 0
    ensures var all := if pos == begin then vs else vs + [Local(begin, pos - begin)];
      && all != [] && AllInArea(all, 9, |h|) && Shaped(all, |h|, mapAt, |h|) && Flat(h, all) == whole
      && Orderly(all)
  {
    hide Orderly, Flat;
    if pos == begin {
      assert h[begin..pos] == [];
      ShapedStays(vs, begin, mapAt, |h|);
    } else {
      FlatSnoc(h, vs, Local(begin, pos - begin));
      ShapedCut(vs, begin, mapAt, |h|, pos, []);
      OrderlyCut(vs, begin, pos, []);
      assert vs + [Local(begin, pos - begin)] + [] == vs + [Local(begin, pos - begin)];
    }
  }

  lemma ShapedStays(vs: seq<Iov>, begin: nat, mapAt: nat, area: nat)
    requires Shaped(vs, begin, mapAt, area) && mapAt < begin && mapAt < area
    ensures vs != [] && Shaped(vs, area, mapAt, area)
  {
  }

  // ----- finishing it -----

  method SumLengths(h: array<byte>, v: seq<Iov>) returns (plen: nat)
    requires AllInArea(v, 0, h.Length)
    ensures plen == |Flat(h[..], v)|
  {
    plen := 0;
    for i := 0 to |v|
      invariant plen == |Flat(h[..], v[..i])|
    {
      assert v[..i + 1][..i] == v[..i];
      assert InArea(v[i], 0, h.Length);
      plen := plen + match v[i] case Local(_, len) => len case Remote(chunk) => |chunk|;
    }
    assert v[..|v|] == v;
  }

  method Resolve(h: array<byte>, v: seq<Iov>) returns (pieces: seq<seq<byte>>)
    requires AllInArea(v, 0, h.Length)
    ensures Concat(pieces) == Flat(h[..], v) && |pieces| == |v|
  {
    pieces := [];
    for i := 0 to |v|
      invariant |pieces| == i && Concat(pieces) == Flat(h[..], v[..i])
    {
      assert v[..i + 1][..i] == v[..i];
      assert InArea(v[i], 0, h.Length);
      var piece := match v[i] case Local(start, len) => h[start..start + len] case Remote(chunk) => chunk;
      assert (pieces + [piece])[..i] == pieces;
      pieces := pieces + [piece];
    }
    assert v[..|v|] == v;
  }

  lemma PatchedPayload(h: seq<byte>, v: seq<Iov>, mapAt: nat, y: byte, r: Fields, sync: nat)
    requires FieldsOk(r) && |h| == 128 && AllInArea(v, 9, 128) && v != []
    requires Shaped(v, 128, mapAt, 128) && mapAt == 9 + |HeaderBytes(r.tp, sync)| < 128
    requires Flat(h, v) == HeaderBytes(r.tp, sync) + [y] + PairsBytes(Pairs(r))
    ensures Flat(h[mapAt := 0x80 + |Pairs(r)|], v) == Payload(r.tp, sync, Pairs(r))
  {
    hide Flat, HeaderBytes, PairsBytes, Pairs;
    var x: byte := 0x80 + |Pairs(r)|;
    FlatPatched(h, v, mapAt, x);
    var a, c := HeaderBytes(r.tp, sync), PairsBytes(Pairs(r));
    assert (a + [y] + c)[|a| := x] == a + ([x] + c);
  }

  /** Fills in the size of the map and the length prefix, and collects the slices. */
  method Finish(h: array<byte>, v: seq<Iov>, mapAt: nat, nd: nat, ghost y: byte, ghost r: Fields, ghost sync: nat)
    returns (pieces: seq<seq<byte>>)
    requires h.Length == 128 && FieldsOk(r) && nd == |Pairs(r)|
    requires 1 <= |v| <= 5 && AllInArea(v, 9, 128)
    requires Shaped(v, 128, mapAt, 128) && mapAt == 9 + |HeaderBytes(r.tp, sync)| < 128
    requires Flat(h[..], v) == HeaderBytes(r.tp, sync) + [y] + PairsBytes(Pairs(r))
    modifies h
    ensures Concat(pieces) == FrameBytes(r.tp, sync, Pairs(r)) && |pieces| <= 6
  {
    hide Flat, HeaderBytes, PairsBytes, Pairs, Shaped, Payload;
    PatchedPayload(h[..], v, mapAt, y, r, sync);
    ghost var patched := h[..][mapAt := 0x80 + nd];
    h[mapAt] := 0x80 + nd;
    assert h[..] == patched;
    var plen := SumLengths(h, v);
    var width := if plen < U32 then 5 else 9;
    Memory.Copy(h, 9 - width, LUInt(plen));
    FlatLocal(patched, h[..], v, 9, 128);
    var first := h[9 - width..9];
    assert first == LUInt(plen);
    pieces := Resolve(h, v);
    ConcatCons(first, pieces);
    pieces := [first] + pieces;
  }

  lemma {:induction false} ConcatCons(first: seq<byte>, rest: seq<seq<byte>>)
    ensures Concat([first] + rest) == first + Concat(rest)
    decreases |rest|
  {
    var all := [first] + rest;
    if rest == [] {
      assert all[..0] == [];
      assert Concat(all) == [] + first;
    } else {
      var init := rest[..|rest| - 1];
      assert all[..|all| - 1] == [first] + init;
      ConcatCons(first, init);
      assert Concat(all) == (first + Concat(init)) + rest[|rest| - 1];
    }
  }

  /** Gives the request the stream's next sync number. */
  method TakeSync(s: BufStream.Buffer, req: RequestObject, sync: Option<nat>)
    requires s.Valid()
    modifies s`reqid, req`sync
    ensures s.Valid() && req.sync < U64
    ensures req.sync ==
      if sync == Some(0x7fff_ffff_ffff_ffff) && old(s.reqid) % 0x8000_0000_0000_0000 == 0x7fff_ffff_ffff_ffff then 0
      else old(s.reqid)
    ensures s.reqid == (req.sync + 1) % 0x1_0000_0000_0000_0000
  {
    if sync == Some(INT64_MAX) && s.reqid % U63 == INT64_MAX {
      s.reqid := 0;
    }
    req.sync := s.reqid;
    s.reqid := (s.reqid + 1) % U64;
  }

  /** Compiles a request onto a stream. A refused request, like a failed write,
      still uses up a sync number. */
  method Writeout(s: BufStream.Buffer, req: RequestObject, sync: Option<nat>)
    returns (rv: int, out: Option<nat>)
    requires s.Valid() && FieldsOk(req.View())
    modifies s`data, s`size, s`wrcnt, s`reqid, s.data, req`sync
    ensures s.Valid() && fresh(s.Repr() - old(s.Repr()))
    ensures req.sync ==
      if sync == Some(0x7fff_ffff_ffff_ffff) && old(s.reqid) % 0x8000_0000_0000_0000 == 0x7fff_ffff_ffff_ffff then 0
      else old(s.reqid)
    ensures s.reqid == (req.sync + 1) % 0x1_0000_0000_0000_0000
    ensures req.View() == old(req.View())
    ensures rv == -1 <==> (req.key.Some? && req.tp !in {1, 4, 5, 6, 8, 9, 10}) || s.borrowed
    ensures rv == -1 ==> s.Contents() == old(s.Contents()) && s.wrcnt == old(s.wrcnt) && out == sync
    ensures rv != -1 ==>
      && rv == 0 && s.wrcnt == (old(s.wrcnt) + 1) % U32
      && s.Contents() == old(s.Contents()) + FrameBytes(req.tp, req.sync, Pairs(req.View()))
      && out == if sync.Some? then Some(req.sync) else None
  {
    hide FrameBytes, Pairs, Flat, Shaped, HeaderBytes, AllInArea;
    TakeSync(s, req, sync);
    var h := new byte[128];
    var ok, v, mapAt, nd;
    ghost var y;
    ok, v, mapAt, nd, y := Assemble(h, req.View(), req.sync);
    if !ok {
      return -1, sync;
    }
    var pieces := Finish(h, v, mapAt, nd, y, req.View(), req.sync);
    rv := s.Writev(pieces);
    if rv == -1 {
      return -1, sync;
    }
    return 0, if sync.Some? then Some(req.sync) else None;
  }

  /** The sync number as a signed 64-bit integer, or -1. */
  method CompileRequest(s: BufStream.Buffer, req: RequestObject) returns (rv: int)
    requires s.Valid() && FieldsOk(req.View())
    modifies s`data, s`size, s`wrcnt, s`reqid, s.data, req`sync
    ensures s.Valid() && fresh(s.Repr() - old(s.Repr()))
    ensures req.sync ==
      if old(s.reqid) % 0x8000_0000_0000_0000 == 0x7fff_ffff_ffff_ffff then 0 else old(s.reqid)
    ensures s.reqid == (req.sync + 1) % 0x1_0000_0000_0000_0000
    ensures req.View() == old(req.View())
    ensures rv == -1 <==> (req.key.Some? && req.tp !in {1, 4, 5, 6, 8, 9, 10}) || s.borrowed
    ensures rv == -1 ==> s.Contents() == old(s.Contents())
    ensures rv != -1 ==>
      && rv == (if req.sync < U63 then req.sync else req.sync - U64)
      && s.Contents() == old(s.Contents()) + FrameBytes(req.tp, req.sync, Pairs(req.View()))
  {
    hide FrameBytes, Pairs;
    var status, out := Writeout(s, req, Some(INT64_MAX));
    if status == -1 {
      return -1;
    }
    SyncNeverMinusOne(old(s.reqid), req.sync);
    rv := if out.value < U63 then out.value else out.value - U64;
  }

  /** The number that would read as -1 is never handed out to such a caller, and
      neither is INT64_MAX itself. */
  lemma SyncNeverMinusOne(reqid: nat, sync: nat)
    requires reqid < U64
    requires sync == if reqid % 0x8000_0000_0000_0000 == 0x7fff_ffff_ffff_ffff then 0 else reqid
    ensures sync != 0xffff_ffff_ffff_ffff && sync != 0x7fff_ffff_ffff_ffff
    ensures sync < U64
  {
  }
}
