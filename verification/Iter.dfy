/** Iterators over the children of an array and over the pairs of a map. */
module Iter {
  import opened Bytes
  import opened MsgPack
  import opened MsgPackLaws

  datatype Status = IterOk | IterFail

  /** data starts with a container of the given kind. */
  predicate Holds(data: seq<byte>, kind: Kind) {
    Decode(data).Got? && Decode(data).val.Node? && Decode(data).val.kind == kind
  }

  function Items(data: seq<byte>, kind: Kind): seq<Value>
    requires Holds(data, kind)
  {
    Decode(data).val.items
  }

  /** The bytes after the container's header. */
  function BodyOf(data: seq<byte>): seq<byte> {
    match ReadToken(data)
    case Got(_, t) => t
    case Bad => []
  }

  /** Where the k-th child ends. */
  function Cut(data: seq<byte>, k: nat): (at: nat) {
    match DecodeAll(BodyOf(data), k)
    case Got(_, t) => if |t| <= |data| then |data| - |t| else 0
    case Bad => 0
  }

  // ----- the slices are the children -----

  lemma {:induction false} ManyThenOne(s: seq<byte>, n: nat, k: nat)
    requires DecodeAll(s, n).Got? && k < n
    ensures DecodeAll(s, k).Got? && DecodeAll(s, k + 1).Got?
    ensures Decode(DecodeAll(s, k).rest) == Got(DecodeAll(s, n).val[k], DecodeAll(s, k + 1).rest)
    decreases k
  {
    if k > 0 {
      ManyThenOne(Decode(s).rest, n - 1, k - 1);
    } else {
      assert DecodeAll(Decode(s).rest, 0).Got?;
    }
  }

  lemma Opened(data: seq<byte>, kind: Kind)
    requires Holds(data, kind)
    ensures DecodeAll(BodyOf(data), |Items(data, kind)|) == Got(Items(data, kind), Decode(data).rest)
    ensures ReadToken(data).Got? && ReadToken(data).val.Open? && ReadToken(data).val.kind == kind
    ensures |Items(data, kind)| == Children(kind, ReadToken(data).val.count)
    ensures |BodyOf(data)| < |data|
  {
    hide DecodeAll;
  }

  lemma BodyIsSuffix(data: seq<byte>, k: nat)
    requires DecodeAll(BodyOf(data), k).Got? && ReadToken(data).Got?
    ensures Cut(data, k) <= |data| && DecodeAll(BodyOf(data), k).rest == data[Cut(data, k)..]
  {
    hide ReadToken, DecodeAll;
    ReadTokenSuffix(data);
    DecodeAllSuffix(BodyOf(data), k);
  }

  /** Child k is read from the k-th cut on, and ends at the next. */
  lemma ChildAt(data: seq<byte>, kind: Kind, k: nat)
    requires Holds(data, kind) && k < |Items(data, kind)|
    ensures Cut(data, k) < Cut(data, k + 1) <= |data|
    ensures Decode(data[Cut(data, k)..]) == Got(Items(data, kind)[k], data[Cut(data, k + 1)..])
  {
    hide ReadToken, Decode, DecodeAll, Cut;
    Opened(data, kind);
    var body := BodyOf(data);
    ManyThenOne(body, |Items(data, kind)|, k);
    BodyIsSuffix(data, k);
    BodyIsSuffix(data, k + 1);
  }

  /** The first cut is the end of the header, the last the end of the container. */
  lemma CutsSpan(data: seq<byte>, kind: Kind)
    requires Holds(data, kind)
    ensures Cut(data, 0) == |data| - |ReadToken(data).rest|
    ensures Cut(data, |Items(data, kind)|) == |data| - |Decode(data).rest|
  {
    hide ReadToken, Decode;
    Opened(data, kind);
  }

  function Slice(data: seq<byte>, k: nat): seq<byte> {
    if Cut(data, k) <= Cut(data, k + 1) <= |data| then data[Cut(data, k)..Cut(data, k + 1)] else []
  }

  function Slices(data: seq<byte>, n: nat): (s: seq<seq<byte>>)
    ensures |s| == n && forall k | 0 <= k < n :: s[k] == Slice(data, k)
  {
    seq(n, k requires 0 <= k < n => Slice(data, k))
  }

  /** Every slice is one child's own encoding, whatever the child contains. */
  lemma SliceIsChild(data: seq<byte>, kind: Kind, k: nat)
    requires Holds(data, kind) && k < |Items(data, kind)|
    ensures Decode(Slice(data, k)) == Got(Items(data, kind)[k], [])
  {
    hide Decode, Cut;
    ChildAt(data, kind, k);
    var s := data[Cut(data, k)..];
    DecodeOwnBytes(s);
    assert s[..|s| - |Decode(s).rest|] == Slice(data, k);
  }

  /** Together the slices are the container without its header. */
  lemma {:induction false} SlicesJoin(data: seq<byte>, kind: Kind, n: nat)
    requires Holds(data, kind) && n <= |Items(data, kind)|
    ensures Cut(data, 0) <= Cut(data, n) <= |data|
    ensures Concat(Slices(data, n)) == data[Cut(data, 0)..Cut(data, n)]
  {
    hide Decode, Cut;
    if n > 0 {
      SlicesJoin(data, kind, n - 1);
      ChildAt(data, kind, n - 1);
      assert Slices(data, n)[..n - 1] == Slices(data, n - 1);
    } else {
      CutsSpan(data, kind);
    }
  }

  lemma SlicesCover(data: seq<byte>, kind: Kind)
    requires Holds(data, kind)
    ensures data == data[..|data| - |ReadToken(data).rest|]
                  + Concat(Slices(data, |Items(data, kind)|)) + Decode(data).rest
  {
    hide ReadToken, Decode, Cut;
    SlicesJoin(data, kind, |Items(data, kind)|);
    CutsSpan(data, kind);
    DecodeSuffix(data);
  }

  // ----- arrays -----

  const INT_MAX := 0x7fff_ffff

  class ArrayIter {
    const data: seq<byte>
    const firstElem: nat
    const elemCount: nat
    var curIndex: int
    /** Offsets of the current element; zero before the first. */
    var elem: nat
    var elemEnd: nat
    var status: Status

    ghost predicate Valid()
      reads this
    {
      && Holds(data, ArrayKind) && elemCount == |Items(data, ArrayKind)| && firstElem == Cut(data, 0)
      && -1 <= curIndex
      && (0 <= curIndex < elemCount ==> elem == Cut(data, curIndex) && elemEnd == Cut(data, curIndex + 1))
    }

    constructor (data: seq<byte>)
      requires Holds(data, ArrayKind)
      ensures Valid() && this.data == data && curIndex == -1 && status == IterOk
    {
      hide Decode, DecodeAll, TypeOf;
      Opened(data, ArrayKind);
      CutsSpan(data, ArrayKind);
      this.data, firstElem, elemCount := data, |data| - |ReadToken(data).rest|, ReadToken(data).val.count;
      curIndex, elem, elemEnd, status := -1, 0, 0, IterOk;
    }

    /** Moves to the next element; the index is a C int. */
    method Next() returns (more: bool)
      requires Valid() && curIndex < INT_MAX
      modifies this`curIndex, this`elem, this`elemEnd, this`status
      ensures Valid() && curIndex == old(curIndex) + 1 && (more <==> curIndex < elemCount)
      ensures more ==> elem == Cut(data, curIndex) && elemEnd == Cut(data, curIndex + 1) && status == old(status)
      ensures !more ==> elem == old(elem) && elemEnd == old(elemEnd) && status == IterFail
    {
      hide Decode, Cut;
      curIndex := curIndex + 1;
      if curIndex >= elemCount {
        status := IterFail;
        return false;
      }
      elem := if curIndex == 0 then firstElem else elemEnd;
      ChildAt(data, ArrayKind, curIndex);
      elemEnd := |data| - |Decode(data[elem..]).rest|;
      return true;
    }

    method Rewind()
      requires Valid()
      modifies this`curIndex, this`elem, this`elemEnd, this`status
      ensures Valid() && curIndex == -1 && elem == 0 && elemEnd == 0 && status == IterOk
    {
      curIndex, elem, elemEnd, status := -1, 0, 0, IterOk;
    }
  }

  /** An iterator over the array in data; null if data is no array. */
  method IterArray(data: seq<byte>) returns (it: ArrayIter?)
    ensures it == null <==> !Holds(data, ArrayKind)
    ensures it != null ==> it.Valid() && it.data == data && it.curIndex == -1 && it.status == IterOk && fresh(it)
  {
    hide ReadToken, TypeOf;
    if Decode(data).Bad? {
      return null;
    }
    TypeOfTag(data);
    if TypeOf(data[0]) != MpArray {
      return null;
    }
    it := new ArrayIter(data);
  }

  /** A pass over an array that no pass has started on, or that was rewound since,
      yields all the children in order. */
  method ArrayPass(it: ArrayIter) returns (elems: seq<seq<byte>>)
    requires it.Valid() && it.curIndex == -1 && it.elemCount <= INT_MAX
    modifies it`curIndex, it`elem, it`elemEnd, it`status
    ensures it.Valid() && it.status == IterFail
    ensures elems == Slices(it.data, it.elemCount)
  {
    hide Holds, Cut;
    elems := [];
    var more := it.Next();
    while more
      invariant it.Valid() && 0 <= it.curIndex <= it.elemCount
      invariant more <==> it.curIndex < it.elemCount
      invariant more ==> it.elem == Cut(it.data, it.curIndex) && it.elemEnd == Cut(it.data, it.curIndex + 1)
      invariant !more ==> it.status == IterFail
      invariant elems == Slices(it.data, it.curIndex)
      decreases it.elemCount - it.curIndex
    {
      ChildAt(it.data, ArrayKind, it.curIndex);
      elems := elems + [it.data[it.elem..it.elemEnd]];
      more := it.Next();
    }
  }

  // ----- maps -----

  class MapIter {
    const data: seq<byte>
    const firstKey: nat
    const pairCount: nat
    var curIndex: int
    /** Offsets of the current pair; zero before the first. */
    var key: nat
    var keyEnd: nat
    var value: nat
    var valueEnd: nat
    var status: Status

    /** The offsets are those of pair k. */
    ghost predicate At(k: nat)
      reads this
    {
      && key == Cut(data, 2 * k) && keyEnd == Cut(data, 2 * k + 1)
      && value == keyEnd && valueEnd == Cut(data, 2 * k + 2)
    }

    ghost predicate Valid()
      reads this
    {
      && Holds(data, MapKind) && 2 * pairCount == |Items(data, MapKind)| && firstKey == Cut(data, 0)
      && -1 <= curIndex && (0 <= curIndex < pairCount ==> At(curIndex))
    }

    constructor (data: seq<byte>)
      requires Holds(data, MapKind)
      ensures Valid() && this.data == data && curIndex == -1 && status == IterOk
    {
      hide Decode, DecodeAll, TypeOf;
      Opened(data, MapKind);
      CutsSpan(data, MapKind);
      this.data, firstKey, pairCount := data, |data| - |ReadToken(data).rest|, ReadToken(data).val.count;
      curIndex, key, keyEnd, value, valueEnd, status := -1, 0, 0, 0, 0, IterOk;
    }

    method Next() returns (more: bool)
      requires Valid() && curIndex < INT_MAX
      modifies this`curIndex, this`key, this`keyEnd, this`value, this`valueEnd, this`status
      ensures Valid() && curIndex == old(curIndex) + 1 && (more <==> curIndex < pairCount)
      ensures more ==> At(curIndex) && status == old(status)
      ensures !more ==> status == IterFail &&
                        (key, keyEnd, value, valueEnd) == old((key, keyEnd, value, valueEnd))
    {
      hide Decode, Cut;
      curIndex := curIndex + 1;
      if curIndex >= pairCount {
        status := IterFail;
        return false;
      }
      key := if curIndex == 0 then firstKey else valueEnd;
      ChildAt(data, MapKind, 2 * curIndex);
      keyEnd := |data| - |Decode(data[key..]).rest|;
      value := keyEnd;
      ChildAt(data, MapKind, 2 * curIndex + 1);
      valueEnd := |data| - |Decode(data[value..]).rest|;
      return true;
    }

    method Rewind()
      requires Valid()
      modifies this`curIndex, this`key, this`keyEnd, this`value, this`valueEnd, this`status
      ensures Valid() && curIndex == -1 && status == IterOk
      ensures (key, keyEnd, value, valueEnd) == (0, 0, 0, 0)
    {
      curIndex, key, keyEnd, value, valueEnd, status := -1, 0, 0, 0, 0, IterOk;
    }
  }

  /** An iterator over the map in data; null if data is no map. */
  method IterMap(data: seq<byte>) returns (it: MapIter?)
    ensures it == null <==> !Holds(data, MapKind)
    ensures it != null ==> it.Valid() && it.data == data && it.curIndex == -1 && it.status == IterOk && fresh(it)
  {
    hide ReadToken, TypeOf;
    if Decode(data).Bad? {
      return null;
    }
    TypeOfTag(data);
    if TypeOf(data[0]) != MpMap {
      return null;
    }
    it := new MapIter(data);
  }

  lemma PairSlices(data: seq<byte>, k: nat)
    requires Holds(data, MapKind) && 2 * k + 1 < |Items(data, MapKind)|
    ensures Cut(data, 2 * k) <= Cut(data, 2 * k + 1) <= Cut(data, 2 * k + 2) <= |data|
    ensures Slices(data, 2 * k)
            + [data[Cut(data, 2 * k)..Cut(data, 2 * k + 1)], data[Cut(data, 2 * k + 1)..Cut(data, 2 * k + 2)]]
         == Slices(data, 2 * (k + 1))
  {
    hide Holds, Decode, Cut;
    ChildAt(data, MapKind, 2 * k);
    ChildAt(data, MapKind, 2 * k + 1);
  }

  /** A pass over a map yields its keys and values in turn. */
  method MapPass(it: MapIter) returns (pairs: seq<seq<byte>>)
    requires it.Valid() && it.curIndex == -1 && it.pairCount <= INT_MAX
    modifies it`curIndex, it`key, it`keyEnd, it`value, it`valueEnd, it`status
    ensures it.Valid() && it.status == IterFail
    ensures pairs == Slices(it.data, 2 * it.pairCount)
  {
    hide Holds, Cut, Slices;
    assert Slices(it.data, 0) == [];
    pairs := [];
    var more := it.Next();
    while more
      invariant it.Valid() && 0 <= it.curIndex <= it.pairCount
      invariant more <==> it.curIndex < it.pairCount
      invariant more ==> it.At(it.curIndex)
      invariant !more ==> it.status == IterFail
      invariant pairs == Slices(it.data, 2 * it.curIndex)
      decreases it.pairCount - it.curIndex
    {
      PairSlices(it.data, it.curIndex);
      pairs := pairs + [it.data[it.key..it.keyEnd], it.data[it.value..it.valueEnd]];
      more := it.Next();
    }
  }

  /** A pass, a rewind and another pass see the same elements. */
  method PassTwice(it: ArrayIter) returns (first: seq<seq<byte>>, second: seq<seq<byte>>)
    requires it.Valid() && it.curIndex == -1 && it.elemCount <= INT_MAX
    modifies it`curIndex, it`elem, it`elemEnd, it`status
    ensures first == second == Slices(it.data, it.elemCount)
  {
    first := ArrayPass(it);
    it.Rewind();
    second := ArrayPass(it);
  }
}
