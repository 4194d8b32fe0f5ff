/** Whole runs of the object builder: any list of calls, in any of the three
    packing modes. */
module ObjectRuns {
  import opened Bytes
  import opened MsgPack
  import opened MsgPackLaws
  import opened ObjectSpec
  import opened ObjectLaws
  import ObjectStream

  datatype Call = Scalar(v: Value) | Begin(kind: Kind, declared: nat) | End

  /** What the C types of the calls allow. */
  predicate CallOk(c: Call) {
    match c
    case Scalar(v) => WellFormed(v) && !v.Node?
    case Begin(_, declared) => declared < U32
    case End => true
  }

  predicate AllOk(calls: seq<Call>) {
    forall c | c in calls :: CallOk(c)
  }

  /** One call, or None where it would write outside the buffer. */
  function Step(o: Obj, c: Call): Option<Obj>
    requires CallOk(c)
  {
    match c
    case Scalar(v) => Some(AddScalar(o, Encode(Shortest, v)))
    case Begin(kind, declared) => Some(OpenContainer(o, kind, declared, []).0)
    case End => if CloseSafe(o) then Some(CloseContainer(o).0) else None
  }

  function Run(o: Obj, calls: seq<Call>): Option<Obj>
    requires AllOk(calls)
    decreases |calls|
  {
    if calls == [] then Some(o)
    else match Step(o, calls[0])
      case None => None
      case Some(o') => Run(o', calls[1..])
  }

  /** A close that the builder answers with -1. */
  predicate NothingToClose(f: Forest) {
    f.open == [] || (Inner(f).kind.MapKind? && |Inner(f).kids| % 2 == 1)
  }

  /** The forest after a call; None if the call opens a container on a full
      stack or completes one whose count is wrong. */
  function Grow(f: Forest, c: Call, cap: nat, mode: Mode): (r: Option<Forest>)
    requires CallOk(c) && ForestOk(f)
    ensures r.Some? ==> ForestOk(r.value)
  {
    match c
    case Scalar(v) => Some(AddValue(f, v))
    case Begin(kind, declared) => if |f.open| < cap then Some(OpenLevel(f, kind, declared)) else None
    case End =>
      if NothingToClose(f) then Some(f)
      else if CountsRight(mode, Inner(f)) && Count(Inner(f).kind, |Inner(f).kids|) < U32 then
        Some(CloseLevel(f))
      else None
  }

  function GrowAll(f: Forest, calls: seq<Call>, cap: nat, mode: Mode): (r: Option<Forest>)
    requires AllOk(calls) && ForestOk(f)
    ensures r.Some? ==> ForestOk(r.value)
    decreases |calls|
  {
    if calls == [] then Some(f)
    else match Grow(f, calls[0], cap, mode)
      case None => None
      case Some(g) => GrowAll(g, calls[1..], cap, mode)
  }

  lemma StepKeeps(o: Obj, f: Forest, c: Call)
    requires Represents(o, f) && CallOk(c) && Grow(f, c, o.cap, o.mode).Some?
    ensures Step(o, c).Some?
    ensures Represents(Step(o, c).value, Grow(f, c, o.cap, o.mode).value)
    ensures Step(o, c).value.cap == o.cap && Step(o, c).value.mode == o.mode
  {
    match c
    case Scalar(v) => ScalarKeeps(o, f, v);
    case Begin(kind, declared) => OpenKeeps(o, f, kind, declared, []);
    case End =>
      CloseRefusal(o, f);
      if !NothingToClose(f) {
        CloseExact(o, f);
      }
  }

  /** Every run whose containers fit the stack and are counted right keeps the
      builder invariant, refused closes included. */
  lemma {:induction false} RunKeeps(o: Obj, f: Forest, calls: seq<Call>)
    requires Represents(o, f) && AllOk(calls) && GrowAll(f, calls, o.cap, o.mode).Some?
    ensures Run(o, calls).Some?
    ensures Represents(Run(o, calls).value, GrowAll(f, calls, o.cap, o.mode).value)
    ensures Run(o, calls).value.mode == o.mode
    decreases |calls|
  {
    if calls != [] {
      StepKeeps(o, f, calls[0]);
      RunKeeps(Step(o, calls[0]).value, Grow(f, calls[0], o.cap, o.mode).value, calls[1..]);
    }
  }

  function Fresh(cap: nat, mode: Mode): Obj {
    Obj([], [], cap, mode, 0)
  }

  /** A balanced run leaves the encoding of the values it describes, which
      decodes to exactly those values. */
  lemma BalancedRun(cap: nat, mode: Mode, calls: seq<Call>, values: seq<Value>)
    requires AllOk(calls) && GrowAll(EMPTY, calls, cap, mode) == Some(Forest(values, []))
    ensures AllWellFormed(values)
    ensures Run(Fresh(cap, mode), calls).Some?
    ensures var o := Run(Fresh(cap, mode), calls).value;
      && o.frames == []
      && o.bytes == EncodeAll(if mode.Sparse? then Wide else Shortest, values)
      && DecodeAll(o.bytes, |values|) == Got(values, [])
  {
    RunKeeps(Fresh(cap, mode), EMPTY, calls);
    DecodeAllOfEncodeAll(StyleOf(mode), values, []);
    assert EncodeAll(StyleOf(mode), values) + [] == EncodeAll(StyleOf(mode), values);
  }

  /** In packed and in simple mode nothing that decodes to the values is shorter. */
  lemma BalancedRunShortest(cap: nat, mode: Mode, calls: seq<Call>, values: seq<Value>, s: seq<byte>)
    requires AllOk(calls) && GrowAll(EMPTY, calls, cap, mode) == Some(Forest(values, []))
    requires !mode.Sparse? && DecodeAll(s, |values|) == Got(values, [])
    ensures Run(Fresh(cap, mode), calls).Some? && |Run(Fresh(cap, mode), calls).value.bytes| <= |s|
  {
    BalancedRun(cap, mode, calls, values);
    ShortestForms(s, |values|);
  }

  lemma {:induction false} ModesGrowAlike(f: Forest, calls: seq<Call>, cap: nat, m: Mode, n: Mode)
    requires AllOk(calls) && ForestOk(f)
    requires GrowAll(f, calls, cap, m).Some? && GrowAll(f, calls, cap, n).Some?
    ensures GrowAll(f, calls, cap, m) == GrowAll(f, calls, cap, n)
    decreases |calls|
  {
    if calls != [] {
      ModesGrowAlike(Grow(f, calls[0], cap, m).value, calls[1..], cap, m, n);
    }
  }

  /** The same balanced calls in two modes leave buffers that decode alike. */
  lemma ModesAgree(cap: nat, calls: seq<Call>, m: Mode, n: Mode, values: seq<Value>)
    requires AllOk(calls) && GrowAll(EMPTY, calls, cap, n).Some?
    requires GrowAll(EMPTY, calls, cap, m) == Some(Forest(values, []))
    ensures Run(Fresh(cap, m), calls).Some? && Run(Fresh(cap, n), calls).Some?
    ensures DecodeAll(Run(Fresh(cap, m), calls).value.bytes, |values|)
         == DecodeAll(Run(Fresh(cap, n), calls).value.bytes, |values|) == Got(values, [])
  {
    ModesGrowAlike(EMPTY, calls, cap, m, n);
    BalancedRun(cap, m, calls, values);
    BalancedRun(cap, n, calls, values);
  }

  /** verify accepts the result of a run exactly if it built one value, and that of the
      type asked for. */
  lemma VerifyAccepts(cap: nat, mode: Mode, calls: seq<Call>, values: seq<Value>, want: Option<MpType>)
    requires AllOk(calls) && GrowAll(EMPTY, calls, cap, mode) == Some(Forest(values, []))
    ensures Run(Fresh(cap, mode), calls).Some?
    ensures Verify(Run(Fresh(cap, mode), calls).value.bytes, want) == 0
       <==> |values| == 1 && (want.Some? ==> want.value == ValueType(values[0]))
  {
    BalancedRun(cap, mode, calls, values);
    if values != [] {
      var style: Style := if mode.Sparse? then Wide else Shortest;
      FirstDecodes(style, values);
    }
  }

  lemma FirstDecodes(style: Style, values: seq<Value>)
    requires AllWellFormed(values) && values != []
    ensures Decode(EncodeAll(style, values)).Got? && Decode(EncodeAll(style, values)).val == values[0]
    ensures Decode(EncodeAll(style, values)).rest == [] <==> |values| == 1
  {
    hide Decode, Encode;
    var rest := EncodeAll(style, values[1..]);
    DecodeOfEncode(style, values[0], rest);
    if |values| == 1 {
      assert values[1..] == [];
    }
  }

  /** The bytes of s from at on start with p. */
  predicate HasAt(s: seq<byte>, at: nat, p: seq<byte>) {
    at + |p| <= |s| && s[at..at + |p|] == p
  }

  lemma HasAtExtends(s: seq<byte>, at: nat, p: seq<byte>, t: seq<byte>)
    requires HasAt(s, at, p)
    ensures HasAt(s + t, at, p)
  {
    assert (s + t)[at..at + |p|] == s[at..at + |p|];
  }

  /** The open containers' placeholders stand at strictly increasing offsets. */
  lemma {:induction false} FrameOffsets(mode: Mode, f: Forest, i: nat)
    requires ForestOk(f) && i < |f.open|
    ensures HasAt(Layout(mode, f), FramesOf(mode, f)[i].offset,
                  Placeholder(mode, f.open[i].kind, f.open[i].declared))
    ensures i > 0 ==> FramesOf(mode, f)[i - 1].offset < FramesOf(mode, f)[i].offset
    decreases |f.open|
  {
    hide Placeholder, EncodeAll, Layout;
    var outer, l := Outer(f), Inner(f);
    LayoutStep(mode, outer, l, f);
    var a, b, c := Layout(mode, outer), Placeholder(mode, l.kind, l.declared), EncodeAll(StyleOf(mode), l.kids);
    if i == |f.open| - 1 {
      assert (a + b)[|a|..] == b;
      HasAtExtends(a + b, |a|, b, c);
      if i > 0 {
        FrameOffsets(mode, outer, i - 1);
      }
    } else {
      FrameOffsets(mode, outer, i);
      var p := Placeholder(mode, f.open[i].kind, f.open[i].declared);
      HasAtExtends(a, FramesOf(mode, outer)[i].offset, p, b);
      HasAtExtends(a + b, FramesOf(mode, outer)[i].offset, p, c);
    }
  }

  /** Each frame counts its finished children, and the container open inside it. */
  lemma {:induction false} FrameCounts(mode: Mode, f: Forest, i: nat)
    requires ForestOk(f) && i < |f.open|
    ensures FramesOf(mode, f)[i].kind == f.open[i].kind
    ensures FramesOf(mode, f)[i].size == (|f.open[i].kids| + if i + 1 < |f.open| then 1 else 0) % U32
    decreases |f.open|
  {
    hide Layout, Placeholder, EncodeAll;
    var n := |f.open[i].kids|;
    ModStep(n);
    if i < |f.open| - 1 {
      FrameCounts(mode, Outer(f), i);
      assert FramesOf(mode, f)[i] == Bump(FramesOf(mode, Outer(f)))[i];
    }
  }

  lemma ModStep(n: nat)
    ensures (n % U32 + 1) % U32 == (n + 1) % U32
  {
  }

  /** Any list of calls made on a builder object. */
  method Replay(b: ObjectStream.Builder, calls: seq<Call>, ghost f: Forest)
    requires b.Valid() && AllOk(calls) && Represents(b.State(), f)
    requires GrowAll(f, calls, b.State().cap, b.State().mode).Some?
    modifies b.Repr()
    ensures b.Valid() && fresh(b.Repr() - old(b.Repr()))
    ensures Represents(b.State(), GrowAll(f, calls, old(b.State()).cap, old(b.State()).mode).value)
  {
    ghost var g := f;
    ghost var cap, mode := b.State().cap, b.State().mode;
    for i := 0 to |calls|
      invariant b.Valid() && fresh(b.Repr() - old(b.Repr()))
      invariant Represents(b.State(), g) && b.State().cap == cap && b.State().mode == mode
      invariant GrowAll(g, calls[i..], cap, mode) == GrowAll(f, calls, cap, mode)
    {
      StepKeeps(b.State(), g, calls[i]);
      assert calls[i..][0] == calls[i] && calls[i..][1..] == calls[i + 1..];
      MakeCall(b, calls[i]);
      g := Grow(g, calls[i], cap, mode).value;
    }
  }

  method MakeCall(b: ObjectStream.Builder, c: Call)
    requires b.Valid() && CallOk(c) && Step(b.State(), c).Some?
    requires c.Begin? ==> |b.State().frames| < b.State().cap
    modifies b.Repr()
    ensures b.Valid() && fresh(b.Repr() - old(b.Repr()))
    ensures b.State() == Step(old(b.State()), c).value
  {
    match c {
      case Scalar(v) => AddLeaf(b, v);
      case Begin(kind, declared) =>
        if kind.MapKind? {
          var rv, junk := b.AddMap(declared);
        } else {
          var rv, junk := b.AddArray(declared);
        }
      case End => var rv := b.ContainerClose();
    }
  }

  method AddLeaf(b: ObjectStream.Builder, v: Value)
    requires b.Valid() && WellFormed(v) && !v.Node?
    modifies b.Repr()
    ensures b.Valid() && fresh(b.Repr() - old(b.Repr()))
    ensures b.State() == AddScalar(old(b.State()), Encode(Shortest, v))
  {
    var rv;
    match v {
      case Nil => rv := b.AddNil();
      case Bool(flag) => rv := b.AddBool(if flag then 1 else 0);
      case UInt(n) => rv := b.AddUInt(n);
      case SInt(i) => rv := b.AddInt(i);
      case Float(bits) => rv := b.AddFloat(bits);
      case Double(bits) => rv := b.AddDouble(bits);
      case Str(raw) => rv := b.AddStr(raw);
      case Bin(raw) => rv := b.AddBin(raw);
    }
  }
}
