/**
 * The invariant of the object builder. In every reachable state the buffer is
 * the encoding of a forest of values in which each open container is a
 * placeholder header followed by its finished children, and the stack records
 * where those placeholders are and how many children each has.
 */
module ObjectLaws {
  import opened Bytes
  import opened MsgPack
  import opened MsgPackLaws
  import opened ObjectSpec

  /** An open container and the children that are already complete. */
  datatype Level = Level(kind: Kind, declared: nat, kids: seq<Value>)

  datatype Forest = Forest(top: seq<Value>, open: seq<Level>)

  const EMPTY := Forest([], [])

  predicate LevelOk(l: Level) {
    l.declared < U32 && AllWellFormed(l.kids)
  }

  predicate ForestOk(f: Forest) {
    AllWellFormed(f.top) && forall l | l in f.open :: LevelOk(l)
  }

  function Inner(f: Forest): (l: Level)
    requires f.open != []
    ensures ForestOk(f) ==> LevelOk(l)
  {
    f.open[|f.open| - 1]
  }

  function Outer(f: Forest): (g: Forest)
    requires f.open != []
    ensures ForestOk(f) ==> ForestOk(g)
  {
    f.(open := f.open[..|f.open| - 1])
  }

  /** The bytes of a forest under construction. */
  function Layout(mode: Mode, f: Forest): seq<byte>
    requires ForestOk(f)
    decreases |f.open|
  {
    if f.open == [] then EncodeAll(StyleOf(mode), f.top)
    else
      var l := Inner(f);
      Layout(mode, Outer(f)) + Placeholder(mode, l.kind, l.declared) + EncodeAll(StyleOf(mode), l.kids)
  }

  /** The stack of a forest under construction. */
  function FramesOf(mode: Mode, f: Forest): (r: seq<Frame>)
    requires ForestOk(f)
    ensures |r| == |f.open|
    decreases |f.open|
  {
    if f.open == [] then []
    else
      Bump(FramesOf(mode, Outer(f)))
        + [Frame(|Layout(mode, Outer(f))|, |Inner(f).kids| % U32, Inner(f).kind)]
  }

  /** The builder invariant. */
  predicate Represents(o: Obj, f: Forest) {
    ForestOk(f) && o.bytes == Layout(o.mode, f) && o.frames == FramesOf(o.mode, f)
  }

  function AddValue(f: Forest, v: Value): (g: Forest)
    requires WellFormed(v)
    ensures ForestOk(f) ==> ForestOk(g)
    ensures |g.open| == |f.open|
  {
    if f.open == [] then f.(top := f.top + [v])
    else
      var l := Inner(f).(kids := Inner(f).kids + [v]);
      assert ForestOk(f) ==> LevelOk(l);
      f.(open := Outer(f).open + [l])
  }

  function OpenLevel(f: Forest, kind: Kind, declared: nat): (g: Forest)
    requires declared < U32
    ensures ForestOk(f) ==> ForestOk(g)
  {
    f.(open := f.open + [Level(kind, declared, [])])
  }

  /** The value that closing the innermost container completes. */
  function Finished(f: Forest): Value
    requires f.open != []
  {
    Node(Inner(f).kind, Inner(f).kids)
  }

  function CloseLevel(f: Forest): (g: Forest)
    requires f.open != [] && WellFormed(Finished(f))
    ensures ForestOk(f) ==> ForestOk(g)
  {
    AddValue(Outer(f), Finished(f))
  }

  // ----- each call keeps the invariant -----

  lemma AddValueInner(f: Forest, v: Value)
    requires ForestOk(f) && WellFormed(v) && f.open != []
    ensures var g := AddValue(f, v);
      g.open != [] && Outer(g) == Outer(f) && Inner(g) == Inner(f).(kids := Inner(f).kids + [v])
  {
  }

  lemma Assoc(a: seq<byte>, b: seq<byte>, c: seq<byte>)
    ensures a + (b + c) == (a + b) + c
  {
  }

  lemma LayoutStep(mode: Mode, outer: Forest, l: Level, f: Forest)
    requires ForestOk(f) && f.open != [] && Outer(f) == outer && Inner(f) == l && ForestOk(outer)
    ensures Layout(mode, f) == Layout(mode, outer) + Placeholder(mode, l.kind, l.declared)
      + EncodeAll(StyleOf(mode), l.kids)
    ensures FramesOf(mode, f) == Bump(FramesOf(mode, outer))
      + [Frame(|Layout(mode, outer)|, |l.kids| % U32, l.kind)]
  {
  }

  lemma BumpSnoc(frames: seq<Frame>, offset: nat, n: nat, kind: Kind)
    ensures Bump(frames + [Frame(offset, n % U32, kind)]) == frames + [Frame(offset, (n + 1) % U32, kind)]
  {
    assert (n % U32 + 1) % U32 == (n + 1) % U32;
  }

  lemma AddToInner(mode: Mode, outer: Forest, l: Level, f: Forest, v: Value)
    requires ForestOk(f) && f.open != [] && Outer(f) == outer && Inner(f) == l && ForestOk(outer)
    requires WellFormed(v)
    ensures Layout(mode, AddValue(f, v)) == Layout(mode, f) + Encode(StyleOf(mode), v)
    ensures FramesOf(mode, AddValue(f, v)) == Bump(FramesOf(mode, f))
  {
    AddValueInner(f, v);
    LayoutStep(mode, outer, l, f);
    LayoutStep(mode, outer, l.(kids := l.kids + [v]), AddValue(f, v));
    EncodeAllSnoc(StyleOf(mode), l.kids, v);
    BumpSnoc(Bump(FramesOf(mode, outer)), |Layout(mode, outer)|, |l.kids|, l.kind);
    Assoc(Layout(mode, outer) + Placeholder(mode, l.kind, l.declared),
          EncodeAll(StyleOf(mode), l.kids), Encode(StyleOf(mode), v));
  }

  /** Completing one more value appends its encoding and counts it. */
  lemma AddValueLayout(mode: Mode, f: Forest, v: Value)
    requires ForestOk(f) && WellFormed(v)
    ensures Layout(mode, AddValue(f, v)) == Layout(mode, f) + Encode(StyleOf(mode), v)
    ensures FramesOf(mode, AddValue(f, v)) == Bump(FramesOf(mode, f))
  {
    if f.open == [] {
      EncodeAllSnoc(StyleOf(mode), f.top, v);
    } else {
      AddToInner(mode, Outer(f), Inner(f), f, v);
    }
  }

  lemma ScalarKeeps(o: Obj, f: Forest, v: Value)
    requires Represents(o, f) && WellFormed(v) && !v.Node?
    ensures Represents(AddScalar(o, Encode(Shortest, v)), AddValue(f, v))
  {
    AddValueLayout(o.mode, f, v);
  }

  lemma OpenKeeps(o: Obj, f: Forest, kind: Kind, declared: nat, junk: seq<Frame>)
    requires Represents(o, f) && declared < U32 && |o.frames| < o.cap
    ensures Represents(OpenContainer(o, kind, declared, junk).0, OpenLevel(f, kind, declared))
  {
    var g := OpenLevel(f, kind, declared);
    assert Outer(g) == f && Inner(g) == Level(kind, declared, []);
    var o' := OpenContainer(o, kind, declared, junk).0;
    assert o'.bytes == o.bytes + Placeholder(o.mode, kind, declared);
    assert Layout(o.mode, g) == Layout(o.mode, f) + Placeholder(o.mode, kind, declared) + [];
  }

  /** What opening a container writes, and returns the number of: one byte in packed mode,
      five in sparse mode, and in simple mode the shortest header of the declared size. */
  lemma OpenWrites(o: Obj, kind: Kind, declared: nat, junk: seq<Frame>)
    requires declared < 0x1_0000_0000 && |o.frames| < o.cap
    ensures var (o', rv) := OpenContainer(o, kind, declared, junk);
      var head := if kind.MapKind? then (0x80, 0xde, 0xdf) else (0x90, 0xdc, 0xdd);
      && |o'.bytes| == |o.bytes| + rv
      && o'.bytes == o.bytes + match o.mode
         case Packed => [head.0]
         case Sparse => [head.2, 0, 0, 0, 0]
         case Simple =>
           if declared < 16 then [head.0 + declared]
           else if declared < 0x1_0000 then [head.1] + BE(declared, 2)
           else [head.2] + BE(declared, 4)
  {
    hide Placeholder, BE, Bump;
    PlaceholderIs(o.mode, kind, declared);
  }

  lemma PlaceholderIs(mode: Mode, kind: Kind, declared: nat)
    requires declared < 0x1_0000_0000
    ensures var head := if kind.MapKind? then (0x80, 0xde, 0xdf) else (0x90, 0xdc, 0xdd);
      Placeholder(mode, kind, declared) == match mode
        case Packed => [head.0]
        case Sparse => [head.2, 0, 0, 0, 0]
        case Simple =>
          if declared < 16 then [head.0 + declared]
          else if declared < 0x1_0000 then [head.1] + BE(declared, 2)
          else [head.2] + BE(declared, 4)
  {
    hide BE;
    FourZeros();
  }

  lemma FourZeros()
    ensures BE(0, 4) == [0, 0, 0, 0]
  {
    assert BE(0, 1) == [0] && BE(0, 2) == [0, 0] && BE(0, 3) == [0, 0, 0];
  }

  /** The innermost frame finds its placeholder and its number of children. */
  lemma TopFrame(o: Obj, f: Forest)
    requires Represents(o, f) && f.open != []
    ensures o.frames != []
    ensures Top(o) == Frame(|Layout(o.mode, Outer(f))|, |Inner(f).kids| % U32, Inner(f).kind)
    ensures CloseSafe(o)
  {
  }

  /** What a close that is not refused leaves in the buffer. */
  lemma CloseBytes(o: Obj, f: Forest)
    requires Represents(o, f) && f.open != [] && !CloseRefused(o)
    ensures CloseSafe(o)
    ensures CloseContainer(o).0.frames == FramesOf(o.mode, f)[..|f.open| - 1]
    ensures CloseContainer(o).0.mode == o.mode && CloseContainer(o).1 == 0
    ensures var l := Inner(f);
      CloseContainer(o).0.bytes == Layout(o.mode, Outer(f))
        + ContainerHead(StyleOf(o.mode), l.kind,
                        if o.mode.Simple? then l.declared else Count(l.kind, |l.kids| % U32))
        + EncodeAll(StyleOf(o.mode), l.kids)
  {
    TopFrame(o, f);
    var l := Inner(f);
    var a, b, c := Layout(o.mode, Outer(f)), Placeholder(o.mode, l.kind, l.declared),
      EncodeAll(StyleOf(o.mode), l.kids);
    assert o.bytes == a + b + c;
    assert (a + b + c)[..|a|] == a;
    assert (a + b + c)[|a| + |b|..] == c;
  }

  /** What the buffer must be for the closed forest. */
  lemma ClosedLayout(mode: Mode, f: Forest)
    requires ForestOk(f) && f.open != [] && WellFormed(Finished(f))
    ensures var l := Inner(f);
      Layout(mode, CloseLevel(f)) == Layout(mode, Outer(f))
        + ContainerHead(StyleOf(mode), l.kind, Count(l.kind, |l.kids|)) + EncodeAll(StyleOf(mode), l.kids)
    ensures FramesOf(mode, CloseLevel(f)) == FramesOf(mode, f)[..|f.open| - 1]
  {
    var l := Inner(f);
    AddValueLayout(mode, Outer(f), Finished(f));
    var a, b, c := Layout(mode, Outer(f)), ContainerHead(StyleOf(mode), l.kind, Count(l.kind, |l.kids|)),
      EncodeAll(StyleOf(mode), l.kids);
    assert a + (b + c) == a + b + c;
  }

  lemma HeadInjective(style: Style, kind: Kind, m: nat, n: nat, t: seq<byte>)
    requires m < U32 && n < U32 && m != n
    ensures ContainerHead(style, kind, m) + t != ContainerHead(style, kind, n) + t
  {
    ReadContainerHead(style, kind, m, t);
    ReadContainerHead(style, kind, n, t);
  }

  /** The header a close writes (or, in Simple mode, leaves) is the right one. */
  predicate CountsRight(mode: Mode, l: Level) {
    if mode.Simple? then l.declared == Count(l.kind, |l.kids|) else |l.kids| < U32
  }

  /** An accepted close completes the container exactly if its count came out
      right: the declared one in Simple mode, a 32-bit one otherwise. */
  lemma CloseExact(o: Obj, f: Forest)
    requires Represents(o, f) && f.open != [] && WellFormed(Finished(f))
    ensures !CloseRefused(o) && CloseSafe(o)
    ensures Represents(CloseContainer(o).0, CloseLevel(f)) <==> CountsRight(o.mode, Inner(f))
  {
    hide Layout, FramesOf, EncodeAll, ContainerHead;
    TopFrame(o, f);
    var l := Inner(f);
    CloseBytes(o, f);
    ClosedLayout(o.mode, f);
    if !CountsRight(o.mode, l) {
      var m := if o.mode.Simple? then l.declared else Count(l.kind, |l.kids| % U32);
      var n := Count(l.kind, |l.kids|);
      var a, t := Layout(o.mode, Outer(f)), EncodeAll(StyleOf(o.mode), l.kids);
      HeadInjective(StyleOf(o.mode), l.kind, m, n, t);
      SamePrefix(a, ContainerHead(StyleOf(o.mode), l.kind, m), ContainerHead(StyleOf(o.mode), l.kind, n), t);
    }
  }

  lemma SamePrefix(a: seq<byte>, b: seq<byte>, c: seq<byte>, t: seq<byte>)
    requires b + t != c + t
    ensures a + b + t != a + c + t
  {
    assert (a + b + t)[|a|..] == b + t;
    assert (a + c + t)[|a|..] == c + t;
  }

  lemma ParityMod(n: nat)
    ensures n % U32 % 2 == n % 2
  {
    assert n % U32 == n - U32 * (n / U32);
  }

  /** A refused close changes nothing, and it is refused for an empty stack or
      for a map with a key that lacks its value. */
  lemma CloseRefusal(o: Obj, f: Forest)
    requires Represents(o, f)
    ensures CloseSafe(o)
    ensures CloseContainer(o).1 == -1 <==>
      f.open == [] || (Inner(f).kind.MapKind? && |Inner(f).kids| % 2 == 1)
    ensures CloseContainer(o).1 == -1 ==> CloseContainer(o).0 == o
  {
    if f.open != [] {
      TopFrame(o, f);
      ParityMod(|Inner(f).kids|);
    }
  }

  /** Opening a container keeps the invariant whatever fresh memory holds
      exactly if the stack is not full. */
  lemma OpenExact(o: Obj, f: Forest, kind: Kind, declared: nat)
    requires Represents(o, f) && declared < U32 && 0 < |o.frames| <= o.cap
    ensures (forall junk: seq<Frame> | |junk| == |o.frames| ::
              Represents(OpenContainer(o, kind, declared, junk).0, OpenLevel(f, kind, declared)))
       <==> |o.frames| < o.cap
  {
    if |o.frames| < o.cap {
      forall junk: seq<Frame> | |junk| == |o.frames|
        ensures Represents(OpenContainer(o, kind, declared, junk).0, OpenLevel(f, kind, declared))
      {
        OpenKeeps(o, f, kind, declared, junk);
      }
    } else {
      var junk := GrowthLoses(o, f, kind, declared);
    }
  }

  /** A growing stack loses its frames for some contents of the new memory. */
  lemma GrowthLoses(o: Obj, f: Forest, kind: Kind, declared: nat) returns (junk: seq<Frame>)
    requires Represents(o, f) && declared < U32 && 0 < |o.frames| == o.cap
    ensures |junk| == |o.frames|
    ensures !Represents(OpenContainer(o, kind, declared, junk).0, OpenLevel(f, kind, declared))
  {
    var bumped := Bump(o.frames);
    junk := bumped[0 := bumped[0].(offset := bumped[0].offset + 1)];
    var g, o' := OpenLevel(f, kind, declared), OpenContainer(o, kind, declared, junk).0;
    assert Outer(g) == f;
    assert FramesOf(o.mode, g)[0] == bumped[0];
    assert |FramesOf(o.mode, g)| == |bumped| + 1;
    if o.cap == MAX_STACK {
      assert |o'.frames| == |bumped|;
    } else {
      assert o'.frames[0] == junk[0];
    }
  }
}
