/**
 * The MessagePack object builder on values: what each call does to the buffer
 * and to the stack of open containers.
 */
module ObjectSpec {
  import opened Bytes
  import opened MsgPack
  import opened MsgPackLaws

  datatype Mode = Simple | Sparse | Packed

  /** An open container: where its header starts and how many values it holds so
      far, a 32-bit count. */
  datatype Frame = Frame(offset: nat, size: nat, kind: Kind)

  datatype Obj = Obj(bytes: seq<byte>, frames: seq<Frame>, cap: nat, mode: Mode, wrcnt: nat)

  const MAX_STACK := 128

  function StyleOf(mode: Mode): Style {
    if mode.Sparse? then Wide else Shortest
  }

  /** Counts one more value in the innermost open container. */
  function Bump(frames: seq<Frame>): (r: seq<Frame>)
    ensures |r| == |frames|
  {
    if frames == [] then []
    else
      var last := frames[|frames| - 1];
      frames[|frames| - 1 := last.(size := (last.size + 1) % U32)]
  }

  function Append(o: Obj, chunk: seq<byte>): Obj {
    o.(bytes := o.bytes + chunk, wrcnt := (o.wrcnt + 1) % U32)
  }

  function AddScalar(o: Obj, chunk: seq<byte>): Obj {
    Append(o.(frames := Bump(o.frames)), chunk)
  }

  /** The header a container opens with. */
  function Placeholder(mode: Mode, kind: Kind, declared: nat): (s: seq<byte>)
    ensures mode.Packed? ==> |s| == 1
    ensures mode.Sparse? ==> |s| == 5
    ensures |s| > 0
  {
    ContainerHead(StyleOf(mode), kind, if mode.Simple? then declared else 0)
  }

  function Push(o: Obj, kind: Kind, declared: nat): Obj {
    Append(o.(frames := o.frames + [Frame(|o.bytes|, 0, kind)]), Placeholder(o.mode, kind, declared))
  }

  /** Opens a container. A full stack is replaced by one of twice the capacity
      whose old part is whatever the new memory holds (junk); at 128 the call
      is refused, after the parent has counted the child. */
  function OpenContainer(o: Obj, kind: Kind, declared: nat, junk: seq<Frame>): (Obj, int) {
    var counted := o.(frames := Bump(o.frames));
    var rv := |Placeholder(o.mode, kind, declared)|;
    if |o.frames| < o.cap then (Push(counted, kind, declared), rv)
    else if o.cap == MAX_STACK then (counted, -1)
    else (Push(counted.(frames := junk, cap := 2 * o.cap), kind, declared), rv)
  }

  function Top(o: Obj): Frame
    requires o.frames != []
  {
    o.frames[|o.frames| - 1]
  }

  function Pop(o: Obj): Obj
    requires o.frames != []
  {
    o.(frames := o.frames[..|o.frames| - 1])
  }

  predicate CloseRefused(o: Obj) {
    o.frames == [] || (Top(o).kind.MapKind? && Top(o).size % 2 == 1)
  }

  /** The header that a close rewrites lies inside the buffer. */
  predicate CloseSafe(o: Obj) {
    o.frames != [] && !o.mode.Simple? ==>
      Top(o).offset + |Placeholder(o.mode, Top(o).kind, 0)| <= |o.bytes|
  }

  function CloseContainer(o: Obj): (Obj, int)
    requires CloseSafe(o)
  {
    if CloseRefused(o) then (o, -1)
    else if o.mode.Simple? then (Pop(o), 0)
    else
      var f := Top(o);
      var head := ContainerHead(StyleOf(o.mode), f.kind, Count(f.kind, f.size));
      var body := f.offset + |Placeholder(o.mode, f.kind, 0)|;
      (Pop(o).(bytes := o.bytes[..f.offset] + head + o.bytes[body..]), 0)
  }

  /** 0 exactly if the buffer is one MessagePack value of the requested type. */
  function Verify(bytes: seq<byte>, want: Option<MpType>): (rc: int)
    ensures rc == 0 || rc == -1
    ensures rc == 0 <==>
      exists v: Value :: Decode(bytes) == Got(v, []) && (want.Some? ==> ValueType(v) == want.value)
  {
    if bytes == [] then -1
    else if want.Some? && TypeOf(bytes[0]) != want.value then
      (if Decode(bytes).Got? then TypeOfTag(bytes); -1 else -1)
    else match Decode(bytes)
      case Bad => -1
      case Got(_, rest) => TypeOfTag(bytes); if rest == [] then 0 else -1
  }
}
