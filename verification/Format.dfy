/** The format-string compiler: what beer_object_vformat does with a format and
    its arguments. */
module Format {
  import opened Bytes
  import opened MsgPack
  import opened ObjectSpec
  import ObjectStream

  /** The promoted C types an integer directive takes from the argument list. */
  datatype CType = CInt | CUInt | CLong | CULong | CLLong | CULLong

  /** One variadic argument. A double comes with its images as a 4-byte float and
      as 8 bytes; a pointer with the memory it points at, up to a terminator. */
  datatype Arg =
    | Int(ctype: CType, n: int)
    | Real(narrow: seq<byte>, wide: seq<byte>)
    | Pointer(mem: seq<byte>)

  function Low(t: CType): int {
    match t
    case CInt => -0x8000_0000
    case CLong => -U63
    case CLLong => -U63
    case _ => 0
  }

  /** One past the largest value of a type. */
  function High(t: CType): int {
    match t
    case CInt => 0x8000_0000
    case CUInt => U32
    case CULong => U64
    case CULLong => U64
    case _ => U63
  }

  predicate ArgOk(a: Arg) {
    match a
    case Int(t, n) => Low(t) <= n < High(t)
    case Real(narrow, wide) => |narrow| == 4 && |wide| == 8
    case Pointer(_) => true
  }

  predicate ArgsOk(args: seq<Arg>) {
    forall i | 0 <= i < |args| :: ArgOk(args[i])
  }

  datatype Directive = DInt(t: CType) | DStr | DStrLen | DFloat | DDouble | DBool | DPercent | DBad

  function At(s: string, k: nat): char {
    if k < |s| then s[k] else '\0'
  }

  /** The directive that follows a percent sign, and its length. */
  function DirectiveOf(s: string): (Directive, nat) {
    var a, b, c := At(s, 0), At(s, 1), At(s, 2);
    if a == 'd' || a == 'i' then (DInt(CInt), 1)
    else if a == 'u' then (DInt(CUInt), 1)
    else if a == 's' then (DStr, 1)
    else if a == '.' && b == '*' && c == 's' then (DStrLen, 3)
    else if a == 'f' then (DFloat, 1)
    else if a == 'l' && b == 'f' then (DDouble, 2)
    else if a == 'b' then (DBool, 1)
    else if a == 'l' && (b == 'd' || b == 'i') then (DInt(CLong), 2)
    else if a == 'l' && b == 'u' then (DInt(CULong), 2)
    else if a == 'l' && b == 'l' && (c == 'd' || c == 'i') then (DInt(CLLong), 3)
    else if a == 'l' && b == 'l' && c == 'u' then (DInt(CULLong), 3)
    else if a == 'h' && (b == 'd' || b == 'i') then (DInt(CInt), 2)
    else if a == 'h' && b == 'u' then (DInt(CUInt), 2)
    else if a == 'h' && b == 'h' && (c == 'd' || c == 'i') then (DInt(CInt), 3)
    else if a == 'h' && b == 'h' && c == 'u' then (DInt(CUInt), 3)
    else if a == '%' then (DPercent, 1)
    else (DBad, 0)
  }

  /** Conversion to a 64-bit signed integer. */
  function ToInt64(n: int): int {
    if n < U63 then n else n - U64
  }

  /** The length strlen finds. */
  function StrLen(mem: seq<byte>): (n: nat)
    ensures n <= |mem|
  {
    if mem == [] || mem[0] == 0 then 0 else 1 + StrLen(mem[1..])
  }

  datatype Taken = Stuck | Skip | Taken(v: Value, used: nat)

  /** The value a directive makes of the front of the argument list. Stuck stands
      for undefined behaviour: a missing or mistyped argument, or a read past
      the end of a string. */
  function Take(d: Directive, args: seq<Arg>): (r: Taken)
    requires ArgsOk(args)
    ensures r.Taken? ==> r.used <= |args| && WellFormed(r.v) && !r.v.Node?
    ensures r.Skip? <==> d.DPercent?
  {
    if args == [] then (if d.DPercent? then Skip else Stuck) else
    var a := args[0];
    assert ArgOk(a);
    match d
    case DInt(t) =>
      if a.Int? && a.ctype == t then Taken(ObjectStream.IntValue(ToInt64(a.n)), 1) else Stuck
    case DStr =>
      if a.Pointer? then Taken(Str(a.mem[..StrLen(a.mem) % U32]), 1) else Stuck
    case DStrLen =>
      if a.Int? && a.ctype.CUInt? && |args| > 1 && args[1].Pointer? && a.n <= |args[1].mem| then
        Taken(Str(args[1].mem[..a.n]), 2)
      else Stuck
    case DFloat => if a.Real? then Taken(Float(a.narrow), 1) else Stuck
    case DDouble => if a.Real? then Taken(Double(a.wide), 1) else Stuck
    case DBool => if a.Int? && a.ctype.CInt? then Taken(Bool(a.n != 0), 1) else Stuck
    case DPercent => Skip
    case DBad => Stuck
  }

  datatype Step = Next(o: Obj, chars: nat, used: nat, rv: int) | Refused(o: Obj) | Wild

  /** One turn of the format loop. A container opened on a full stack is wild,
      its frames being lost. */
  function StepOf(o: Obj, fmt: string, args: seq<Arg>): (r: Step)
    requires ArgsOk(args) && fmt != []
    ensures r.Next? ==> 1 <= r.chars <= |fmt| && r.used <= |args|
  {
    var c, rest := fmt[0], fmt[1..];
    if c == '[' || c == '{' then
      var (o', rv) := OpenContainer(o, if c == '{' then MapKind else ArrayKind, 0, []);
      if rv == -1 then Refused(o')
      else if |o.frames| >= o.cap then Wild
      else Next(o', 1, 0, rv)
    else if c == ']' || c == '}' then
      if !CloseSafe(o) then Wild
      else
        var (o', rv) := CloseContainer(o);
        if rv == -1 then Refused(o') else Next(o', 1, 0, rv)
    else if c == '%' then
      var (d, n) := DirectiveOf(rest);
      if n > |rest| then Wild else
      match Take(d, args)
      case Stuck => Wild
      case Skip => Next(o, 1 + n, 0, 0)
      case Taken(v, used) =>
        Next(AddScalar(o, Encode(Shortest, v)), 1 + n, used, |Encode(Shortest, v)|)
    else if c == 'N' && At(rest, 0) == 'I' && At(rest, 1) == 'L' then
      Next(AddScalar(o, Encode(Shortest, Nil)), 3, 0, 1)
    else Next(o, 1, 0, 0)
  }

  datatype Result = Done(o: Obj, args: seq<Arg>, total: int) | Failed(o: Obj) | Undefined

  /** The rest of a format on an object, with total bytes reported so far. */
  function Compile(o: Obj, fmt: string, args: seq<Arg>, total: int): Result
    requires ArgsOk(args)
    decreases |fmt|
  {
    if fmt == [] || fmt[0] == '\0' then Done(o, args, total)
    else match StepOf(o, fmt, args)
      case Wild => Undefined
      case Refused(o') => Failed(o')
      case Next(o', chars, used, rv) => Compile(o', fmt[chars..], args[used..], total + rv)
  }

  /** The whole call: the object must still be empty. */
  function VFormatSpec(o: Obj, fmt: string, args: seq<Arg>): Result
    requires ArgsOk(args)
  {
    if o.wrcnt > 0 then Failed(o) else Compile(o.(mode := Packed), fmt, args, 0)
  }

  method EmitScalar(b: ObjectStream.Builder, d: Directive, args: seq<Arg>) returns (used: nat, rv: int)
    requires b.Valid() && ArgsOk(args) && Take(d, args).Taken?
    modifies b.Repr()
    ensures b.Valid() && fresh(b.Repr() - old(b.Repr()))
    ensures used == Take(d, args).used
    ensures b.State() == AddScalar(old(b.State()), Encode(Shortest, Take(d, args).v))
    ensures rv == |Encode(Shortest, Take(d, args).v)|
  {
    var a := args[0];
    assert ArgOk(a);
    used := 1;
    match d {
      case DInt(_) => rv := b.AddInt(ToInt64(a.n));
      case DStr => rv := b.AddStr(a.mem[..StrLen(a.mem) % U32]);
      case DStrLen =>
        rv := b.AddStr(args[1].mem[..a.n]);
        used := 2;
      case DFloat => rv := b.AddFloat(a.narrow);
      case DDouble => rv := b.AddDouble(a.wide);
      case DBool => rv := b.AddBool(a.n);
    }
  }

  /** The loop body: the effect of the character at i, the characters and
      arguments it used up and the value it adds to the result, or -1. */
  method FormatStep(b: ObjectStream.Builder, fmt: string, args: seq<Arg>)
    returns (chars: nat, used: nat, rv: int)
    requires b.Valid() && ArgsOk(args) && fmt != [] && !StepOf(b.State(), fmt, args).Wild?
    modifies b.Repr()
    ensures b.Valid() && fresh(b.Repr() - old(b.Repr()))
    ensures match StepOf(old(b.State()), fmt, args)
      case Next(o, n, m, r) => b.State() == o && chars == n && used == m && rv == r && r >= 0
      case Refused(o) => b.State() == o && rv == -1
      case Wild => false
  {
    chars, used, rv := 1, 0, 0;
    var c := fmt[0];
    if c == '[' {
      ghost var junk;
      rv, junk := b.AddArray(0);
    } else if c == '{' {
      ghost var junk;
      rv, junk := b.AddMap(0);
    }
    if c == ']' || c == '}' {
      rv := b.ContainerClose();
    } else if c == '%' {
      var (d, n) := DirectiveOf(fmt[1..]);
      chars := 1 + n;
      if !d.DPercent? {
        used, rv := EmitScalar(b, d, args);
      }
    } else if c == 'N' && At(fmt, 1) == 'I' && At(fmt, 2) == 'L' {
      rv := b.AddNil();
      chars := 3;
    }
  }

  /** Builds an object from a format string and its arguments. */
  method VFormat(b: ObjectStream.Builder, fmt: string, args: seq<Arg>) returns (total: int)
    requires b.Valid() && ArgsOk(args)
    requires !VFormatSpec(b.State(), fmt, args).Undefined?
    modifies b.Repr()
    ensures b.Valid() && fresh(b.Repr() - old(b.Repr()))
    ensures match VFormatSpec(old(b.State()), fmt, args)
      case Done(o, _, n) => b.State() == o && total == n
      case Failed(o) => b.State() == o && total == -1
      case Undefined => false
  {
    hide StepOf;
    var typed := b.SetType(Packed);
    if typed == -1 {
      return -1;
    }
    ghost var spec := VFormatSpec(old(b.State()), fmt, args);
    total := 0;
    var f: nat, k: nat := 0, 0;
    while At(fmt, f) != '\0'
      invariant b.Valid() && fresh(b.Repr() - old(b.Repr()))
      invariant f <= |fmt| && k <= |args| && ArgsOk(args[k..])
      invariant Compile(b.State(), fmt[f..], args[k..], total) == spec
      decreases |fmt| - f
    {
      var chars, used, rv := FormatStep(b, fmt[f..], args[k..]);
      if rv == -1 {
        return -1;
      }
      Tail(fmt, f, chars);
      Tail(args, k, used);
      f, k, total := f + chars, k + used, total + rv;
    }
  }

  lemma Tail<T>(s: seq<T>, i: nat, n: nat)
    requires i + n <= |s|
    ensures s[i..][n..] == s[i + n..]
  {
  }
}
