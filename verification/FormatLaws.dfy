/**
 * The format compiler is correct: every format written out from a tree of
 * directives builds the encoding of the values the directives name.
 */
module FormatLaws {
  import opened Bytes
  import opened MsgPack
  import opened MsgPackLaws
  import opened ObjectSpec
  import opened ObjectLaws
  import opened Format
  import ObjectStream

  /** A format as a tree: directives with their arguments, nil, brackets, and
      text that stands for nothing. */
  datatype Item =
    | Leaf(spelling: string, args: seq<Arg>)
    | NilItem
    | Percents
    | Text(c: char)
    | Group(kind: Kind, items: seq<Item>)

  /** Every directive the compiler knows, in every spelling. */
  predicate Spelled(s: string) {
    || s == "d" || s == "i" || s == "u" || s == "s" || s == ".*s" || s == "f" || s == "lf" || s == "b"
    || s == "ld" || s == "li" || s == "lu" || s == "lld" || s == "lli" || s == "llu"
    || s == "hd" || s == "hi" || s == "hu" || s == "hhd" || s == "hhi" || s == "hhu"
  }

  /** Text: no bracket, no percent sign, no end of the string. */
  predicate Ignored(c: char) {
    c != '[' && c != ']' && c != '{' && c != '}' && c != '%' && c != '\0'
  }

  function Number(n: int): Value {
    if n < 0 then SInt(n) else UInt(n)
  }

  /** An unsigned argument as a signed 64-bit number. */
  function Wrapped(n: int): Value {
    if n < 0x8000_0000_0000_0000 then Number(n) else Number(n - 0x1_0000_0000_0000_0000)
  }

  /** What each spelling makes of the arguments that belong to it, by the C types of
      the arguments; None if they are others. */
  function Meant(spelling: string, args: seq<Arg>): Option<Value> {
    if |args| == 0 then None
    else match args[0]
      case Int(CInt, n) =>
        if |args| != 1 then None
        else if spelling in {"d", "i", "hd", "hi", "hhd", "hhi"} then Some(Number(n))
        else if spelling == "b" then Some(Bool(n != 0))
        else None
      case Int(CUInt, n) =>
        if |args| == 1 && spelling in {"u", "hu", "hhu"} then Some(Number(n))
        else if |args| == 2 && spelling == ".*s" && args[1].Pointer? && 0 <= n <= |args[1].mem| then
          Some(Str(args[1].mem[..n]))
        else None
      case Int(CLong, n) => if |args| == 1 && spelling in {"ld", "li"} then Some(Number(n)) else None
      case Int(CLLong, n) => if |args| == 1 && spelling in {"lld", "lli"} then Some(Number(n)) else None
      case Int(CULong, n) => if |args| == 1 && spelling == "lu" then Some(Wrapped(n)) else None
      case Int(CULLong, n) => if |args| == 1 && spelling == "llu" then Some(Wrapped(n)) else None
      case Real(narrow, wide) =>
        if |args| != 1 then None
        else if spelling == "f" then Some(Float(narrow))
        else if spelling == "lf" then Some(Double(wide))
        else None
      case Pointer(mem) =>
        if |args| == 1 && spelling == "s" then Some(Str(mem[..TextLength(mem) % 0x1_0000_0000])) else None
  }

  /** The place of the first zero byte, or the length if there is none. */
  function TextLength(mem: seq<byte>): (n: nat)
    ensures n <= |mem| && (n < |mem| ==> mem[n] == 0)
    ensures forall i | 0 <= i < n :: mem[i] != 0
  {
    if mem == [] || mem[0] == 0 then 0
    else
      var n := TextLength(mem[1..]);
      assert forall i | 0 < i < n + 1 :: mem[i] == mem[1..][i - 1];
      n + 1
  }

  lemma {:induction false} TextLengthIs(mem: seq<byte>)
    ensures StrLen(mem) == TextLength(mem)
    decreases |mem|
  {
    if mem != [] && mem[0] != 0 {
      TextLengthIs(mem[1..]);
    }
  }

  /** The directive of a spelling. */
  function Named(spelling: string): Directive {
    if spelling in {"d", "i", "hd", "hi", "hhd", "hhi"} then DInt(CInt)
    else if spelling in {"u", "hu", "hhu"} then DInt(CUInt)
    else if spelling in {"ld", "li"} then DInt(CLong)
    else if spelling in {"lld", "lli"} then DInt(CLLong)
    else if spelling == "lu" then DInt(CULong)
    else if spelling == "llu" then DInt(CULLong)
    else if spelling == "s" then DStr
    else if spelling == ".*s" then DStrLen
    else if spelling == "f" then DFloat
    else if spelling == "lf" then DDouble
    else DBool
  }

  lemma SpellingNames(spelling: string)
    requires Spelled(spelling)
    ensures DirectiveOf(spelling).0 == Named(spelling)
  {
  }

  /** The compiler takes each spelling for just that. */
  lemma SpellingMeans(spelling: string, args: seq<Arg>)
    requires Spelled(spelling) && ArgsOk(args)
    ensures var t := Take(DirectiveOf(spelling).0, args);
      (t.Taken? && t.used == |args| <==> Meant(spelling, args).Some?)
      && (t.Taken? && t.used == |args| ==> Meant(spelling, args) == Some(t.v))
  {
    hide DirectiveOf;
    SpellingNames(spelling);
    if |args| > 0 {
      assert ArgOk(args[0]);
      if args[0].Pointer? {
        TextLengthIs(args[0].mem);
      }
      if args[0].Int? {
        IntMeans(spelling, args);
      }
    }
  }

  lemma IntMeans(spelling: string, args: seq<Arg>)
    requires |args| > 0 && args[0].Int? && ArgsOk(args) && Spelled(spelling)
    ensures var t := Take(Named(spelling), args);
      (t.Taken? && t.used == |args| <==> Meant(spelling, args).Some?)
      && (t.Taken? && t.used == |args| ==> Meant(spelling, args) == Some(t.v))
  {
    assert ArgOk(args[0]);
  }

  /** The directives get arguments of their types and use them all. */
  predicate LeafOk(spelling: string, args: seq<Arg>) {
    Spelled(spelling) && ArgsOk(args) && Meant(spelling, args).Some?
  }

  /** Items that describe values MessagePack can hold, the children of every
      container counted in 32 bits. */
  predicate ItemOk(item: Item)
    decreases item
  {
    match item
    case Leaf(spelling, args) => LeafOk(spelling, args)
    case Text(c) => Ignored(c)
    case Group(kind, items) =>
      && ItemsOk(items)
      && |ValuesOf(items)| < U32
      && (kind.MapKind? ==> |ValuesOf(items)| % 2 == 0)
    case _ => true
  }

  predicate ItemsOk(items: seq<Item>)
    decreases items
  {
    items != [] ==> ItemOk(items[0]) && ItemsOk(items[1..])
  }

  /** The values an item describes: one, or none. */
  function ValueOf(item: Item): (vs: seq<Value>)
    ensures |vs| <= 1
    decreases item
  {
    match item
    case Leaf(spelling, args) =>
      if LeafOk(spelling, args) then [Meant(spelling, args).value] else []
    case NilItem => [Nil]
    case Group(kind, items) => [Node(kind, ValuesOf(items))]
    case _ => []
  }

  function ValuesOf(items: seq<Item>): seq<Value>
    decreases items
  {
    if items == [] then [] else ValueOf(items[0]) + ValuesOf(items[1..])
  }

  lemma {:induction false} ValueWellFormed(item: Item)
    requires ItemOk(item)
    ensures AllWellFormed(ValueOf(item))
    decreases item
  {
    if item.Group? {
      ValuesWellFormed(item.items);
    }
  }

  lemma {:induction false} ValuesWellFormed(items: seq<Item>)
    requires ItemsOk(items)
    ensures AllWellFormed(ValuesOf(items))
    decreases items
  {
    if items != [] {
      ValueWellFormed(items[0]);
      ValuesWellFormed(items[1..]);
    }
  }

  /** An item as format text. */
  function Render(item: Item): (s: string)
    ensures s != []
    decreases item
  {
    match item
    case Leaf(spelling, _) => "%" + spelling
    case NilItem => "NIL"
    case Percents => "%%"
    case Text(c) => [c]
    case Group(kind, items) => OpenText(kind) + RenderAll(items) + CloseText(kind)
  }

  function OpenText(kind: Kind): string { if kind.MapKind? then "{" else "[" }

  function CloseText(kind: Kind): string { if kind.MapKind? then "}" else "]" }

  function RenderAll(items: seq<Item>): string
    decreases items
  {
    if items == [] then [] else Render(items[0]) + RenderAll(items[1..])
  }

  /** In front of what follows it, no text of the item begins a "NIL". */
  predicate Fits(item: Item, tail: string)
    decreases item
  {
    match item
    case Text(c) => c == 'N' ==> !(At(tail, 0) == 'I' && At(tail, 1) == 'L')
    case Group(kind, items) => AllFit(items, CloseText(kind) + tail)
    case _ => true
  }

  predicate AllFit(items: seq<Item>, tail: string)
    decreases items
  {
    items != [] ==> Fits(items[0], RenderAll(items[1..]) + tail) && AllFit(items[1..], tail)
  }

  function ArgsOf(item: Item): (args: seq<Arg>)
    requires ItemOk(item)
    ensures ArgsOk(args)
    decreases item
  {
    match item
    case Leaf(_, args) => args
    case Group(_, items) => ArgsOfAll(items)
    case _ => []
  }

  function ArgsOfAll(items: seq<Item>): (args: seq<Arg>)
    requires ItemsOk(items)
    ensures ArgsOk(args)
    decreases items
  {
    if items == [] then [] else ArgsOf(items[0]) + ArgsOfAll(items[1..])
  }

  function Max(a: nat, b: nat): nat { if a < b then b else a }

  function Depth(item: Item): nat
    decreases item
  {
    if item.Group? then 1 + DepthAll(item.items) else 0
  }

  function DepthAll(items: seq<Item>): nat
    decreases items
  {
    if items == [] then 0 else Max(Depth(items[0]), DepthAll(items[1..]))
  }

  /** The header bytes beyond the first, over all containers. */
  function Widening(item: Item): nat
    requires ItemOk(item)
    decreases item
  {
    match item
    case Group(kind, items) =>
      |ContainerHead(Shortest, kind, Count(kind, |ValuesOf(items)|))| - 1 + WideningAll(items)
    case _ => 0
  }

  function WideningAll(items: seq<Item>): nat
    requires ItemsOk(items)
    decreases items
  {
    if items == [] then 0 else Widening(items[0]) + WideningAll(items[1..])
  }

  /** What the call reports: the final size less the widening of the headers. */
  function Reported(items: seq<Item>): int
    requires ItemsOk(items)
  {
    ValuesWellFormed(items);
    |EncodeAll(Shortest, ValuesOf(items))| - WideningAll(items)
  }

  function AddAll(f: Forest, vs: seq<Value>): (g: Forest)
    requires AllWellFormed(vs)
    ensures ForestOk(f) ==> ForestOk(g)
    ensures |g.open| == |f.open|
    decreases |vs|
  {
    if vs == [] then f else AddAll(AddValue(f, vs[0]), vs[1..])
  }

  lemma {:induction false} AddAllConcat(f: Forest, a: seq<Value>, b: seq<Value>)
    requires AllWellFormed(a) && AllWellFormed(b)
    ensures AllWellFormed(a + b)
    ensures AddAll(f, a + b) == AddAll(AddAll(f, a), b)
    decreases |a|
  {
    if a == [] {
      assert a + b == b;
    } else {
      assert (a + b)[0] == a[0] && (a + b)[1..] == a[1..] + b;
      AddAllConcat(AddValue(f, a[0]), a[1..], b);
    }
  }

  /** Adding values to a freshly opened container fills that container only. */
  lemma {:induction false} AddAllInside(f: Forest, l: Level, vs: seq<Value>)
    requires ForestOk(f) && LevelOk(l) && AllWellFormed(vs)
    ensures AddAll(f.(open := f.open + [l]), vs) == f.(open := f.open + [l.(kids := l.kids + vs)])
    decreases |vs|
  {
    var g := f.(open := f.open + [l]);
    if vs == [] {
      assert l.kids + vs == l.kids;
    } else {
      var l' := l.(kids := l.kids + [vs[0]]);
      assert Outer(g) == f && Inner(g) == l;
      assert AddValue(g, vs[0]) == f.(open := f.open + [l']);
      AddAllInside(f, l', vs[1..]);
      assert l'.kids + vs[1..] == l.kids + vs;
    }
  }

  // ----- one turn of the loop for each kind of item -----

  lemma DirectiveStands(spelling: string, tail: string)
    requires Spelled(spelling)
    ensures DirectiveOf(spelling + tail) == (DirectiveOf(spelling).0, |spelling|)
    ensures !DirectiveOf(spelling).0.DPercent?
  {
    assert forall k: nat | k < |spelling| :: At(spelling + tail, k) == At(spelling, k);
  }

  lemma TakeStands(d: Directive, args: seq<Arg>, more: seq<Arg>)
    requires ArgsOk(args) && ArgsOk(more) && Take(d, args).Taken? && Take(d, args).used == |args|
    ensures ArgsOk(args + more) && Take(d, args + more) == Take(d, args)
  {
  }

  /** Running a format that starts with a step, given what the step does. */
  lemma CompileNext(o: Obj, fmt: string, args: seq<Arg>, total: int, tail: string, more: seq<Arg>)
    requires ArgsOk(args) && ArgsOk(more) && fmt != [] && fmt[0] != '\0'
    requires StepOf(o, fmt, args).Next?
    requires fmt[StepOf(o, fmt, args).chars..] == tail && args[StepOf(o, fmt, args).used..] == more
    ensures Compile(o, fmt, args, total)
         == Compile(StepOf(o, fmt, args).o, tail, more, total + StepOf(o, fmt, args).rv)
  {
    hide StepOf;
  }

  lemma LeafStepOf(o: Obj, item: Item, tail: string, more: seq<Arg>)
    requires item.Leaf? && ItemOk(item) && ArgsOk(more)
    ensures ArgsOk(ArgsOf(item) + more) && WellFormed(ValueOf(item)[0])
    ensures var chunk := Encode(Shortest, ValueOf(item)[0]);
      StepOf(o, Render(item) + tail, ArgsOf(item) + more)
      == Next(AddScalar(o, chunk), |Render(item)|, |ArgsOf(item)|, |chunk|)
  {
    hide Take, Encode, DirectiveOf, Spelled, Meant;
    SpellingMeans(item.spelling, item.args);
    DirectiveStands(item.spelling, tail);
    TakeStands(DirectiveOf(item.spelling).0, item.args, more);
    assert (Render(item) + tail)[1..] == item.spelling + tail;
  }

  lemma LeafStep(o: Obj, item: Item, tail: string, more: seq<Arg>, total: int)
    requires item.Leaf? && ItemOk(item) && ArgsOk(more)
    ensures ArgsOk(ArgsOf(item) + more) && WellFormed(ValueOf(item)[0])
    ensures var chunk := Encode(Shortest, ValueOf(item)[0]);
      Compile(o, Render(item) + tail, ArgsOf(item) + more, total)
      == Compile(AddScalar(o, chunk), tail, more, total + |chunk|)
  {
    hide StepOf, Take, Encode, DirectiveOf, Spelled;
    LeafStepOf(o, item, tail, more);
    assert (Render(item) + tail)[|Render(item)|..] == tail;
    assert (ArgsOf(item) + more)[|ArgsOf(item)|..] == more;
    CompileNext(o, Render(item) + tail, ArgsOf(item) + more, total, tail, more);
  }

  lemma NilStep(o: Obj, tail: string, more: seq<Arg>, total: int)
    requires ArgsOk(more)
    ensures Compile(o, "NIL" + tail, more, total)
         == Compile(AddScalar(o, Encode(Shortest, Nil)), tail, more, total + 1)
  {
    var fmt := "NIL" + tail;
    assert At(fmt[1..], 0) == 'I' && At(fmt[1..], 1) == 'L';
    assert fmt[3..] == tail && more[0..] == more;
    CompileNext(o, fmt, more, total, tail, more);
  }

  lemma QuietStep(o: Obj, item: Item, tail: string, more: seq<Arg>, total: int)
    requires (item.Text? || item.Percents?) && ItemOk(item) && Fits(item, tail) && ArgsOk(more)
    ensures Compile(o, Render(item) + tail, more, total) == Compile(o, tail, more, total)
  {
    var fmt := Render(item) + tail;
    assert more[0..] == more;
    if item.Percents? {
      assert fmt[1..] == "%" + tail && fmt[2..] == tail;
      assert DirectiveOf(fmt[1..]) == (DPercent, 1);
    } else {
      assert fmt[1..] == tail;
    }
    CompileNext(o, fmt, more, total, tail, more);
  }

  lemma OpenStep(o: Obj, kind: Kind, tail: string, more: seq<Arg>, total: int)
    requires ArgsOk(more) && |o.frames| < o.cap && o.mode.Packed?
    ensures Compile(o, OpenText(kind) + tail, more, total)
         == Compile(OpenContainer(o, kind, 0, []).0, tail, more, total + 1)
  {
    var fmt := OpenText(kind) + tail;
    assert fmt[1..] == tail && more[0..] == more;
    CompileNext(o, fmt, more, total, tail, more);
  }

  lemma CloseStep(o: Obj, kind: Kind, tail: string, more: seq<Arg>, total: int)
    requires ArgsOk(more) && CloseSafe(o) && !CloseRefused(o)
    ensures Compile(o, CloseText(kind) + tail, more, total)
         == Compile(CloseContainer(o).0, tail, more, total)
  {
    var fmt := CloseText(kind) + tail;
    assert fmt[1..] == tail && more[0..] == more;
    CompileNext(o, fmt, more, total, tail, more);
  }

  // ----- the compiler theorem -----

  function ReportedOne(item: Item): int
    requires ItemOk(item)
  {
    ValueWellFormed(item);
    |EncodeAll(Shortest, ValueOf(item))| - Widening(item)
  }

  lemma ReportedSplit(items: seq<Item>)
    requires ItemsOk(items) && items != []
    ensures Reported(items) == ReportedOne(items[0]) + Reported(items[1..])
  {
    ValueWellFormed(items[0]);
    ValuesWellFormed(items[1..]);
    EncodeAllConcat(Shortest, ValueOf(items[0]), ValuesOf(items[1..]));
  }

  lemma EncodeAllOne(v: Value)
    requires WellFormed(v)
    ensures EncodeAll(Shortest, [v]) == Encode(Shortest, v)
  {
    assert [v][0] == v && [v][1..] == [];
    assert EncodeAll(Shortest, [v]) == Encode(Shortest, v) + EncodeAll(Shortest, []);
  }

  lemma ReportedGroup(kind: Kind, items: seq<Item>)
    requires ItemOk(Group(kind, items))
    ensures ReportedOne(Group(kind, items)) == 1 + Reported(items)
  {
    var vals := ValuesOf(items);
    ValuesWellFormed(items);
    ValueWellFormed(Group(kind, items));
    EncodeAllOne(Node(kind, vals));
  }

  /** The object after a run of the compiler, given by the forest it represents. */
  predicate Reaches(o: Obj, o': Obj, f: Forest) {
    Represents(o', f) && o'.cap == o.cap && o'.mode == o.mode
  }

  lemma AddAllOne(f: Forest, v: Value)
    requires WellFormed(v)
    ensures AddAll(f, [v]) == AddValue(f, v)
  {
    assert [v][1..] == [];
  }

  lemma {:induction false} ItemCompiles(o: Obj, f: Forest, item: Item, tail: string, more: seq<Arg>, total: int)
    returns (o': Obj)
    requires Represents(o, f) && o.mode.Packed? && ItemOk(item) && Fits(item, tail) && ArgsOk(more)
    requires |f.open| + Depth(item) <= o.cap
    ensures ArgsOk(ArgsOf(item) + more) && AllWellFormed(ValueOf(item))
    ensures Reaches(o, o', AddAll(f, ValueOf(item)))
    ensures Compile(o, Render(item) + tail, ArgsOf(item) + more, total)
         == Compile(o', tail, more, total + ReportedOne(item))
    decreases item, 1
  {
    hide Compile, Encode, EncodeAll, Layout, FramesOf, Take;
    ValueWellFormed(item);
    match item
    case Leaf(_, _) =>
      o' := LeafCompiles(o, f, item, tail, more, total);
    case NilItem =>
      o' := NilCompiles(o, f, tail, more, total);
      assert [] + more == more;
    case Group(_, _) =>
      o' := GroupCompiles(o, f, item, tail, more, total);
    case _ =>
      o' := o;
      QuietStep(o, item, tail, more, total);
      assert [] + more == more;
      assert ReportedOne(item) == |EncodeAll(Shortest, [])|;
  }

  lemma GroupParts(kind: Kind, items: seq<Item>)
    requires ItemOk(Group(kind, items))
    ensures ItemsOk(items) && ArgsOf(Group(kind, items)) == ArgsOfAll(items)
    ensures Depth(Group(kind, items)) == 1 + DepthAll(items)
    ensures AllWellFormed(ValuesOf(items))
  {
    ValuesWellFormed(items);
  }

  lemma RenderGroup(kind: Kind, items: seq<Item>, tail: string)
    ensures Render(Group(kind, items)) + tail
         == OpenText(kind) + (RenderAll(items) + (CloseText(kind) + tail))
  {
  }

  lemma {:induction false} GroupCompiles(o: Obj, f: Forest, item: Item, tail: string, more: seq<Arg>, total: int)
    returns (o': Obj)
    requires item.Group? && Represents(o, f) && o.mode.Packed? && ArgsOk(more)
    requires ItemOk(item) && Fits(item, tail)
    requires |f.open| + Depth(item) <= o.cap
    ensures ArgsOk(ArgsOf(item) + more) && AllWellFormed(ValueOf(item))
    ensures Reaches(o, o', AddAll(f, ValueOf(item)))
    ensures Compile(o, Render(item) + tail, ArgsOf(item) + more, total)
         == Compile(o', tail, more, total + ReportedOne(item))
    decreases item, 0
  {
    hide Compile, Encode, EncodeAll, Layout, FramesOf, Take, Represents, OpenContainer, CloseContainer,
      CloseRefused, CloseSafe, ReportedOne, Reported, Render, RenderAll, OpenText, CloseText,
      ItemOk, ItemsOk, ArgsOf, ArgsOfAll, ValueOf, ValuesOf, Depth, DepthAll, AddAll;
    var Group(kind, items) := item;
    GroupParts(kind, items);
    var after := CloseText(kind) + tail;
    RenderGroup(kind, items, tail);
    var begun := GroupOpens(o, f, kind);
    OpenStep(o, kind, RenderAll(items) + after, ArgsOf(item) + more, total);
    var inner := ItemsCompile(begun, OpenLevel(f, kind, 0), items, after, more, total + 1);
    o' := GroupEnds(o, inner, f, kind, items, tail, more, total + 1 + Reported(items));
    ReportedGroup(kind, items);
  }

  lemma GroupEnds(o: Obj, inner: Obj, f: Forest, kind: Kind, items: seq<Item>, tail: string, more: seq<Arg>,
                  total: int) returns (o': Obj)
    requires ForestOk(f) && ItemOk(Group(kind, items)) && ArgsOk(more) && o.mode.Packed?
    requires AllWellFormed(ValuesOf(items))
    requires Reaches(o, inner, AddAll(OpenLevel(f, kind, 0), ValuesOf(items)))
    ensures AllWellFormed(ValueOf(Group(kind, items)))
    ensures Reaches(o, o', AddAll(f, ValueOf(Group(kind, items))))
    ensures Compile(inner, CloseText(kind) + tail, more, total) == Compile(o', tail, more, total)
  {
    hide Compile, Represents, CloseContainer, CloseRefused, CloseSafe, CloseText, ValuesOf, ItemsOk;
    var vals := ValuesOf(items);
    AddAllInside(f, Level(kind, 0, []), vals);
    assert [] + vals == vals;
    o' := GroupCloses(o, inner, f, kind, vals);
    CloseStep(inner, kind, tail, more, total);
  }

  lemma LeafCompiles(o: Obj, f: Forest, item: Item, tail: string, more: seq<Arg>, total: int)
    returns (o': Obj)
    requires item.Leaf? && Represents(o, f) && ItemOk(item) && ArgsOk(more)
    ensures ArgsOk(ArgsOf(item) + more) && AllWellFormed(ValueOf(item))
    ensures Reaches(o, o', AddAll(f, ValueOf(item)))
    ensures Compile(o, Render(item) + tail, ArgsOf(item) + more, total)
         == Compile(o', tail, more, total + ReportedOne(item))
  {
    hide Compile, Encode, EncodeAll, Layout, FramesOf, Take;
    ValueWellFormed(item);
    LeafStep(o, item, tail, more, total);
    var v := ValueOf(item)[0];
    assert ValueOf(item) == [v];
    o' := AddScalar(o, Encode(Shortest, v));
    ScalarKeeps(o, f, v);
    AddAllOne(f, v);
    EncodeAllOne(v);
  }

  lemma NilCompiles(o: Obj, f: Forest, tail: string, more: seq<Arg>, total: int) returns (o': Obj)
    requires Represents(o, f) && ArgsOk(more)
    ensures Reaches(o, o', AddAll(f, [Nil]))
    ensures Compile(o, "NIL" + tail, more, total) == Compile(o', tail, more, total + ReportedOne(NilItem))
  {
    hide Compile, Layout, FramesOf;
    NilStep(o, tail, more, total);
    o' := AddScalar(o, Encode(Shortest, Nil));
    ScalarKeeps(o, f, Nil);
    AddAllOne(f, Nil);
    EncodeAllOne(Nil);
  }

  lemma GroupOpens(o: Obj, f: Forest, kind: Kind) returns (o': Obj)
    requires Represents(o, f) && |f.open| < o.cap
    ensures o' == OpenContainer(o, kind, 0, []).0 && |o.frames| < o.cap && ForestOk(f)
    ensures Reaches(o, o', OpenLevel(f, kind, 0))
  {
    OpenKeeps(o, f, kind, 0, []);
    o' := OpenContainer(o, kind, 0, []).0;
  }

  lemma GroupCloses(o: Obj, inner: Obj, f: Forest, kind: Kind, vals: seq<Value>) returns (o': Obj)
    requires ForestOk(f) && AllWellFormed(vals) && WellFormed(Node(kind, vals)) && |vals| < U32
    requires Reaches(o, inner, f.(open := f.open + [Level(kind, 0, vals)])) && o.mode.Packed?
    ensures CloseSafe(inner) && !CloseRefused(inner) && o' == CloseContainer(inner).0
    ensures Reaches(o, o', AddAll(f, [Node(kind, vals)]))
  {
    hide Layout, FramesOf;
    var g := f.(open := f.open + [Level(kind, 0, vals)]);
    assert Outer(g) == f && Inner(g) == Level(kind, 0, vals);
    CloseExact(inner, g);
    o' := CloseContainer(inner).0;
    AddAllOne(f, Node(kind, vals));
  }

  lemma {:induction false} ItemsCompile(o: Obj, f: Forest, items: seq<Item>, tail: string, more: seq<Arg>,
                                        total: int) returns (o': Obj)
    requires Represents(o, f) && o.mode.Packed? && ItemsOk(items) && AllFit(items, tail) && ArgsOk(more)
    requires |f.open| + DepthAll(items) <= o.cap
    ensures ArgsOk(ArgsOfAll(items) + more) && AllWellFormed(ValuesOf(items))
    ensures Reaches(o, o', AddAll(f, ValuesOf(items)))
    ensures Compile(o, RenderAll(items) + tail, ArgsOfAll(items) + more, total)
         == Compile(o', tail, more, total + Reported(items))
    decreases items, 0
  {
    hide Compile, Encode, EncodeAll, Layout, FramesOf, Take, Represents, ItemOk, Fits, Render, ArgsOf, ValueOf, Depth;
    ValuesWellFormed(items);
    if items == [] {
      o' := o;
      assert RenderAll(items) + tail == tail && ArgsOfAll(items) + more == more;
    } else {
      var item, rest := items[0], items[1..];
      assert RenderAll(items) + tail == Render(item) + (RenderAll(rest) + tail);
      assert ArgsOfAll(items) + more == ArgsOf(item) + (ArgsOfAll(rest) + more);
      ValueWellFormed(item);
      ValuesWellFormed(rest);
      var mid := ItemCompiles(o, f, item, RenderAll(rest) + tail, ArgsOfAll(rest) + more, total);
      o' := ItemsCompile(mid, AddAll(f, ValueOf(item)), rest, tail, more, total + ReportedOne(item));
      AddAllConcat(f, ValueOf(item), ValuesOf(rest));
      ReportedSplit(items);
    }
  }

  lemma FormatRuns(o: Obj, items: seq<Item>) returns (o': Obj)
    requires o.bytes == [] && o.frames == [] && o.wrcnt == 0
    requires ItemsOk(items) && AllFit(items, []) && DepthAll(items) <= o.cap
    ensures VFormatSpec(o, RenderAll(items), ArgsOfAll(items)) == Done(o', [], Reported(items))
    ensures o'.mode.Packed? && AllWellFormed(ValuesOf(items)) && Represents(o', Forest(ValuesOf(items), []))
  {
    hide Compile, Represents, ValuesOf, RenderAll, ArgsOfAll, DepthAll, Reported, ItemsOk;
    ValuesWellFormed(items);
    var empty := o.(mode := Packed);
    EmptyRepresents(empty);
    o' := ItemsCompile(empty, EMPTY, items, [], [], 0);
    assert RenderAll(items) + [] == RenderAll(items) && ArgsOfAll(items) + [] == ArgsOfAll(items);
    AddAllTop([], ValuesOf(items));
    assert [] + ValuesOf(items) == ValuesOf(items);
    CompileEnd(o', Reported(items));
  }

  /** vformat is a correct compiler: on an empty object whose stack is deep enough,
      the format and arguments of any tree of items leave exactly the packed
      encoding of its values, use up the arguments, and report the final size
      less the bytes by which headers were widened. */
  lemma FormatCompiles(o: Obj, items: seq<Item>) returns (o': Obj)
    requires o.bytes == [] && o.frames == [] && o.wrcnt == 0
    requires ItemsOk(items) && AllFit(items, []) && DepthAll(items) <= o.cap
    ensures AllWellFormed(ValuesOf(items))
    ensures VFormatSpec(o, RenderAll(items), ArgsOfAll(items))
         == Done(o', [], |o'.bytes| - WideningAll(items))
    ensures o'.bytes == EncodeAll(Shortest, ValuesOf(items)) && o'.frames == []
    ensures DecodeAll(o'.bytes, |ValuesOf(items)|) == Got(ValuesOf(items), [])
  {
    hide Compile, EncodeAll, ItemsOk, Represents, ValuesOf, RenderAll, ArgsOfAll, WideningAll, DepthAll, VFormatSpec;
    o' := FormatRuns(o, items);
    var vals := ValuesOf(items);
    RepresentsTop(o', vals);
    DecodeAllOfEncodeAll(Shortest, vals, []);
    assert EncodeAll(Shortest, vals) + [] == EncodeAll(Shortest, vals);
  }

  lemma RepresentsTop(o: Obj, vals: seq<Value>)
    requires Represents(o, Forest(vals, []))
    ensures AllWellFormed(vals) && o.bytes == EncodeAll(StyleOf(o.mode), vals) && o.frames == []
  {
  }

  lemma EmptyRepresents(o: Obj)
    requires o.bytes == [] && o.frames == []
    ensures Represents(o, EMPTY)
  {
  }

  lemma CompileEnd(o: Obj, total: int)
    ensures Compile(o, [], [], total) == Done(o, [], total)
  {
  }

  lemma {:induction false} AddAllTop(top: seq<Value>, vs: seq<Value>)
    requires AllWellFormed(vs)
    ensures AddAll(Forest(top, []), vs) == Forest(top + vs, [])
    decreases |vs|
  {
    if vs == [] {
      assert top + vs == top;
    } else {
      AddAllTop(top + [vs[0]], vs[1..]);
      assert top + [vs[0]] + vs[1..] == top + vs;
    }
  }

  /** An unsigned directive keeps its argument exactly below 2^63; from there on
      the builder is handed a negative number. */
  lemma UnsignedExact(t: CType, n: int)
    requires t.CULong? || t.CULLong?
    requires 0 <= n < U64
    ensures ArgsOk([Int(t, n)]) && Take(DInt(t), [Int(t, n)]).Taken?
    ensures Take(DInt(t), [Int(t, n)]).v == UInt(n) <==> n < U63
    ensures n >= U63 ==> Take(DInt(t), [Int(t, n)]).v == SInt(n - U64)
  {
  }

  /** The remaining integer directives always keep theirs. */
  lemma SignedExact(t: CType, n: int)
    requires match t
      case CInt => -0x8000_0000 <= n < 0x8000_0000
      case CUInt => 0 <= n < 0x1_0000_0000
      case CLong => -0x8000_0000_0000_0000 <= n < 0x8000_0000_0000_0000
      case CLLong => -0x8000_0000_0000_0000 <= n < 0x8000_0000_0000_0000
      case _ => false
    ensures ArgsOk([Int(t, n)])
    ensures Take(DInt(t), [Int(t, n)]) == Taken(if n < 0 then SInt(n) else UInt(n), 1)
  {
  }
}
