/** What the schema's hash holds: spaces under their names and numbers, and in
    each space its indexes under theirs. */
module SchemaSpec {
  import opened Bytes
  import opened MsgPack
  import opened ReplySpec

  datatype Index = Index(number: nat, name: seq<byte>)

  datatype Space = Space(number: nat, name: seq<byte>, index: map<seq<byte>, Index>)

  /** spaces are the objects ever allocated; one object may be under several keys. */
  datatype Store = Store(spaces: seq<Space>, hash: map<seq<byte>, nat>)

  const EMPTY_STORE := Store([], map[])

  predicate Sound(st: Store) {
    forall k | k in st.hash :: st.hash[k] < |st.spaces|
  }

  /** A 32-bit number returned as a signed one. */
  function Int32(n: nat): int {
    if n < 0x8000_0000 then n else n - U32
  }

  datatype Row =
    | SpaceRow(number: nat, name: seq<byte>)
    | IndexRow(space: nat, number: nat, name: seq<byte>)

  function PutSpace(st: Store, number: nat, name: seq<byte>): Store {
    var id := |st.spaces|;
    Store(st.spaces + [Space(number, name, map[])], st.hash[name := id][Native(number) := id])
  }

  function PutIndex(st: Store, id: nat, number: nat, name: seq<byte>): Store
    requires id < |st.spaces|
  {
    var x := Index(number, name);
    var s := st.spaces[id];
    st.(spaces := st.spaces[id := s.(index := s.index[name := x][Native(number) := x])])
  }

  /** None: the space of an index is unknown. */
  function Put(st: Store, row: Row): (r: Option<Store>)
    requires Sound(st)
    ensures r.Some? ==> Sound(r.value)
  {
    match row
    case SpaceRow(number, name) => Some(PutSpace(st, number, name))
    case IndexRow(space, number, name) =>
      if Native(space) in st.hash then Some(PutIndex(st, st.hash[Native(space)], number, name)) else None
  }

  function Stosid(st: Store, name: seq<byte>): int
    requires Sound(st)
  {
    if name in st.hash then Int32(st.spaces[st.hash[name]].number) else -1
  }

  function Stoiid(st: Store, sid: nat, name: seq<byte>): int
    requires Sound(st)
  {
    if Native(sid) in st.hash then
      var index := st.spaces[st.hash[Native(sid)]].index;
      if name in index then Int32(index[name].number) else -1
    else -1
  }

  // ----- tuples -----

  /** Outside: a read beyond the tuples, or of a number that is none. */
  datatype Step = Done(st: Store) | Refused | Outside

  /** A string with its header in front. */
  function TakeName(s: seq<byte>): Parsed<seq<byte>> {
    match Decode(s)
    case Got(Str(name), t) => Got(name, t)
    case _ => Bad
  }

  /** The space tuple at the front of s: a number, an owner, a name. The length of
      the tuple is not looked at. */
  function SpaceFrom(st: Store, s: seq<byte>): (x: Step)
    requires Sound(st)
    ensures x.Done? ==> Sound(x.st)
  {
    if s == [] then Outside
    else if !StartsWith(s, MpArray) then Refused
    else match ReadToken(s)
      case Bad => Outside
      case Got(_, t) =>
        if t == [] then Outside
        else if !StartsWith(t, MpUInt) then Refused
        else match TakeUInt(t)
          case Bad => Outside
          case Got(number, u) =>
            match Decode(u)
            case Bad => Outside
            case Got(_, v) =>
              if v == [] then Outside
              else if !StartsWith(v, MpStr) then Refused
              else match TakeName(v)
                case Bad => Outside
                case Got(name, _) => Done(PutSpace(st, number % U32, name))
  }

  /** The end of an index tuple: a number and a name. */
  function IndexInto(st: Store, id: nat, t: seq<byte>): (x: Step)
    requires Sound(st) && id < |st.spaces|
    ensures x.Done? ==> Sound(x.st)
  {
    if t == [] then Outside
    else if !StartsWith(t, MpUInt) then Refused
    else match TakeUInt(t)
      case Bad => Outside
      case Got(number, u) =>
        if u == [] then Outside
        else if !StartsWith(u, MpStr) then Refused
        else match TakeName(u)
          case Bad => Outside
          case Got(name, _) => Done(PutIndex(st, id, number % U32, name))
  }

  /** The index tuple at the front of s: a space number, an index number, a name. The
      space number is read without a look at its type, and the space is looked up
      before the rest is read. */
  function IndexFrom(st: Store, s: seq<byte>): (x: Step)
    requires Sound(st)
    ensures x.Done? ==> Sound(x.st)
  {
    if s == [] then Outside
    else if !StartsWith(s, MpArray) then Refused
    else match ReadToken(s)
      case Bad => Outside
      case Got(_, t) =>
        match TakeUInt(t)
        case Bad => Outside
        case Got(sid, u) =>
          if u == [] then Outside
          else if !StartsWith(u, MpUInt) then Refused
          else if Native(sid % U32) !in st.hash then Refused
          else IndexInto(st, st.hash[Native(sid % U32)], u)
  }

  function RowFrom(st: Store, s: seq<byte>, ofIndexes: bool): (x: Step)
    requires Sound(st)
    ensures x.Done? ==> Sound(x.st)
  {
    if ofIndexes then IndexFrom(st, s) else SpaceFrom(st, s)
  }

  /** Rows taken before a bad one stay. */
  datatype Load = Loaded(st: Store, ok: bool) | Unread

  function LoadRows(st: Store, s: seq<byte>, n: nat, ofIndexes: bool): (x: Load)
    requires Sound(st)
    ensures x.Loaded? ==> Sound(x.st)
    decreases n
  {
    if n == 0 then Loaded(st, true)
    else match RowFrom(st, s, ofIndexes)
      case Outside => Unread
      case Refused => Loaded(st, false)
      case Done(st') =>
        match Decode(s)
        case Bad => Unread
        case Got(_, t) => LoadRows(st', t, n - 1, ofIndexes)
  }

  function OpenArray(s: seq<byte>): Parsed<nat> {
    if !Decode(s).Got? || !StartsWith(s, MpArray) then Bad
    else match ReadToken(s)
      case Got(Open(_, count), t) => Got(count, t)
      case _ => Bad
  }

  /** All rows of a reply's tuples. */
  function LoadReply(st: Store, data: Option<seq<byte>>, ofIndexes: bool): (x: Load)
    requires Sound(st)
    ensures x.Loaded? ==> Sound(x.st)
  {
    match data
    case None => Loaded(st, false)
    case Some(s) =>
      match OpenArray(s)
      case Bad => Loaded(st, false)
      case Got(n, t) => LoadRows(st, t, n, ofIndexes)
  }
}
