/** What the reply parser makes of bytes. */
module ReplySpec {
  import opened Bytes
  import opened MsgPack
  import opened MsgPackLaws

  const CODE := 0x00
  const SYNC := 0x01
  const SCHEMA_ID := 0x05
  const DATA := 0x30
  const ERROR := 0x31

  /** A parsed reply. bitmap holds the keys seen; error is the text of the message
      and data the bytes of the tuples. */
  datatype Reply = Reply(
    bitmap: set<nat>, code: nat, sync: nat, schemaId: nat,
    error: Option<seq<byte>>, data: Option<seq<byte>>)

  const EMPTY := Reply({}, 0, 0, 0, None, None)

  /** Undefined stands for reads outside the reply, a key of the wrong type, and a
      bitmap position that does not exist. */
  datatype Outcome = Complete(r: Reply) | Rollback | Undefined

  predicate StartsWith(s: seq<byte>, t: MpType) {
    s != [] && TypeOf(s[0]) == t
  }

  /** mp_decode_uint on a value known to be unsigned. */
  function TakeUInt(s: seq<byte>): (r: Parsed<nat>)
    ensures r.Got? ==> |r.rest| < |s|
  {
    match Decode(s)
    case Got(UInt(n), t) => Got(n, t)
    case _ => Bad
  }

  datatype Section = Go(r: Reply, rest: seq<byte>) | Abort | Lost

  /** One header pair. */
  function HeaderPair(s: seq<byte>, r: Reply): (x: Section)
    ensures x.Go? ==> |x.rest| < |s|
  {
    if s == [] then Lost
    else if !StartsWith(s, MpUInt) then Abort
    else match TakeUInt(s)
      case Bad => Lost
      case Got(k, t) =>
        var key := k % U32;
        if t == [] then Lost
        else if !StartsWith(t, MpUInt) then Abort
        else match TakeUInt(t)
          case Bad => Lost
          case Got(v, u) =>
            if key == SYNC then Go(r.(sync := v, bitmap := r.bitmap + {key}), u)
            else if key == CODE then Go(r.(code := v, bitmap := r.bitmap + {key}), u)
            else if key == SCHEMA_ID then Go(r.(schemaId := v, bitmap := r.bitmap + {key}), u)
            else Abort
  }

  /** n header pairs. */
  function Header(s: seq<byte>, n: nat, r: Reply): Section
    decreases n
  {
    if n == 0 then Go(r, s)
    else match HeaderPair(s, r)
      case Go(r', t) => Header(t, n - 1, r')
      case x => x
  }

  /** The value that belongs to a body key, if the key is known. */
  function BodyValue(key: nat, t: seq<byte>, r: Reply): (x: Section)
    ensures x.Go? ==> |x.rest| <= |t|
  {
    if key == ERROR then
      if t == [] then Lost
      else if !StartsWith(t, MpStr) then Abort
      else match Decode(t)
        case Got(Str(text), u) => Go(r.(error := Some(text), code := r.code % 0x8000), u)
        case _ => Lost
    else if key == DATA then
      if t == [] then Lost
      else if !StartsWith(t, MpArray) then Abort
      else match Decode(t)
        case Got(_, u) => Go(r.(data := Some(t[..|t| - |u|])), u)
        case Bad => Lost
    else if key >= 64 then Lost
    else Go(r, t)
  }

  /** One body pair. The value of an unknown key is not skipped. */
  function BodyPair(s: seq<byte>, r: Reply): (x: Section)
    ensures x.Go? ==> |x.rest| < |s|
  {
    if !StartsWith(s, MpUInt) then Lost
    else match TakeUInt(s)
      case Bad => Lost
      case Got(k, t) =>
        var key := k % U32;
        match BodyValue(key, t, r)
        case Go(r', u) => Go(r'.(bitmap := r'.bitmap + {key}), u)
        case x => x
  }

  /** n body pairs. */
  function Body(s: seq<byte>, n: nat, r: Reply): Section
    decreases n
  {
    if n == 0 then Go(r, s)
    else match BodyPair(s, r)
      case Go(r', t) => Body(t, n - 1, r')
      case x => x
  }

  /** The map header at the front of s, if a complete map starts there. */
  function OpenMap(s: seq<byte>): Parsed<nat> {
    if !Decode(s).Got? || !StartsWith(s, MpMap) then Bad
    else match ReadToken(s)
      case Got(Open(_, count), t) => Got(count, t)
      case _ => Bad
  }

  /** A payload: a header map, then a body map. */
  function ParseReply(payload: seq<byte>): Outcome {
    match OpenMap(payload)
    case Bad => Rollback
    case Got(n, s) =>
      match Header(s, n, EMPTY)
      case Abort => Rollback
      case Lost => Undefined
      case Go(r, t) =>
        match OpenMap(t)
        case Bad => Rollback
        case Got(m, u) =>
          match Body(u, m, r)
          case Abort => Rollback
          case Lost => Undefined
          case Go(r', _) => Complete(r')
  }

  datatype Prefix = Length(n: nat) | NotANumber | TooWide

  /** The length announced by five bytes. The nine-byte form does not fit in them. */
  function PrefixOf(s: seq<byte>): Prefix
    requires |s| >= 5
  {
    if TypeOf(s[0]) != MpUInt then NotANumber
    else match TakeUInt(s[..5])
      case Got(n, _) => Length(n)
      case Bad => TooWide
  }

  /** The answer to a buffer that may hold only a part of a reply. */
  datatype Answer = Need(more: nat) | Failed | Ready(r: Reply, used: nat) | Wild

  function AnswerTo(s: seq<byte>): Answer {
    if |s| < 5 then Need(5 - |s|)
    else match PrefixOf(s)
      case NotANumber => Failed
      case TooWide => Wild
      case Length(n) =>
        if |s| < n + 5 then Need(n + 5 - |s|)
        else match ParseReply(s[5..n + 5])
          case Complete(r) => Ready(r, n + 5)
          case Rollback => Failed
          case Undefined => Wild
  }
}
