/** The reply parser: a cursor over the payload fills the fields of the reply. */
module Reply {
  import opened Bytes
  import opened MsgPack
  import opened MsgPackLaws
  import opened ReplySpec
  import BufStream
  import IoRecv

  class ReplyObject {
    var buf: Option<seq<byte>>
    var bitmap: set<nat>
    var code: nat
    var sync: nat
    var schemaId: nat
    var error: Option<seq<byte>>
    var data: Option<seq<byte>>

    function View(): ReplySpec.Reply
      reads this
    {
      ReplySpec.Reply(bitmap, code, sync, schemaId, error, data)
    }

    constructor ()
      ensures View() == EMPTY && buf == None
    {
      buf, bitmap, code, sync, schemaId, error, data := None, {}, 0, 0, 0, None, None;
    }

    method Clear()
      modifies this
      ensures View() == EMPTY && buf == None
    {
      buf, bitmap, code, sync, schemaId, error, data := None, {}, 0, 0, 0, None, None;
    }

    /** A copy of the whole object, as memcpy makes it. */
    method CopyFrom(r: ReplyObject)
      modifies this
      ensures View() == old(r.View()) && buf == old(r.buf)
    {
      buf, bitmap, code, sync, schemaId, error, data := r.buf, r.bitmap, r.code, r.sync, r.schemaId, r.error, r.data;
    }

    /** One turn of the header loop, with the cursor at start. */
    method ReadHeaderPair(payload: seq<byte>, start: nat) returns (ok: bool, p: nat)
      requires start <= |payload| && HeaderPair(payload[start..], View()) != Lost
      modifies this
      ensures p <= |payload| && buf == old(buf)
      ensures match HeaderPair(payload[start..], old(View()))
        case Go(r, rest) => ok && View() == r && rest == payload[p..]
        case Abort => !ok
        case Lost => false
    {
      hide Decode, TypeOf;
      p := start;
      var s := payload[p..];
      if TypeOf(s[0]) != MpUInt {
        return false, p;
      }
      var key := TakeUInt(s).val % U32;
      var t := TakeUInt(s).rest;
      if TypeOf(t[0]) != MpUInt {
        return false, p;
      }
      var v := TakeUInt(t);
      RestIsSuffix(payload, p, s, t);
      RestIsSuffix(payload, |payload| - |t|, t, v.rest);
      if key == SYNC {
        sync := v.val;
      } else if key == CODE {
        code := v.val;
      } else if key == SCHEMA_ID {
        schemaId := v.val;
      } else {
        return false, p;
      }
      bitmap := bitmap + {key};
      return true, |payload| - |v.rest|;
    }

    /** The header loop, from the cursor p on. */
    method ReadHeader(payload: seq<byte>, start: nat, pairs: nat) returns (ok: bool, p: nat)
      requires start <= |payload| && Header(payload[start..], pairs, View()) != Lost
      modifies this
      ensures p <= |payload| && buf == old(buf)
      ensures match Header(payload[start..], pairs, old(View()))
        case Go(r, rest) => ok && View() == r && rest == payload[p..]
        case Abort => !ok
        case Lost => false
    {
      hide HeaderPair;
      ghost var spec := Header(payload[start..], pairs, View());
      p, ok := start, true;
      var n: nat := pairs;
      while n > 0
        invariant p <= |payload| && n <= pairs && buf == old(buf) && ok
        invariant Header(payload[p..], n, View()) == spec
        decreases n
      {
        ok, p := ReadHeaderPair(payload, p);
        if !ok {
          return;
        }
        n := n - 1;
      }
    }

    /** The value of a body key, with the cursor at start. */
    method ReadBodyValue(key: nat, payload: seq<byte>, start: nat) returns (ok: bool, p: nat)
      requires start <= |payload| && BodyValue(key, payload[start..], View()) != Lost
      modifies this
      ensures p <= |payload| && buf == old(buf)
      ensures match BodyValue(key, payload[start..], old(View()))
        case Go(r, rest) => ok && View() == r && rest == payload[p..]
        case Abort => !ok
        case Lost => false
    {
      hide Decode, TypeOf;
      p := start;
      var t := payload[p..];
      if key == ERROR {
        if TypeOf(t[0]) != MpStr {
          return false, p;
        }
        var str := Decode(t);
        SuffixOfDecode(payload, p, t);
        error := Some(str.val.raw);
        code := code % 0x8000;
        p := |payload| - |str.rest|;
      } else if key == DATA {
        if TypeOf(t[0]) != MpArray {
          return false, p;
        }
        var end := Decode(t).rest;
        SuffixOfDecode(payload, p, t);
        data := Some(t[..|t| - |end|]);
        p := |payload| - |end|;
      }
      return true, p;
    }

    /** The body loop, from the cursor start on. */
    method ReadBody(payload: seq<byte>, start: nat, pairs: nat) returns (ok: bool)
      requires start <= |payload| && Body(payload[start..], pairs, View()) != Lost
      modifies this
      ensures buf == old(buf)
      ensures match Body(payload[start..], pairs, old(View()))
        case Go(r, _) => ok && View() == r
        case Abort => !ok
        case Lost => false
    {
      hide TakeUInt, BodyValue, TypeOf;
      ghost var spec := Body(payload[start..], pairs, View());
      ok := true;
      var p: nat, n: nat := start, pairs;
      while n > 0
        invariant p <= |payload| && n <= pairs && buf == old(buf) && ok
        invariant Body(payload[p..], n, View()) == spec
        decreases n
      {
        var s := payload[p..];
        var key := TakeUInt(s).val % U32;
        RestIsSuffix(payload, p, s, TakeUInt(s).rest);
        p := |payload| - |TakeUInt(s).rest|;
        ok, p := ReadBodyValue(key, payload, p);
        if !ok {
          return;
        }
        bitmap := bitmap + {key};
        n := n - 1;
      }
    }

    /** Parses a payload into this reply; on failure every field is zero again. */
    method FromPayload(payload: seq<byte>) returns (rc: int)
      requires !ParseReply(payload).Undefined?
      modifies this
      ensures match ParseReply(payload)
        case Complete(r) => rc == 0 && View() == r && buf == Some(payload)
        case Rollback => rc == -1 && View() == EMPTY && buf == None
        case Undefined => false
    {
      hide Decode, Header, Body, OpenMap;
      Clear();
      buf := Some(payload);
      var head := OpenMap(payload);
      if head.Bad? {
        Clear();
        return -1;
      }
      OpenMapSuffix(payload, 0, payload);
      var ok, p := ReadHeader(payload, |payload| - |head.rest|, head.val);
      if !ok {
        Clear();
        return -1;
      }
      var body := OpenMap(payload[p..]);
      if body.Bad? {
        Clear();
        return -1;
      }
      OpenMapSuffix(payload, p, payload[p..]);
      ok := ReadBody(payload, |payload| - |body.rest|, body.val);
      if !ok {
        Clear();
        return -1;
      }
      return 0;
    }
  }

  lemma SuffixOfDecode(payload: seq<byte>, p: nat, s: seq<byte>)
    requires p <= |payload| && s == payload[p..] && Decode(s).Got?
    ensures |Decode(s).rest| < |s| && Decode(s).rest == payload[|payload| - |Decode(s).rest|..]
  {
    hide Decode;
    DecodeSuffix(s);
    assert payload[p..][|s| - |Decode(s).rest|..] == payload[|payload| - |Decode(s).rest|..];
  }

  lemma RestIsSuffix(payload: seq<byte>, p: nat, s: seq<byte>, t: seq<byte>)
    requires p <= |payload| && s == payload[p..] && TakeUInt(s).Got? && TakeUInt(s).rest == t
    ensures |t| < |s| && t == payload[|payload| - |t|..]
  {
    hide Decode;
    SuffixOfDecode(payload, p, s);
  }

  lemma OpenMapSuffix(payload: seq<byte>, p: nat, s: seq<byte>)
    requires p <= |payload| && s == payload[p..] && OpenMap(s).Got?
    ensures var t := OpenMap(s).rest; |t| < |s| && t == payload[|payload| - |t|..]
  {
    hide Decode;
    ReadTokenSuffix(s);
  }

  /** Parses one reply from a buffer, or tells how many bytes are missing. off is
      what the caller gets back: the bytes missing, or the bytes used. */
  method ParseBuffer(r: ReplyObject, s: seq<byte>) returns (rc: int, off: nat)
    requires !AnswerTo(s).Wild?
    modifies r
    ensures match AnswerTo(s)
      case Need(more) => rc == 1 && off == more && r.View() == old(r.View())
      case Failed => rc == -1
      case Ready(reply, used) => rc == 0 && off == used && r.View() == reply
      case Wild => false
  {
    hide ParseReply, Decode;
    off := 0;
    if |s| < 5 {
      return 1, 5 - |s|;
    }
    if TypeOf(s[0]) != MpUInt {
      return -1, 0;
    }
    var length := TakeUInt(s[..5]).val;
    if |s| < length + 5 {
      return 1, length + 5 - |s|;
    }
    off := length + 5;
    rc := r.FromPayload(s[5..length + 5]);
  }

  /** The next reply of a buffer stream; 1 stands for the end. */
  method BufReply(s: BufStream.Buffer, r: ReplyObject) returns (rc: int)
    requires s.Valid() && !AnswerTo(s.Contents()[s.rdoff..]).Wild?
    modifies s`rdoff, r
    ensures s.Valid() && s.Contents() == old(s.Contents())
    ensures
      if s.data.Length == 0 && !s.borrowed then rc == -1 && s.rdoff == old(s.rdoff)
      else match AnswerTo(s.Contents()[old(s.rdoff)..])
        case Need(_) => rc == 1 && s.rdoff == old(s.rdoff)
        case Failed => rc == -1 && s.rdoff == old(s.rdoff)
        case Ready(reply, used) => rc == 0 && s.rdoff == old(s.rdoff) + used && r.View() == reply
        case Wild => false
  {
    hide AnswerTo;
    if s.data.Length == 0 && !s.borrowed {
      return -1;
    }
    EmptyNeeds();
    if s.size == s.rdoff {
      assert s.Contents()[s.rdoff..] == [];
      return 1;
    }
    var off;
    rc, off := ParseBuffer(r, s.data[..s.size][s.rdoff..]);
    AnswerFits(s.Contents()[s.rdoff..]);
    if rc == 0 {
      s.rdoff := s.rdoff + off;
    }
  }

  lemma EmptyNeeds()
    ensures AnswerTo([]) == Need(5)
  {
  }

  lemma AnswerFits(s: seq<byte>)
    ensures AnswerTo(s).Ready? ==> AnswerTo(s).used <= |s|
  {
    hide ParseReply, PrefixOf;
  }

  datatype Status = IterOk | IterFail

  /** The reply iterator over a buffer stream. */
  class ReplyIter {
    const s: BufStream.Buffer
    const r: ReplyObject
    var status: Status

    constructor (s: BufStream.Buffer)
      ensures this.s == s && status == IterOk && fresh(r)
    {
      this.s, status := s, IterOk;
      r := new ReplyObject();
    }

    method Next() returns (more: bool)
      requires s.Valid() && !AnswerTo(s.Contents()[s.rdoff..]).Wild?
      modifies this`status, s`rdoff, r
      ensures s.Valid() && s.Contents() == old(s.Contents())
      ensures
        if s.data.Length == 0 && !s.borrowed then !more && status == IterFail && s.rdoff == old(s.rdoff)
        else match AnswerTo(s.Contents()[old(s.rdoff)..])
          case Need(_) => !more && status == old(status) && s.rdoff == old(s.rdoff)
          case Failed => !more && status == IterFail && s.rdoff == old(s.rdoff)
          case Ready(reply, used) =>
            more && status == old(status) && s.rdoff == old(s.rdoff) + used && r.View() == reply
          case Wild => false
    {
      hide AnswerTo;
      r.Clear();
      var rc := BufReply(s, r);
      if rc == -1 {
        status := IterFail;
        return false;
      }
      return rc != 1;
    }
  }
}
