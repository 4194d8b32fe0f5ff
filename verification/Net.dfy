/** The network stream: requests in flight are counted, and replies are read only
    while one is due. */
module Net {
  import opened Bytes
  import opened MsgPack
  import opened MsgPackLaws
  import opened ReplySpec
  import opened Reply
  import opened SchemaSpec
  import opened Reload
  import RequestSpec
  import BufStream
  import Direct
  import DirectLaws
  import RequestLaws
  import IoSend
  import IoRecv
  import Schema
  import Framing
  import ReplyLaws
  import SchemaLaws

  /** What a receiver has yet to deliver: its buffer, and what the transport holds. */
  ghost function Ahead(s: IoRecv.Receiver): seq<byte>
    reads s, s.buf, s.source
    requires s.Valid()
  {
    s.Pending() + s.source.incoming[s.source.pos..]
  }

  method Receive(s: IoRecv.Receiver, n: nat) returns (got: int, bytes: seq<byte>)
    requires s.Valid()
    modifies s, s.buf, s.source
    ensures s.Valid() && (got == -1 || got == n)
    ensures got == n ==> |bytes| == n && old(Ahead(s)) == bytes + Ahead(s)
    ensures s.source.reliable && 0 < n <= |old(Ahead(s))| ==> got == n
  {
    var out := new byte[n];
    ghost var pending, p, inc := s.Pending(), s.source.pos, s.source.incoming;
    got := s.Recv(out, n);
    bytes := out[..];
    if got == n {
      Conserved(bytes, s.Pending(), pending, inc, p, s.source.pos);
    }
  }

  lemma Conserved(d: seq<byte>, after: seq<byte>, before: seq<byte>, inc: seq<byte>, p: nat, q: nat)
    requires p <= q <= |inc| && d + after == before + inc[p..q]
    ensures before + inc[p..] == d + (after + inc[q..])
  {
    assert inc[p..] == inc[p..q] + inc[q..];
    assert before + (inc[p..q] + inc[q..]) == before + inc[p..q] + inc[q..];
    assert d + after + inc[q..] == d + (after + inc[q..]);
  }

  lemma FiveThenRest(s: seq<byte>, five: seq<byte>, t: seq<byte>)
    requires s == five + t && |five| == 5
    ensures PrefixOf(s) == PrefixOf(five)
    ensures !AnswerTo(s).Wild? ==> !PrefixOf(five).TooWide?
    ensures PrefixOf(five).NotANumber? ==> AnswerTo(s) == Failed
    ensures PrefixOf(five).Length? && |t| < PrefixOf(five).n ==> AnswerTo(s).Need?
    ensures PrefixOf(five).Length? && |t| >= PrefixOf(five).n ==>
      var n := PrefixOf(five).n;
      AnswerTo(s) == match ParseReply(t[..n])
        case Complete(r) => Ready(r, n + 5)
        case Rollback => Failed
        case Undefined => Wild
  {
    hide ParseReply, PrefixOf;
    Framing.TakeUIntOf(five, t);
    if PrefixOf(five).Length? && |t| >= PrefixOf(five).n {
      assert s[5..PrefixOf(five).n + 5] == t[..PrefixOf(five).n];
    }
  }

  /** Reads one reply: five bytes, then as many as they tell. */
  method ReplyFrom(r: ReplyObject, s: IoRecv.Receiver) returns (rc: int)
    requires s.Valid() && !AnswerTo(Ahead(s)).Wild?
    modifies r, s, s.buf, s.source
    ensures s.Valid() && rc in {0, -1}
    ensures rc == 0 ==>
      var a := AnswerTo(old(Ahead(s)));
      && a.Ready? && r.View() == a.r
      && a.used <= |old(Ahead(s))| && Ahead(s) == old(Ahead(s))[a.used..]
    ensures rc == 0 ==> r.buf.Some?
    ensures rc == -1 ==> r.View() == EMPTY && r.buf.None?
    ensures s.source.reliable && AnswerTo(old(Ahead(s))).Ready? ==> rc == 0
  {
    hide ParseReply, AnswerTo;
    ghost var ahead := Ahead(s);
    r.Clear();
    AnswerNeedsFive(ahead);
    var got, five := Receive(s, 5);
    if got == -1 {
      return -1;
    }
    ghost var t := Ahead(s);
    FiveThenRest(ahead, five, t);
    match PrefixOf(five) {
      case NotANumber =>
        return -1;
      case Length(n) =>
        EmptyRefused();
        var payload;
        got, payload := Receive(s, n);
        if got == -1 {
          r.Clear();
          return -1;
        }
        assert t[..n] == payload && t[n..] == Ahead(s);
        assert ahead[n + 5..] == t[n..];
        rc := r.FromPayload(payload);
      case TooWide =>
        assert false;
    }
  }

  lemma AnswerNeedsFive(s: seq<byte>)
    ensures AnswerTo(s).Ready? ==> |s| >= 5
  {
  }

  lemma EmptyRefused()
    ensures ParseReply([]) == Rollback
  {
  }

  // ----- the stream -----

  class NetStream {
    const sender: IoSend.Sender
    const receiver: IoRecv.Receiver
    const schema: Schema.SchemaIndex
    var wrcnt: nat
    var reqid: nat
    var connected: bool
    /** Requests written and replies asked for since the stream was made. */
    ghost var written: nat
    ghost var asked: nat

    ghost function Repr(): set<object>
      reads this, schema
    {
      {this, sender, sender.buf, sender.wire, receiver, receiver.buf, receiver.source} + schema.Repr()
    }

    /** The parts do not share memory. */
    ghost predicate Separate()
      reads this, schema
    {
      && sender.buf != receiver.buf
      && this !in schema.Repr() && sender !in schema.Repr() && sender.wire !in schema.Repr()
      && receiver !in schema.Repr() && receiver.source !in schema.Repr()
      && sender.buf !in schema.Repr() && receiver.buf !in schema.Repr()
    }

    /** The requests in flight are those written and not yet asked for. */
    ghost predicate Valid()
      reads Repr()
    {
      && Separate() && sender.Valid() && receiver.Valid() && schema.Valid()
      && asked <= written && wrcnt == (written - asked) % U32 && reqid < U64
    }

    constructor (sender: IoSend.Sender, receiver: IoRecv.Receiver, schema: Schema.SchemaIndex)
      requires sender.Valid() && receiver.Valid() && schema.Valid()
      requires sender.buf != receiver.buf && sender.buf !in schema.Repr() && receiver.buf !in schema.Repr()
      requires sender !in schema.Repr() && receiver !in schema.Repr()
      requires sender.wire !in schema.Repr() && receiver.source !in schema.Repr()
      ensures Valid() && this.sender == sender && this.receiver == receiver && this.schema == schema
      ensures wrcnt == 0 && reqid == 0 && !connected
    {
      this.sender, this.receiver, this.schema := sender, receiver, schema;
      wrcnt, reqid, connected, written, asked := 0, 0, false, 0, 0;
    }

    /** A scatter list as one request. */
    method Writev(iov: array<seq<byte>>) returns (rv: int)
      requires Valid() && iov !in Repr()
      modifies this`wrcnt, this`written, sender`off, sender`error, sender.wire, sender.buf, iov
      ensures Valid() && Repr() == old(Repr())
      ensures rv == -1 ==> wrcnt == old(wrcnt) && written == old(written)
      ensures rv != -1 ==> wrcnt == (old(wrcnt) + 1) % U32 && written == old(written) + 1
      ensures rv != -1 ==> sender.Stream() == old(sender.Stream()) + old(Concat(iov[..]))
      ensures rv == -1 && sender.error == IoSend.EBig ==> sender.Stream() == old(sender.Stream())
      ensures sender.TooBig(|old(Concat(iov[..]))|) ==> rv == -1
      ensures sender.wire.reliable && rv == -1 ==>
        sender.TooBig(|old(Concat(iov[..]))|)
        || (iov.Length > 0 && old(Concat(iov[..sender.Batch(iov.Length)])) == [])
    {
      hide Concat, Ahead;
      rv := sender.Sendv(iov);
      if rv != -1 {
        CountRequest();
      }
    }

    /** One more request in flight. */
    method CountRequest()
      requires Valid()
      modifies this`wrcnt, this`written
      ensures Valid() && wrcnt == (old(wrcnt) + 1) % U32 && written == old(written) + 1
    {
      wrcnt := (wrcnt + 1) % U32;
      written := written + 1;
    }

    method Write(data: seq<byte>) returns (rv: int)
      requires Valid()
      modifies this`wrcnt, this`written, sender`off, sender`error, sender.wire, sender.buf
      ensures Valid() && Repr() == old(Repr())
      ensures rv == -1 ==> wrcnt == old(wrcnt) && written == old(written)
      ensures rv != -1 ==> wrcnt == (old(wrcnt) + 1) % U32 && written == old(written) + 1
      ensures rv != -1 ==> sender.Stream() == old(sender.Stream()) + data
      ensures rv == -1 && sender.error == IoSend.EBig ==> sender.Stream() == old(sender.Stream())
    {
      rv := sender.Send(data);
      if rv != -1 {
        CountRequest();
      }
    }

    /** The next reply that is due; 1 stands for none. */
    method ReadReply(r: ReplyObject) returns (rc: int)
      requires Valid() && r !in Repr() && (wrcnt > 0 ==> !AnswerTo(Ahead(receiver)).Wild?)
      modifies this`wrcnt, this`asked, r, receiver, receiver.buf, receiver.source
      ensures Valid() && Repr() == old(Repr()) && rc in {0, 1, -1}
      ensures rc == 1 <==> old(wrcnt) == 0
      ensures rc == 1 ==> wrcnt == 0 && asked == old(asked) && Ahead(receiver) == old(Ahead(receiver))
      ensures rc != 1 ==> wrcnt == old(wrcnt) - 1 && asked == old(asked) + 1
      ensures rc == 0 ==>
        var a := AnswerTo(old(Ahead(receiver)));
        && a.Ready? && r.View() == a.r && r.buf.Some?
        && a.used <= |old(Ahead(receiver))| && Ahead(receiver) == old(Ahead(receiver))[a.used..]
      ensures rc == -1 ==> r.View() == EMPTY && r.buf.None?
      ensures receiver.source.reliable && AnswerTo(old(Ahead(receiver))).Ready? ==> rc != -1
    {
      hide AnswerTo;
      if wrcnt == 0 {
        return 1;
      }
      wrcnt := wrcnt - 1;
      asked := asked + 1;
      rc := ReplyFrom(r, receiver);
    }

    /** One step of the reply iterator. */
    method NextReply(r: ReplyObject) returns (more: bool)
      requires Valid() && r !in Repr() && (wrcnt > 0 ==> !AnswerTo(Ahead(receiver)).Wild?)
      modifies this`wrcnt, this`asked, r, receiver, receiver.buf, receiver.source
      ensures Valid() && Repr() == old(Repr())
      ensures old(wrcnt) == 0 ==> !more && wrcnt == 0
      ensures old(wrcnt) > 0 ==> wrcnt == old(wrcnt) - 1
      ensures more ==>
        var a := AnswerTo(old(Ahead(receiver)));
        && a.Ready? && r.View() == a.r && r.buf.Some?
        && a.used <= |old(Ahead(receiver))| && Ahead(receiver) == old(Ahead(receiver))[a.used..]
      ensures receiver.source.reliable && old(wrcnt) > 0 && AnswerTo(old(Ahead(receiver))).Ready? ==> more
    {
      hide AnswerTo;
      r.Clear();
      var rc := ReadReply(r);
      return rc == 0;
    }

    /** Asks for all rows of a system space. The encoder is the one for requests to any
        stream; here its one write goes to the network. */
    method GetRows(space: nat) returns (rv: int)
      requires Valid() && space < U32
      modifies this`wrcnt, this`written, this`reqid, sender`off, sender`error, sender.wire, sender.buf
      ensures Valid() && Repr() == old(Repr()) && reqid == (old(reqid) + 1) % U64
      ensures rv == -1 ==> wrcnt == old(wrcnt)
      ensures rv != -1 ==> wrcnt == (old(wrcnt) + 1) % U32
      ensures rv != -1 ==> sender.Stream() == old(sender.Stream()) + RowsFrame(space, old(reqid))
      ensures sender.wire.reliable ==> (rv == -1 <==> sender.TooBig(|RowsFrame(space, old(reqid))|))
    {
      hide RowsFrame;
      var frame;
      frame, reqid := EncodeRows(space, reqid);
      var iov := new seq<byte>[1](_ => frame);
      ConcatOne(frame);
      RowsFrameFull(space, old(reqid));
      assert iov[..] == [frame] && iov[..sender.Batch(1)] == [frame];
      rv := Writev(iov);
    }
  }

  method EncodeRows(space: nat, reqid: nat) returns (frame: seq<byte>, next: nat)
    requires space < U32 && reqid < U64
    ensures frame == RowsFrame(space, reqid) && next == (reqid + 1) % U64
  {
    hide RequestSpec.FrameBytes, Direct.DirectPairs, Direct.SelectFields, Direct.IsArray;
    EmptyArrayIsArray();
    var encoder := new BufStream.Buffer();
    encoder.reqid := reqid;
    var _ := Direct.Select(encoder, space, VIN_NAME, U32 - 1, 0, ITER_ALL, [0x90]);
    frame, next := encoder.data[..encoder.size], encoder.reqid;
    assert frame == [] + RowsFrame(space, reqid);
  }

  const VSP_SPACE := 281
  const VSP_INDEX := 289
  const VIN_NAME := 2
  const ITER_ALL := 2

  /** A request for all rows of a space. */
  function RowsFrame(space: nat, sync: nat): seq<byte>
    requires space < U32
  {
    RequestSpec.FrameBytes(RequestSpec.OP_SELECT, sync,
      Direct.DirectPairs(Direct.SelectFields(space, VIN_NAME, U32 - 1, 0, ITER_ALL, [0x90])))
  }

  lemma {:induction false} PairsShort(ps: seq<RequestSpec.Pair>)
    requires forall i | 0 <= i < |ps| :: |ps[i].chunk| <= 9
    ensures |RequestSpec.PairsBytes(ps)| <= 18 * |ps|
  {
    hide UIntBytes;
    if ps != [] {
      PairsShort(ps[..|ps| - 1]);
    }
  }

  lemma RowsPairs(space: nat)
    requires space < U32
    ensures var ps := Direct.DirectPairs(Direct.SelectFields(space, VIN_NAME, U32 - 1, 0, ITER_ALL, [0x90]));
      |ps| <= 7 && forall i | 0 <= i < |ps| :: |ps[i].chunk| <= 9
  {
    hide UIntBytes;
  }

  /** A reader finds in that request: type 1, its sync, the space, index 2, limit
      0xffffffff, offset 0, iterator 2 and an empty array as key. */
  lemma RowsSay(space: nat, sync: nat, t: seq<byte>)
    requires space < U32 && sync < U64
    ensures RequestLaws.ReadFrame(RowsFrame(space, sync) + t)
         == Some((RequestLaws.Message(UInt(1), UInt(sync), AllRowsOf(space)), t))
  {
    hide RequestLaws.ReadFrame, RequestSpec.FrameBytes, RequestSpec.PairsBytes, Direct.DirectPairs, Direct.SelectFields,
      Direct.IsArray, UIntBytes;
    EmptyArrayIsArray();
    assert RequestLaws.RawValue([0x90]) == Node(ArrayKind, []);
    RowsPairs(space);
    PairsShort(Direct.DirectPairs(Direct.SelectFields(space, VIN_NAME, U32 - 1, 0, ITER_ALL, [0x90])));
    DirectLaws.SelectSays(space, 2, 0xffff_ffff, 0, 2, [0x90], sync, t);
  }

  /** The two requests of a reload, one behind the other: all spaces under 127, all
      indexes under 128. */
  lemma AskSays(t: seq<byte>)
    ensures var asked := RowsFrame(VSP_SPACE, SPACES_SYNC) + (RowsFrame(VSP_INDEX, INDEXES_SYNC) + t);
      && RequestLaws.ReadFrame(asked).Some?
      && var (spaces, rest) := RequestLaws.ReadFrame(asked).value;
      && RequestLaws.ReadFrame(rest).Some?
      && var (indexes, end) := RequestLaws.ReadFrame(rest).value;
      && spaces == RequestLaws.Message(UInt(1), UInt(127), AllRowsOf(281))
      && indexes == RequestLaws.Message(UInt(1), UInt(128), AllRowsOf(289)) && end == t
  {
    hide RequestLaws.ReadFrame, RowsFrame;
    RowsSay(VSP_SPACE, SPACES_SYNC, RowsFrame(VSP_INDEX, INDEXES_SYNC) + t);
    RowsSay(VSP_INDEX, INDEXES_SYNC, t);
  }

  function AllRowsOf(space: nat): map<nat, Value> {
    map[0x10 := UInt(space), 0x11 := UInt(2), 0x12 := UInt(0xffff_ffff), 0x13 := UInt(0), 0x14 := UInt(2),
        0x20 := Node(ArrayKind, [])]
  }

  lemma RowsFrameFull(space: nat, sync: nat)
    requires space < U32
    ensures RowsFrame(space, sync) != []
  {
    hide Direct.DirectPairs, RequestSpec.Payload;
  }

  lemma EmptyArrayIsArray()
    ensures Direct.IsArray([0x90])
  {
  }

  /** The next n replies of s can be read, and so can their tuples. */
  ghost predicate Readable(s: seq<byte>, n: nat)
    decreases n
  {
    n > 0 ==>
      && !AnswerTo(s).Wild?
      && (AnswerTo(s).Ready? ==>
            var a := AnswerTo(s);
            Tame(a.r) && (a.used <= |s| ==> Readable(s[a.used..], n - 1)))
  }

  /** The send buffer, if there is one, can hold each of the two requests. */
  predicate RequestsFit(sender: IoSend.Sender) {
    !sender.TooBig(|RowsFrame(VSP_SPACE, SPACES_SYNC)|) && !sender.TooBig(|RowsFrame(VSP_INDEX, INDEXES_SYNC)|)
  }

  /** Sends the two requests under the sync numbers 127 and 128, and puts the request
      counter back; the old value has been kept in 32 bits. */
  method Ask(net: NetStream) returns (ghost queued: nat, ghost flushed: bool)
    requires net.Valid() && net.wrcnt == 0
    modifies net`wrcnt, net`written, net`reqid, net.sender`off, net.sender`error, net.sender.wire, net.sender.buf
    ensures net.Valid() && net.Repr() == old(net.Repr())
    ensures net.wrcnt == queued <= 2
    ensures net.reqid == old(net.reqid) % U32 && (net.reqid == old(net.reqid) <==> old(net.reqid) < U32)
    ensures queued == 2 && flushed ==>
      net.sender.wire.sent
      == old(net.sender.Stream()) + RowsFrame(VSP_SPACE, SPACES_SYNC) + RowsFrame(VSP_INDEX, INDEXES_SYNC)
    ensures net.sender.wire.reliable ==> flushed && (queued == 2 <==> RequestsFit(net.sender))
  {
    hide RowsFrame;
    var oldsync := net.reqid % U32;
    net.reqid := SPACES_SYNC;
    var first := net.GetRows(VSP_SPACE);
    var second := net.GetRows(VSP_INDEX);
    queued := (if first != -1 then 1 else 0) + (if second != -1 then 1 else 0);
    net.reqid := oldsync;
    var rv := net.sender.Flush();
    flushed := rv != -1;
  }

  predicate Saved(bkp: ReplyObject, saved: Option<ReplySpec.Reply>)
    reads bkp
  {
    bkp.buf.Some? == saved.Some? && (saved.Some? ==> bkp.View() == saved.value)
  }

  /** A reply that was set aside has indexes, and they can be loaded. */
  ghost predicate Kept(saved: Option<ReplySpec.Reply>) {
    saved.Some? ==> Tame(saved.value) && saved.value.sync == INDEXES_SYNC
  }

  /** The body of the reply loop. */
  method TakeOne(schema: Schema.SchemaIndex, r: ReplyObject, bkp: ReplyObject, sloaded: nat, ghost p: Progress)
    returns (ok: bool, loaded: nat)
    requires schema.Valid() && schema.View() == p.st && sloaded == p.loaded && Saved(bkp, p.saved)
    requires Tame(r.View()) && r.buf.Some? && r != bkp && r !in schema.Repr() && bkp !in schema.Repr()
    modifies r`buf, bkp, schema.Repr()
    ensures schema.Valid() && fresh(schema.Repr() - old(schema.Repr()))
    ensures match Turn(p, old(r.View()))
      case Some(q) => ok && schema.View() == q.st && loaded == q.loaded && Saved(bkp, q.saved)
      case None => !ok && schema.View() == p.st
  {
    hide LoadReply;
    loaded := sloaded;
    if r.sync == SPACES_SYNC {
      if r.error.Some? {
        return false, loaded;
      }
      var _ := schema.AddSpaces(r);
      loaded := loaded + 1;
    } else if r.sync == INDEXES_SYNC {
      if r.error.Some? {
        return false, loaded;
      }
      if loaded % 2 == 0 {
        bkp.CopyFrom(r);
        r.buf := None;
        return true, loaded;
      }
      loaded := loaded + 2;
      var _ := schema.AddIndexes(r);
    } else {
      return false, loaded;
    }
    ok := true;
  }

  /** The replies of s, in a form that keeps up with reading them. */
  function Replies(s: seq<byte>): seq<ReplySpec.Reply> {
    Framing.FindAll(s).replies
  }

  lemma NextOf(s: seq<byte>)
    ensures AnswerTo(s).Ready? ==>
      var a := AnswerTo(s);
      a.used <= |s| && Replies(s) == [a.r] + Replies(s[a.used..])
    ensures !AnswerTo(s).Ready? ==> Replies(s) == []
  {
    hide AnswerTo, Framing.FindAll;
    Framing.FindNext(s, 0);
    assert s[0..] == s;
  }

  /** A reply that makes the loop jump to its error exit. */
  predicate Bad(r: ReplySpec.Reply) {
    !Good(r, SPACES_SYNC) && !Good(r, INDEXES_SYNC)
  }

  /** How many requests stay in flight when the loop has ended: none if all replies were
      read; those behind a bad reply; and those behind a read that failed. */
  function LeftInFlight(got: seq<ReplySpec.Reply>, queued: nat): nat
    requires |got| <= queued
  {
    if |got| == queued || (got != [] && Bad(got[|got| - 1])) then queued - |got| else queued - |got| - 1
  }

  /** Between two turns of the loop: what was read, where the loop stands, and the
      reply that waits in r if there is one. */
  ghost predicate Turning(net: NetStream, r: ReplyObject, bkp: ReplyObject, sloaded: nat, more: bool,
                          p: Progress, got: seq<ReplySpec.Reply>, p0: Progress, all: seq<ReplySpec.Reply>, queued: nat)
    reads net, net.schema, net.Repr(), r, bkp
  {
    && net.Valid() && r !in net.Repr() && bkp !in net.Repr() && r != bkp
    && Reached(p0, got, p) && net.schema.View() == p.st && sloaded == p.loaded && Saved(bkp, p.saved)
    && Kept(p.saved)
    && |got| <= queued && (forall i | 0 <= i < |got| :: !Bad(got[i]))
    && net.wrcnt == (if !more && |got| == queued then 0 else queued - |got| - 1)
    && (more ==> r.buf.Some? && Tame(r.View()) && Readable(Ahead(net.receiver), net.wrcnt))
    && (if more then all == got + [r.View()] + Replies(Ahead(net.receiver)) else got <= all)
    && (!more && net.receiver.source.reliable ==> |got| == queued || got == all)
  }

  /** One turn with the reply in r, and the next read. */
  method TurnOnce(net: NetStream, r: ReplyObject, bkp: ReplyObject, sloaded: nat, ghost p: Progress,
                  ghost got: seq<ReplySpec.Reply>, ghost p0: Progress, ghost all: seq<ReplySpec.Reply>,
                  ghost queued: nat)
    returns (ok: bool, loaded: nat, more: bool, ghost q: Progress)
    requires Turning(net, r, bkp, sloaded, true, p, got, p0, all, queued)
    modifies net`wrcnt, net`asked, net.receiver, net.receiver.buf, net.receiver.source, net.schema.Repr(), r, bkp
    ensures fresh(net.schema.Repr() - old(net.schema.Repr()))
    ensures net.wrcnt + (if more then 1 else 0) <= old(net.wrcnt)
    ensures ok ==> Turning(net, r, bkp, loaded, more, q, got + [old(r.View())], p0, all, queued)
    ensures !ok ==> net.Valid() && Loop(p0, got + [old(r.View())]) == (net.schema.View(), false) && !more
    ensures !ok ==> |got| + 1 + net.wrcnt == queued && got + [old(r.View())] <= all
    ensures !ok ==> Bad(old(r.View())) && (forall i | 0 <= i < |got| :: !Bad(got[i]))
  {
    hide AnswerTo, Turn, Finish, Loop, Replies, Reached, LoadReply, Readable, Tame;
    ghost var reply := r.View();
    ghost var ahead := Ahead(net.receiver);
    ok, loaded := TakeOne(net.schema, r, bkp, sloaded, p);
    ReachedTurn(p0, got, p, reply);
    q := p;
    BadExits(p, reply);
    if !ok {
      return ok, loaded, false, q;
    }
    SavedIsTame(p, reply);
    q := Turn(p, reply).value;
    more := Fetch(net, r);
    if more {
      assert got + [reply] + ([r.View()] + Replies(Ahead(net.receiver)))
          == got + [reply] + [r.View()] + Replies(Ahead(net.receiver));
    } else {
      assert got + [reply] + [] == got + [reply];
    }
  }

  /** After the loop: indexes that were set aside, and the verdict. */
  method FinishLoad(schema: Schema.SchemaIndex, bkp: ReplyObject, sloaded: nat, ghost p: Progress) returns (rc: int)
    requires schema.Valid() && schema.View() == p.st && sloaded == p.loaded && Saved(bkp, p.saved)
    requires bkp !in schema.Repr() && Kept(p.saved)
    modifies schema.Repr()
    ensures schema.Valid() && fresh(schema.Repr() - old(schema.Repr()))
    ensures rc in {0, -1} && Finish(p) == (schema.View(), rc == 0)
  {
    hide LoadReply;
    var total := sloaded;
    if bkp.buf.Some? {
      var _ := schema.AddIndexes(bkp);
      total := total + 2;
    }
    rc := if total != 3 then -1 else 0;
  }

  /** The reply loop. */
  method TakeReplies(net: NetStream, ghost queued: nat) returns (rc: int, ghost got: seq<ReplySpec.Reply>)
    requires net.Valid() && net.wrcnt == queued && Readable(Ahead(net.receiver), queued)
    modifies net`wrcnt, net`asked, net.receiver, net.receiver.buf, net.receiver.source, net.schema.Repr()
    ensures net.Valid() && rc in {0, -1}
    ensures |got| <= queued && net.wrcnt == LeftInFlight(got, queued)
    ensures forall i | 0 <= i < |got| - 1 :: !Bad(got[i])
    ensures got <= Replies(old(Ahead(net.receiver)))
    ensures ReloadFrom(old(net.schema.View()), got) == (net.schema.View(), rc == 0)
    ensures rc == -1 && net.receiver.source.reliable ==>
      || |got| == queued || got == Replies(old(Ahead(net.receiver)))
      || (got != [] && Bad(got[|got| - 1]))
  {
    hide Turning, Loop, Readable, Replies, Ahead;
    ghost var all := Replies(Ahead(net.receiver));
    ghost var p0 := Progress(net.schema.View(), 0, None);
    var r := new ReplyObject();
    var bkp := new ReplyObject();
    var more := FirstReply(net, r, bkp, p0, all, queued);
    rc, got := Turns(net, r, bkp, more, p0, all, queued);
  }

  method Turns(net: NetStream, r: ReplyObject, bkp: ReplyObject, first: bool, ghost p0: Progress,
               ghost all: seq<ReplySpec.Reply>, ghost queued: nat)
    returns (rc: int, ghost got: seq<ReplySpec.Reply>)
    requires Going(p0) && Turning(net, r, bkp, 0, first, p0, [], p0, all, queued)
    modifies net`wrcnt, net`asked, net.receiver, net.receiver.buf, net.receiver.source, net.schema.Repr(), r, bkp
    ensures net.Valid() && rc in {0, -1} && Loop(p0, got) == (net.schema.View(), rc == 0)
    ensures |got| <= queued && net.wrcnt == LeftInFlight(got, queued) && got <= all
    ensures forall i | 0 <= i < |got| - 1 :: !Bad(got[i])
    ensures rc == -1 && net.receiver.source.reliable ==>
      || |got| == queued || got == all
      || (got != [] && Bad(got[|got| - 1]))
  {
    hide Turning, Loop, Readable, Replies, Ahead;
    got := [];
    ghost var p := p0;
    var sloaded: nat, more := 0, first;
    while more
      invariant Turning(net, r, bkp, sloaded, more, p, got, p0, all, queued)
      invariant fresh(net.schema.Repr() - old(net.schema.Repr()))
      decreases net.wrcnt, more
    {
      ghost var reply := r.View();
      var ok;
      ok, sloaded, more, p := TurnOnce(net, r, bkp, sloaded, p, got, p0, all, queued);
      got := got + [reply];
      if !ok {
        return -1, got;
      }
    }
    rc := Conclude(net, r, bkp, sloaded, p, got, p0, all, queued);
  }

  method FirstReply(net: NetStream, r: ReplyObject, bkp: ReplyObject, ghost p0: Progress,
                    ghost all: seq<ReplySpec.Reply>, ghost queued: nat) returns (more: bool)
    requires net.Valid() && net.wrcnt == queued && Readable(Ahead(net.receiver), queued)
    requires r !in net.Repr() && bkp !in net.Repr() && r != bkp && bkp.buf.None?
    requires p0 == Progress(net.schema.View(), 0, None) && all == Replies(Ahead(net.receiver))
    modifies net`wrcnt, net`asked, r, net.receiver, net.receiver.buf, net.receiver.source
    ensures Turning(net, r, bkp, 0, more, p0, [], p0, all, queued)
    ensures net.schema.Repr() == old(net.schema.Repr())
  {
    hide Loop, Replies, Reached, Readable, Tame;
    ReachedStart(p0);
    more := Fetch(net, r);
    if more {
      assert [] + [r.View()] + Replies(Ahead(net.receiver)) == [r.View()] + Replies(Ahead(net.receiver));
    }
  }

  method Conclude(net: NetStream, r: ReplyObject, bkp: ReplyObject, sloaded: nat, ghost p: Progress,
                  ghost got: seq<ReplySpec.Reply>, ghost p0: Progress, ghost all: seq<ReplySpec.Reply>,
                  ghost queued: nat)
    returns (rc: int)
    requires Turning(net, r, bkp, sloaded, false, p, got, p0, all, queued)
    modifies net.schema.Repr()
    ensures net.Valid() && rc in {0, -1} && Loop(p0, got) == (net.schema.View(), rc == 0)
    ensures |got| <= queued && net.wrcnt == LeftInFlight(got, queued) && got <= all
    ensures forall i | 0 <= i < |got| - 1 :: !Bad(got[i])
    ensures net.receiver.source.reliable ==> |got| == queued || got == all
  {
    hide Loop, Finish, Replies, Reached, Readable, Tame;
    ReachedEnd(p0, got, p);
    rc := FinishLoad(net.schema, bkp, sloaded, p);
  }

  lemma BadExits(p: Progress, r: ReplySpec.Reply)
    requires Going(p)
    ensures Turn(p, r).None? <==> Bad(r)
  {
  }

  lemma SavedIsTame(p: Progress, r: ReplySpec.Reply)
    requires Going(p) && Turn(p, r).Some? && Tame(r)
    requires Kept(p.saved)
    ensures Kept(Turn(p, r).value.saved)
  {
    hide Tame;
  }

  /** The iterator's step, in terms of the replies on the stream. */
  method Fetch(net: NetStream, r: ReplyObject) returns (more: bool)
    requires net.Valid() && r !in net.Repr() && Readable(Ahead(net.receiver), net.wrcnt)
    modifies net`wrcnt, net`asked, r, net.receiver, net.receiver.buf, net.receiver.source
    ensures net.Valid() && net.Repr() == old(net.Repr())
    ensures net.wrcnt == (if old(net.wrcnt) == 0 then 0 else old(net.wrcnt) - 1)
    ensures more ==> old(net.wrcnt) > 0
    ensures more ==> r.buf.Some? && Tame(r.View()) && Readable(Ahead(net.receiver), net.wrcnt)
    ensures more ==> Replies(old(Ahead(net.receiver))) == [r.View()] + Replies(Ahead(net.receiver))
    ensures !more && net.receiver.source.reliable ==> old(net.wrcnt) == 0 || Replies(old(Ahead(net.receiver))) == []
  {
    hide AnswerTo, Replies, Tame;
    NextOf(Ahead(net.receiver));
    more := net.NextReply(r);
  }

  lemma {:induction false} ReadableFewer(s: seq<byte>, m: nat, n: nat)
    requires m <= n && Readable(s, n)
    ensures Readable(s, m)
    decreases m
  {
    hide AnswerTo, Tame;
    if m > 0 && AnswerTo(s).Ready? && AnswerTo(s).used <= |s| {
      ReadableFewer(s[AnswerTo(s).used..], m - 1, n - 1);
    }
  }

  /** The first two replies of a list answer the two requests. */
  predicate Answered(rs: seq<ReplySpec.Reply>) {
    |rs| >= 2 && BothAnswered(rs[..2])
  }

  lemma CutShort(got: seq<ReplySpec.Reply>, all: seq<ReplySpec.Reply>)
    requires got <= all && |got| <= 2 && Answered(all)
    requires |got| == 2 || got == all || (got != [] && Bad(got[|got| - 1]))
    ensures BothAnswered(got)
  {
    assert |got| >= 1 ==> got[0] == all[..2][0];
    if |got| == 2 {
      assert got == all[..2];
    }
  }

  /** Two replies that are answers are the first two. */
  lemma FirstTwo(got: seq<ReplySpec.Reply>, all: seq<ReplySpec.Reply>)
    requires got <= all && BothAnswered(got)
    ensures Answered(all)
  {
    assert all[..2] == got;
  }

  /** Fills the schema from the server, over any transport and with any replies. A
      stream that is busy is refused. Otherwise the replies read are the first on the
      stream, the schema is what the loop makes of them, and the reload succeeds
      exactly if both requests are answered without an error. While the transport
      works, that is if and only if the requests fit the send buffer and the server's
      first two replies are such answers. A request stays in flight if and only if
      both were sent and the first reply could not be read or was bad. */
  method ReloadSchema(net: NetStream) returns (rc: int, ghost got: seq<ReplySpec.Reply>, ghost queued: nat)
    requires net.Valid() && Readable(Ahead(net.receiver), 2)
    modifies net.Repr()
    ensures net.Valid() && rc in {0, -1} && net.connected == old(net.connected)
    ensures !net.connected || old(net.wrcnt) != 0 ==>
      rc == -1 && net.wrcnt == old(net.wrcnt) && net.schema.View() == old(net.schema.View())
    ensures net.connected && old(net.wrcnt) == 0 ==>
      && |got| <= queued <= 2 && got <= Replies(old(Ahead(net.receiver)))
      && ReloadFrom(old(net.schema.View()), got) == (net.schema.View(), rc == 0)
      && (rc == 0 <==> BothAnswered(got))
    ensures net.connected && old(net.wrcnt) == 0 ==>
      && net.wrcnt <= 1
      && (net.wrcnt == 1 <==> queued == 2 && (got == [] || (|got| == 1 && Bad(got[0]))))
      && (|got| == 2 ==> !Bad(got[0]))
    ensures net.connected && old(net.wrcnt) == 0 && net.sender.wire.reliable ==>
      (queued == 2 <==> RequestsFit(net.sender))
    ensures net.connected && old(net.wrcnt) == 0 && net.sender.wire.reliable && net.receiver.source.reliable ==>
      (rc == 0 <==> RequestsFit(net.sender) && Answered(Replies(old(Ahead(net.receiver)))))
    ensures net.connected && old(net.wrcnt) == 0 && net.receiver.source.reliable && rc == -1 ==>
      |got| == queued || got == Replies(old(Ahead(net.receiver))) || (got != [] && Bad(got[|got| - 1]))
    ensures net.connected && old(net.wrcnt) == 0 ==>
      net.reqid == old(net.reqid) % U32 && (net.reqid == old(net.reqid) <==> old(net.reqid) < U32)
  {
    hide Replies, Readable, ReloadFrom, Answered, Good, RequestsFit, Bad, BothAnswered;
    got, queued := [], 0;
    if !net.connected || net.wrcnt != 0 {
      return -1, got, queued;
    }
    ghost var st, all := net.schema.View(), Replies(Ahead(net.receiver));
    ghost var flushed;
    queued, flushed := Ask(net);
    ReadableFewer(Ahead(net.receiver), queued, 2);
    rc, got := TakeReplies(net, queued);
    ReloadSucceeds(st, got);
    Verdict(got, all, queued);
  }

  /** What the replies that were read say about the server's. */
  lemma Verdict(got: seq<ReplySpec.Reply>, all: seq<ReplySpec.Reply>, queued: nat)
    requires |got| <= queued <= 2 && got <= all
    ensures BothAnswered(got) ==> queued == 2 && Answered(all)
    ensures queued == 2 && Answered(all) && (|got| == queued || got == all || (got != [] && Bad(got[|got| - 1]))) ==>
      BothAnswered(got)
    ensures LeftInFlight(got, queued) <= 1
    ensures LeftInFlight(got, queued) == 1 <==> queued == 2 && (got == [] || (|got| == 1 && Bad(got[0])))
  {
    if BothAnswered(got) {
      FirstTwo(got, all);
    } else if queued == 2 && Answered(all) && (|got| == queued || got == all || (got != [] && Bad(got[|got| - 1]))) {
      CutShort(got, all);
    }
  }

  // ----- a server that answers -----

  /** The payload is an error-free reply whose tuples are the given values. */
  predicate Carries(payload: seq<byte>, sync: nat, vs: seq<Value>) {
    && |payload| < U32 && ParseReply(payload).Complete?
    && var r := ParseReply(payload).r;
       Good(r, sync) && r.data.Some? && Decode(r.data.value) == Got(Node(ArrayKind, vs), [])
  }

  /** Maps that say so make such a payload, in any encoding. */
  lemma MapsCarry(payload: seq<byte>, h: seq<Value>, rest: seq<byte>, b: seq<Value>, sync: nat, vs: seq<Value>)
    requires |payload| < U32
    requires Decode(payload) == Got(Node(MapKind, h), rest) && Decode(rest) == Got(Node(MapKind, b), [])
    requires ReplyLaws.KnownKeys(b) && ReplyLaws.ReplyOf(h, b).Some?
    requires var c := ReplyLaws.ReplyOf(h, b).value;
      c.sync == sync && c.error == None && c.data == Some(Node(ArrayKind, vs))
    ensures Carries(payload, sync, vs)
  {
    hide ParseReply, Decode, ReplyLaws.ReplyOf, ReplyLaws.KnownKeys;
    ReplyLaws.ReplyParses(payload, h, rest, b);
  }

  lemma CarriedIsTame(payload: seq<byte>, sync: nat, vs: seq<Value>)
    requires sync == SPACES_SYNC || sync == INDEXES_SYNC
    requires Carries(payload, sync, vs)
    requires forall i | 0 <= i < |vs| :: SchemaLaws.Regular(vs[i], sync == INDEXES_SYNC)
    ensures Tame(ParseReply(payload).r)
  {
    hide ParseReply, Decode, LoadReply, SchemaLaws.Regular;
    var r := ParseReply(payload).r;
    forall st: Store | Sound(st)
      ensures !LoadReply(st, r.data, r.sync == INDEXES_SYNC).Unread?
    {
      SchemaLaws.ReplyLoads(st, r.data.value, vs, [], sync == INDEXES_SYNC);
    }
  }

  function Framed(payload: seq<byte>): seq<byte> {
    RequestSpec.LUInt(|payload|) + payload
  }

  lemma TwoFramed(p1: seq<byte>, p2: seq<byte>, t: seq<byte>)
    requires |p1| < U32 && |p2| < U32 && ParseReply(p1).Complete? && ParseReply(p2).Complete?
    requires Tame(ParseReply(p1).r) && Tame(ParseReply(p2).r)
    ensures var s := Framed(p1) + (Framed(p2) + t);
      && Readable(s, 2)
      && |Replies(s)| >= 2 && Replies(s)[..2] == [ParseReply(p1).r, ParseReply(p2).r]
  {
    hide ParseReply, AnswerTo, Replies, Tame, Framed;
    OneFramed(p1, Framed(p2) + t, 2);
    OneFramed(p2, t, 1);
  }

  lemma OneFramed(p: seq<byte>, t: seq<byte>, n: nat)
    requires |p| < U32 && ParseReply(p).Complete? && n > 0 && Tame(ParseReply(p).r)
    ensures Readable(t, n - 1) ==> Readable(Framed(p) + t, n)
    ensures Replies(Framed(p) + t) == [ParseReply(p).r] + Replies(t)
  {
    hide ParseReply, AnswerTo, Replies, Tame, RequestSpec.LUInt;
    var f, r := Framed(p), ParseReply(p).r;
    Framing.PayloadIsFrame(p, r);
    Framing.FrameInFront(f, t, r);
    NextOf(f + t);
    assert (f + t)[|f|..] == t;
  }

  /** The server's two answers, in either order and whatever follows them: they meet
      what ReloadSchema asks of the stream, a reload that reads them succeeds, and the
      schema becomes the old one with the rows of both put into it. */
  lemma ServerAnswers(st: Store, p1: seq<byte>, p2: seq<byte>, t: seq<byte>, vs: seq<Value>, ws: seq<Value>)
    requires Sound(st) && Carries(p1, SPACES_SYNC, vs) && Carries(p2, INDEXES_SYNC, ws)
    requires forall i | 0 <= i < |vs| :: SchemaLaws.Regular(vs[i], false)
    requires forall i | 0 <= i < |ws| :: SchemaLaws.Regular(ws[i], true)
    ensures forall s | s in {Framed(p1) + (Framed(p2) + t), Framed(p2) + (Framed(p1) + t)} ::
      && Readable(s, 2) && Answered(Replies(s))
      && ReloadFrom(st, Replies(s)[..2])
         == (SchemaLaws.LoadBoth(st, vs, ws), true)
  {
    hide ParseReply, Replies, Tame, Framed, Decode, ReloadFrom, SchemaLaws.LoadBoth, SchemaLaws.Regular, Readable;
    var a, b := ParseReply(p1).r, ParseReply(p2).r;
    CarriedIsTame(p1, SPACES_SYNC, vs);
    CarriedIsTame(p2, INDEXES_SYNC, ws);
    TwoFramed(p1, p2, t);
    TwoFramed(p2, p1, t);
    ReloadOverlays(st, a, b, [a, b], vs, ws);
    ReloadOverlays(st, a, b, [b, a], vs, ws);
  }

  // ----- a server that refuses -----

  /** The reply to the first request is an error with an empty message. */
  function RefusalMaps(): (maps: (Value, Value)) {
    (Node(MapKind, [UInt(CODE), UInt(0x8000), UInt(SYNC), UInt(SPACES_SYNC)]), Node(MapKind, [UInt(ERROR), Str([])]))
  }

  lemma RefusalParses() returns (payload: seq<byte>)
    ensures |payload| < U32 && ParseReply(payload).Complete?
    ensures var r := ParseReply(payload).r;
      r.sync == SPACES_SYNC && r.error == Some([]) && r.data == None && Bad(r)
  {
    hide Decode, Encode, ParseReply;
    var (h, b) := RefusalMaps();
    RefusalWellFormed();
    payload := Encode(Shortest, h) + Encode(Shortest, b);
    DecodeOfEncode(Shortest, h, Encode(Shortest, b));
    DecodeAlone(Shortest, b);
    RefusalContent();
    ReplyLaws.ReplyParses(payload, h.items, Encode(Shortest, b), b.items);
  }

  lemma RefusalWellFormed()
    ensures WellFormed(RefusalMaps().0) && WellFormed(RefusalMaps().1)
    ensures |Encode(Shortest, RefusalMaps().0)| < 1000 && |Encode(Shortest, RefusalMaps().1)| < 1000
  {
  }

  lemma RefusalContent()
    ensures var (h, b) := RefusalMaps();
      && ReplyLaws.KnownKeys(b.items)
      && ReplyLaws.ReplyOf(h.items, b.items)
         == Some(ReplyLaws.Content({CODE, SYNC, ERROR}, 0, SPACES_SYNC, 0, Some([]), None))
  {
    var (h, b) := RefusalMaps();
    var c := ReplyLaws.Content({}, 0, 0, 0, None, None);
    assert h.items[2..] == [UInt(SYNC), UInt(SPACES_SYNC)] && h.items[2..][2..] == [] && b.items[2..] == [];
    var c1 := c.(bitmap := {CODE}, code := 0x8000);
    var c2 := c1.(bitmap := {CODE, SYNC}, sync := SPACES_SYNC);
    assert c.bitmap + {CODE} == {CODE} && {CODE} + {SYNC} == {CODE, SYNC} && {CODE, SYNC} + {ERROR} == {CODE, SYNC, ERROR};
    assert ReplyLaws.HeaderOf(h.items[2..], c1) == Some(c2);
    assert ReplyLaws.HeaderOf(h.items, c) == Some(c2);
    assert ReplyLaws.BodyOf(b.items, c2)
        == Some(c2.(bitmap := {CODE, SYNC, ERROR}, error := Some([]), code := 0));
  }

  /** That error, framed, is a stream on which ReloadRefused's conditions hold. */
  lemma RefusalStream(payload: seq<byte>)
    requires |payload| < U32 && ParseReply(payload).Complete?
    requires Bad(ParseReply(payload).r) && ParseReply(payload).r.data == None
    ensures var s := Framed(payload);
      AnswerTo(s).Ready? && AnswerTo(s).r == ParseReply(payload).r && Readable(s, 2)
  {
    hide ParseReply, AnswerTo, RequestSpec.LUInt;
    Framing.PayloadIsFrame(payload, ParseReply(payload).r);
    EmptyNeeds();
    var s := Framed(payload);
    assert s[|s|..] == [];
  }

  /** So there is an input on which a reload leaves a request in flight. */
  lemma RefusalInput() returns (payload: seq<byte>)
    ensures var a := AnswerTo(Framed(payload));
      a.Ready? && Bad(a.r) && a.r.sync == SPACES_SYNC && a.r.error == Some([]) && Readable(Framed(payload), 2)
  {
    hide ParseReply, AnswerTo, Framed, Readable;
    payload := RefusalParses();
    RefusalStream(payload);
  }

  /** A working stream on which the first reply is bad, whatever follows it: the reload
      fails and leaves the second request in flight. */
  method ReloadRefused(net: NetStream) returns (rc: int)
    requires net.Valid() && net.connected && net.wrcnt == 0
    requires net.sender.wire.reliable && net.receiver.source.reliable && RequestsFit(net.sender)
    requires Readable(Ahead(net.receiver), 2)
    requires AnswerTo(Ahead(net.receiver)).Ready? && Bad(AnswerTo(Ahead(net.receiver)).r)
    modifies net.Repr()
    ensures rc == -1 && net.wrcnt == 1
  {
    hide Readable, RequestsFit, AnswerTo, Replies, Bad, Good, ReloadFrom;
    ghost var all, first := Replies(Ahead(net.receiver)), AnswerTo(Ahead(net.receiver)).r;
    NextOf(Ahead(net.receiver));
    assert all[0] == first;
    ghost var got, queued;
    rc, got, queued := ReloadSchema(net);
    assert got != [] ==> got[0] == first;
    BadIsNoAnswer(got);
  }

  lemma BadIsNoAnswer(got: seq<ReplySpec.Reply>)
    ensures got != [] && Bad(got[0]) ==> !BothAnswered(got)
  {
  }
}
