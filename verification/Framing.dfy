/**
 * Replies on a stream of bytes: replies laid end to end come out one by one, and
 * an incomplete one is answered with a request for exactly what is missing.
 */
module Framing {
  import opened Bytes
  import opened MsgPack
  import opened MsgPackLaws
  import opened ReplySpec
  import opened Reply
  import BufStream
  import RequestSpec
  import ReplyLaws

  /** f is one reply: a length and a payload of that length that parses to r. */
  predicate IsFrame(f: seq<byte>, r: ReplySpec.Reply) {
    AnswerTo(f) == Ready(r, |f|)
  }

  // ----- an answer depends on the first reply only -----

  lemma TakeUIntOf(s: seq<byte>, t: seq<byte>)
    requires |s| >= 5
    ensures PrefixOf(s + t) == PrefixOf(s)
  {
    assert (s + t)[..5] == s[..5];
  }

  lemma FrameInFront(f: seq<byte>, t: seq<byte>, r: ReplySpec.Reply)
    requires IsFrame(f, r)
    ensures AnswerTo(f + t) == Ready(r, |f|)
  {
    hide PrefixOf, ParseReply;
    TakeUIntOf(f, t);
    assert (f + t)[5..|f|] == f[5..|f|];
  }

  /** Incremental framing: every proper prefix of a reply, even the empty one, gets a
      request that does not reach beyond the reply, and from the fifth byte on the
      request is for all of the remainder. */
  lemma PrefixAsks(f: seq<byte>, r: ReplySpec.Reply, k: nat)
    requires IsFrame(f, r) && k < |f|
    ensures AnswerTo(f[..k]) == Need(if k < 5 then 5 - k else |f| - k)
    ensures |f| >= 5
  {
    hide PrefixOf, ParseReply;
    if k >= 5 {
      TakeUIntOf(f[..k], f[k..]);
      assert f[..k] + f[k..] == f;
    }
  }

  /** A caller that supplies what it is asked for: from any k bytes of a reply on,
      two requests are enough, and exactly the reply is used whatever follows it. */
  lemma TwoRequests(f: seq<byte>, r: ReplySpec.Reply, t: seq<byte>, k: nat)
    requires IsFrame(f, r) && k < |f|
    ensures AnswerTo((f + t)[..k]).Need?
    ensures var k1 := k + AnswerTo((f + t)[..k]).more;
      && k1 <= |f|
      && (k1 < |f| ==> AnswerTo((f + t)[..k1]).Need? && k1 + AnswerTo((f + t)[..k1]).more == |f|)
    ensures AnswerTo((f + t)[..|f|]) == Ready(r, |f|) == AnswerTo(f + t)
  {
    hide AnswerTo;
    PrefixAsks(f, r, k);
    assert (f + t)[..k] == f[..k];
    var k1 := k + AnswerTo(f[..k]).more;
    if k1 < |f| {
      PrefixAsks(f, r, k1);
      assert (f + t)[..k1] == f[..k1];
    }
    assert (f + t)[..|f|] == f;
    FrameInFront(f, t, r);
  }

  /** A payload behind its length in five bytes is one reply. */
  lemma PayloadIsFrame(payload: seq<byte>, r: ReplySpec.Reply)
    requires |payload| < U32
    ensures IsFrame(RequestSpec.LUInt(|payload|) + payload, r) <==> ParseReply(payload) == Complete(r)
  {
    hide ParseReply;
    var prefix := RequestSpec.LUInt(|payload|);
    var f := prefix + payload;
    PrefixLength(|payload|);
    TakeUIntOf(prefix, payload);
    assert f[5..] == payload;
    assert f[5..|payload| + 5] == payload;
  }

  lemma PrefixLength(n: nat)
    requires n < U32
    ensures |RequestSpec.LUInt(n)| == 5
    ensures PrefixOf(RequestSpec.LUInt(n)) == Length(n)
  {
    PowValues();
    var s := RequestSpec.LUInt(n);
    TagAndNumber(0xce, n, 4, []);
    assert [0xce] + BE(n, 4) + [] == s;
    assert s[..5] == s;
  }

  /** The answer to every buffer that begins with a length in five bytes. */
  lemma AnswerExact(n: nat, t: seq<byte>)
    requires n < U32
    ensures AnswerTo([0xce] + BE(n, 4) + t) ==
      if |t| < n then Need(n - |t|)
      else match ParseReply(t[..n])
        case Complete(r) => Ready(r, n + 5)
        case Rollback => Failed
        case Undefined => Wild
  {
    hide ParseReply, PrefixOf, BE;
    PrefixLength(n);
    var prefix := RequestSpec.LUInt(n);
    TakeUIntOf(prefix, t);
    if |t| >= n {
      assert (prefix + t)[5..n + 5] == t[..n];
    }
  }

  /** A buffer that begins with anything but an unsigned number is refused. */
  lemma NoLength(s: seq<byte>)
    requires |s| >= 5 && 0x80 <= s[0] && !(0xcc <= s[0] <= 0xcf)
    ensures AnswerTo(s) == Failed
  {
    hide TypeOf, ParseReply, TakeUInt;
    UnsignedTags(s[0]);
  }

  lemma UnsignedTags(b: byte)
    ensures TypeOf(b) == MpUInt <==> b < 0x80 || 0xcc <= b <= 0xcf
  {
  }

  // ----- replies laid end to end -----

  datatype Found = Found(replies: seq<ReplySpec.Reply>, used: nat, last: Answer)

  /** What repeated asking finds in s: replies, the bytes they take, and the answer
      that ended it. */
  function FindAll(s: seq<byte>): (x: Found)
    ensures x.used <= |s| && !x.last.Ready?
  {
    AnswerFits(s);
    match AnswerTo(s)
    case Ready(r, used) =>
      AnswerUses(s);
      var more := FindAll(s[used..]);
      Found([r] + more.replies, used + more.used, more.last)
    case a => Found([], 0, a)
  }

  lemma AnswerUses(s: seq<byte>)
    ensures AnswerTo(s).Ready? ==> AnswerTo(s).used >= 5
  {
    hide PrefixOf, ParseReply;
  }

  predicate AreFrames(fs: seq<seq<byte>>, rs: seq<ReplySpec.Reply>) {
    |fs| == |rs| && forall i | 0 <= i < |fs| :: IsFrame(fs[i], rs[i])
  }

  /** Replies laid end to end are found in order and tile the stream, whatever
      follows them. */
  lemma {:induction false} FramesAreFound(fs: seq<seq<byte>>, rs: seq<ReplySpec.Reply>, t: seq<byte>)
    requires AreFrames(fs, rs)
    ensures FindAll(Concat(fs) + t)
      == Found(rs + FindAll(t).replies, |Concat(fs)| + FindAll(t).used, FindAll(t).last)
    decreases fs
  {
    hide AnswerTo;
    if fs == [] {
      assert Concat(fs) + t == t;
      assert rs + FindAll(t).replies == FindAll(t).replies;
    } else {
      var n := |fs| - 1;
      var f, r := fs[n], rs[n];
      FramesAreFound(fs[..n], rs[..n], f + t);
      assert Concat(fs) + t == Concat(fs[..n]) + (f + t);
      FrameInFront(f, t, r);
      assert (f + t)[|f|..] == t;
      assert rs[..n] + ([r] + FindAll(t).replies) == rs + FindAll(t).replies;
    }
  }

  /** The replies of a buffer are all there is, if it ends with a reply or in the
      middle of one. */
  lemma FramesAreAll(fs: seq<seq<byte>>, rs: seq<ReplySpec.Reply>, f: seq<byte>, r: ReplySpec.Reply, k: nat)
    requires AreFrames(fs, rs) && IsFrame(f, r) && k < |f|
    ensures FindAll(Concat(fs) + f[..k]).replies == rs
    ensures FindAll(Concat(fs) + f[..k]).used == |Concat(fs)|
    ensures FindAll(Concat(fs) + f[..k]).last.Need?
  {
    hide AnswerTo;
    FramesAreFound(fs, rs, f[..k]);
    PrefixAsks(f, r, k);
  }

  lemma FindNext(s: seq<byte>, at: nat)
    requires at <= |s|
    ensures match AnswerTo(s[at..])
      case Ready(r, used) =>
        && 5 <= used && at + used <= |s|
        && var more := FindAll(s[at + used..]);
           FindAll(s[at..]) == Found([r] + more.replies, used + more.used, more.last)
      case a => FindAll(s[at..]) == Found([], 0, a)
  {
    hide AnswerTo;
    AnswerFits(s[at..]);
    AnswerUses(s[at..]);
    if AnswerTo(s[at..]).Ready? {
      var used := AnswerTo(s[at..]).used;
      assert s[at..][used..] == s[at + used..];
    }
  }

  /** The loop of a caller over the reply iterator. It returns every reply that is in
      the buffer, moves the read offset over exactly their bytes, and leaves the
      iterator failed exactly if something that is no reply follows. */
  method Drain(it: ReplyIter) returns (replies: seq<ReplySpec.Reply>)
    requires it.s.Valid() && (it.s.data.Length > 0 || it.s.borrowed)
    requires !FindAll(it.s.Contents()[it.s.rdoff..]).last.Wild?
    modifies it`status, it.s`rdoff, it.r
    ensures it.s.Valid() && it.s.Contents() == old(it.s.Contents())
    ensures var x := FindAll(old(it.s.Contents()[it.s.rdoff..]));
      && replies == x.replies && it.s.rdoff == old(it.s.rdoff) + x.used
      && it.status == if x.last.Failed? then IterFail else old(it.status)
  {
    hide AnswerTo, FindAll;
    ghost var all := it.s.Contents();
    ghost var x := FindAll(all[it.s.rdoff..]);
    replies := [];
    var more := true;
    while more
      invariant it.s.Valid() && it.s.Contents() == all && old(it.s.rdoff) <= it.s.rdoff
      invariant var y := FindAll(all[it.s.rdoff..]);
        && x.replies == replies + y.replies && x.last == y.last
        && old(it.s.rdoff) + x.used == it.s.rdoff + y.used
        && (!more ==> y.replies == [] && y.used == 0)
      invariant it.status == if !more && x.last.Failed? then IterFail else old(it.status)
      decreases more, |all| - it.s.rdoff
    {
      ghost var at := it.s.rdoff;
      FindNext(all, at);
      more := it.Next();
      if more {
        replies := replies + [it.r.View()];
      }
    }
  }
}
