/**
 * Loading the schema: two requests are sent ahead, and their replies are taken
 * in whatever order they arrive.
 */
module Reload {
  import opened Bytes
  import opened MsgPack
  import opened ReplySpec
  import opened SchemaSpec
  import SchemaLaws

  const SPACES_SYNC := 127
  const INDEXES_SYNC := 128

  /** Where the reply loop stands. saved is a reply with indexes that came first. */
  datatype Progress = Progress(st: Store, loaded: nat, saved: Option<Reply>)

  predicate Going(p: Progress) {
    Sound(p.st)
  }

  /** The schema after a reply; the loader's return value is not looked at. */
  function After(st: Store, r: Reply, ofIndexes: bool): (s: Store)
    requires Sound(st)
    ensures Sound(s)
  {
    match LoadReply(st, r.data, ofIndexes)
    case Loaded(st', _) => st'
    case Unread => st
  }

  /** One turn of the loop; None stands for the jump to its error exit. */
  function Turn(p: Progress, r: Reply): (q: Option<Progress>)
    requires Going(p)
    ensures q.Some? ==> Going(q.value)
  {
    if (r.sync != SPACES_SYNC && r.sync != INDEXES_SYNC) || r.error.Some? then None
    else if r.sync == SPACES_SYNC then Some(p.(st := After(p.st, r, false), loaded := p.loaded + 1))
    else if p.loaded % 2 == 0 then Some(p.(saved := Some(r)))
    else Some(p.(st := After(p.st, r, true), loaded := p.loaded + 2))
  }

  /** After the loop a reply with indexes that was set aside is taken. */
  function Finish(p: Progress): (x: (Store, bool))
    requires Going(p)
    ensures Sound(x.0)
  {
    match p.saved
    case None => (p.st, p.loaded == 3)
    case Some(r) => (After(p.st, r, true), p.loaded + 2 == 3)
  }

  /** The whole loop over the replies that were read, and whether it succeeds. */
  function Loop(p: Progress, rs: seq<Reply>): (x: (Store, bool))
    requires Going(p)
    ensures Sound(x.0)
    decreases |rs|
  {
    if rs == [] then Finish(p)
    else match Turn(p, rs[0])
      case None => (p.st, false)
      case Some(q) => Loop(q, rs[1..])
  }

  function ReloadFrom(st: Store, rs: seq<Reply>): (x: (Store, bool))
    requires Sound(st)
    ensures Sound(x.0)
  {
    Loop(Progress(st, 0, None), rs)
  }

  predicate Good(r: Reply, sync: nat) {
    r.sync == sync && r.error.None?
  }

  /** One good reply to each request, in either order. */
  predicate BothAnswered(rs: seq<Reply>) {
    && |rs| == 2
    && ((Good(rs[0], 127) && Good(rs[1], 128)) || (Good(rs[0], 128) && Good(rs[1], 127)))
  }

  /** A reload with at most two replies succeeds exactly if both requests are answered
      without an error. */
  lemma ReloadSucceeds(st: Store, rs: seq<Reply>)
    requires Sound(st) && |rs| <= 2
    ensures ReloadFrom(st, rs).1 <==> BothAnswered(rs)
  {
    hide After;
    var p := Progress(st, 0, None);
    if rs != [] && Turn(p, rs[0]).Some? {
      var q := Turn(p, rs[0]).value;
      assert Loop(p, rs) == Loop(q, rs[1..]);
      if |rs| == 1 {
        assert Loop(q, []) == Finish(q);
      } else if Turn(q, rs[1]).Some? {
        assert rs == [rs[0], rs[1]];
        InTwoTurns(p, rs[0], rs[1]);
      }
    }
  }

  /** The order in which the two replies arrive makes no difference, whatever their
      tuples are: the spaces are in the schema before the indexes. */
  lemma OrderIrrelevant(st: Store, spaces: Reply, indexes: Reply)
    requires Sound(st) && Good(spaces, SPACES_SYNC) && Good(indexes, INDEXES_SYNC)
    ensures ReloadFrom(st, [spaces, indexes]) == ReloadFrom(st, [indexes, spaces])
    ensures ReloadFrom(st, [spaces, indexes]) == (After(After(st, spaces, false), indexes, true), true)
  {
    hide After;
    var p := Progress(st, 0, None);
    InTwoTurns(p, spaces, indexes);
    InTwoTurns(p, indexes, spaces);
  }

  lemma InTwoTurns(p: Progress, a: Reply, b: Reply)
    requires Going(p) && Turn(p, a).Some? && Turn(Turn(p, a).value, b).Some?
    ensures Loop(p, [a, b]) == Finish(Turn(Turn(p, a).value, b).value)
  {
    hide Turn, Finish;
    assert [a, b][1..] == [b] && [b][1..] == [];
    assert Loop(Turn(p, a).value, [b]) == Finish(Turn(Turn(p, a).value, b).value);
  }

  /** An index that is answered before its space is known is not lost, but a second
      early answer replaces the first. */
  lemma SecondSavedReplaces(st: Store, a: Reply, b: Reply)
    requires Sound(st) && Good(a, INDEXES_SYNC) && Good(b, INDEXES_SYNC)
    ensures ReloadFrom(st, [a, b]) == (After(st, b, true), false)
  {
    hide After;
    InTwoTurns(Progress(st, 0, None), a, b);
  }

  /** With well-formed tuples the new schema is the old one with the rows of both
      replies put into it, up to the first of each that does not fit: old spaces stay,
      and spaces that are named again start with no indexes. */
  lemma ReloadOverlays(st: Store, spaces: Reply, indexes: Reply, rs: seq<Reply>, vs: seq<Value>, ws: seq<Value>)
    requires Sound(st) && Good(spaces, SPACES_SYNC) && Good(indexes, INDEXES_SYNC)
    requires rs == [spaces, indexes] || rs == [indexes, spaces]
    requires spaces.data.Some? && Decode(spaces.data.value) == Got(Node(ArrayKind, vs), [])
    requires indexes.data.Some? && Decode(indexes.data.value) == Got(Node(ArrayKind, ws), [])
    requires forall i | 0 <= i < |vs| :: SchemaLaws.Regular(vs[i], false)
    requires forall i | 0 <= i < |ws| :: SchemaLaws.Regular(ws[i], true)
    ensures ReloadFrom(st, rs)
         == (SchemaLaws.LoadBoth(st, vs, ws), true)
  {
    hide Decode, LoadReply, SchemaLaws.PutTuples, SchemaLaws.Regular, Loop;
    OrderIrrelevant(st, spaces, indexes);
    SchemaLaws.ReplyLoads(st, spaces.data.value, vs, [], false);
    SchemaLaws.ReplyLoads(SchemaLaws.PutTuples(st, vs, false).0, indexes.data.value, ws, [], true);
  }

  /** Such a reload deletes the old schema, as far as the name q can tell, if and only if
      a new space matches q or no old space did. */
  lemma ReloadDeletes(st: Store, spaces: Reply, indexes: Reply, rs: seq<Reply>, vs: seq<Value>, ws: seq<Value>,
                      q: seq<byte>)
    requires Sound(st) && Good(spaces, SPACES_SYNC) && Good(indexes, INDEXES_SYNC)
    requires rs == [spaces, indexes] || rs == [indexes, spaces]
    requires spaces.data.Some? && Decode(spaces.data.value) == Got(Node(ArrayKind, vs), [])
    requires indexes.data.Some? && Decode(indexes.data.value) == Got(Node(ArrayKind, ws), [])
    requires forall i | 0 <= i < |vs| :: SchemaLaws.Regular(vs[i], false)
    requires forall i | 0 <= i < |ws| :: SchemaLaws.Regular(ws[i], true)
    ensures Stosid(ReloadFrom(st, rs).0, q) == Stosid(ReloadFrom(EMPTY_STORE, rs).0, q)
            <==> SchemaLaws.LastMatch(SchemaLaws.RowsOf(vs, false), q).Some? || Stosid(st, q) == -1
  {
    hide Decode, SchemaLaws.LoadBoth, SchemaLaws.Regular, SchemaLaws.LastMatch, SchemaLaws.RowsOf, Stosid, ReloadFrom;
    ReloadOverlays(st, spaces, indexes, rs, vs, ws);
    ReloadOverlays(EMPTY_STORE, spaces, indexes, rs, vs, ws);
    SchemaLaws.ReloadForgets(st, vs, ws, q);
  }

  /** Two replies without a tuple: the reload succeeds, and deletes nothing at all. */
  lemma EmptyRepliesKeep(st: Store, spaces: Reply, indexes: Reply)
    requires Sound(st) && Good(spaces, SPACES_SYNC) && Good(indexes, INDEXES_SYNC)
    requires spaces.data == Some([0x90]) && indexes.data == Some([0x90])
    ensures ReloadFrom(st, [spaces, indexes]) == (st, true)
  {
    hide SchemaLaws.PutTuples;
    assert Decode([0x90]) == Got(Node(ArrayKind, []), []);
    ReloadOverlays(st, spaces, indexes, [spaces, indexes], [], []);
    SchemaLaws.EmptyReloadKeeps(st);
  }

  /** After the replies rs the loop that began at p0 stands at p. */
  ghost predicate Reached(p0: Progress, rs: seq<Reply>, p: Progress) {
    && Going(p0) && Going(p)
    && forall more: seq<Reply> :: Loop(p0, rs + more) == Loop(p, more)
  }

  lemma ReachedStart(p: Progress)
    requires Going(p)
    ensures Reached(p, [], p)
  {
    hide Loop;
    forall more: seq<Reply>
      ensures Loop(p, [] + more) == Loop(p, more)
    {
      assert [] + more == more;
    }
  }

  lemma ReachedTurn(p0: Progress, rs: seq<Reply>, p: Progress, r: Reply)
    requires Reached(p0, rs, p)
    ensures match Turn(p, r)
      case Some(q) => Reached(p0, rs + [r], q)
      case None => Loop(p0, rs + [r]) == (p.st, false)
  {
    hide Turn, Finish;
    forall more: seq<Reply>
      ensures Loop(p0, rs + [r] + more) == match Turn(p, r)
        case Some(q) => Loop(q, more)
        case None => (p.st, false)
    {
      assert rs + [r] + more == rs + ([r] + more);
      assert ([r] + more)[1..] == more;
    }
    assert rs + [r] + [] == rs + [r];
  }

  lemma ReachedEnd(p0: Progress, rs: seq<Reply>, p: Progress)
    requires Reached(p0, rs, p)
    ensures Loop(p0, rs) == Finish(p)
  {
    hide Turn, Finish;
    assert rs + [] == rs;
    assert Loop(p, []) == Finish(p);
  }

  /** The loader that gets the reply can read its tuples, whatever the schema is. */
  ghost predicate Tame(r: Reply) {
    forall st: Store | Sound(st) :: !LoadReply(st, r.data, r.sync == INDEXES_SYNC).Unread?
  }
}
