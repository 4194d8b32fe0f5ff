/** The schema: one hash for names and numbers, filled from replies. */
module Schema {
  import opened Bytes
  import opened MsgPack
  import opened MsgPackLaws
  import opened ReplySpec
  import Reply
  import opened SchemaSpec

  class SpaceEntry {
    ghost const id: nat
    const number: nat
    const name: seq<byte>
    var index: map<seq<byte>, Index>

    constructor (ghost id: nat, number: nat, name: seq<byte>)
      ensures this.id == id && View() == Space(number, name, map[])
    {
      this.id, this.number, this.name, index := id, number, name, map[];
    }

    ghost function View(): Space
      reads this
    {
      Space(number, name, index)
    }
  }

  class SchemaIndex {
    var spaceHash: map<seq<byte>, SpaceEntry>
    /** Every space ever allocated, in order. */
    ghost var spaces: seq<SpaceEntry>

    ghost function Repr(): set<object>
      reads this
    {
      (set e: SpaceEntry | e in spaces :: e as object) + {this}
    }

    ghost predicate Valid()
      reads Repr()
    {
      && (forall i | 0 <= i < |spaces| :: spaces[i].id == i)
      && (forall k | k in spaceHash :: spaceHash[k].id < |spaces| && spaces[spaceHash[k].id] == spaceHash[k])
    }

    ghost function View(): (st: Store)
      reads Repr()
      requires Valid()
      ensures Sound(st)
    {
      Store(seq(|spaces|, i requires 0 <= i < |spaces| reads Repr() =>
              assert spaces[i] in spaces; spaces[i].View()),
            map k | k in spaceHash :: spaceHash[k].id)
    }

    constructor ()
      ensures Valid() && View() == EMPTY_STORE && fresh(Repr())
    {
      spaceHash, spaces := map[], [];
    }

    method PutSpaceEntry(number: nat, name: seq<byte>)
      requires Valid()
      modifies this
      ensures Valid() && View() == PutSpace(old(View()), number, name)
      ensures fresh(Repr() - old(Repr()))
    {
      hide Native;
      var space := new SpaceEntry(|spaces|, number, name);
      spaceHash := spaceHash[name := space];
      spaceHash := spaceHash[Native(number) := space];
      spaces := spaces + [space];
      assert View().spaces == old(View()).spaces + [space.View()];
    }

    method PutIndexEntry(space: SpaceEntry, number: nat, name: seq<byte>)
      requires Valid() && space in spaces
      modifies space`index
      ensures Valid() && Repr() == old(Repr())
      ensures View() == PutIndex(old(View()), space.id, number, name)
    {
      hide Native;
      var x := Index(number, name);
      space.index := space.index[name := x];
      space.index := space.index[Native(number) := x];
    }

    /** The space tuple at the cursor p. */
    method AddSpace(data: seq<byte>, p: nat) returns (ok: bool)
      requires Valid() && p <= |data| && !SpaceFrom(View(), data[p..]).Outside?
      modifies Repr()
      ensures Valid() && fresh(Repr() - old(Repr()))
      ensures match SpaceFrom(old(View()), data[p..])
        case Done(st) => ok && View() == st
        case Refused => !ok && View() == old(View())
        case Outside => false
    {
      hide Decode, TypeOf, ReadToken, Native, PutSpace;
      var s := data[p..];
      if TypeOf(s[0]) != MpArray {
        return false;
      }
      var tuple := ReadToken(s).rest;
      if TypeOf(tuple[0]) != MpUInt {
        return false;
      }
      var number := TakeUInt(tuple).val % U32;
      tuple := TakeUInt(tuple).rest;
      tuple := Decode(tuple).rest;
      if TypeOf(tuple[0]) != MpStr {
        return false;
      }
      PutSpaceEntry(number, TakeName(tuple).val);
      return true;
    }

    /** The index tuple at the cursor p. */
    method AddIndex(data: seq<byte>, p: nat) returns (ok: bool)
      requires Valid() && p <= |data| && !IndexFrom(View(), data[p..]).Outside?
      modifies Repr()
      ensures Valid() && Repr() == old(Repr())
      ensures match IndexFrom(old(View()), data[p..])
        case Done(st) => ok && View() == st
        case Refused => !ok && View() == old(View())
        case Outside => false
    {
      hide Decode, TypeOf, ReadToken, Native, PutIndex;
      var s := data[p..];
      if TypeOf(s[0]) != MpArray {
        return false;
      }
      var tuple := ReadToken(s).rest;
      var spaceNumber := TakeUInt(tuple).val % U32;
      tuple := TakeUInt(tuple).rest;
      if TypeOf(tuple[0]) != MpUInt {
        return false;
      }
      if Native(spaceNumber) !in spaceHash {
        return false;
      }
      var space := spaceHash[Native(spaceNumber)];
      var number := TakeUInt(tuple).val % U32;
      tuple := TakeUInt(tuple).rest;
      if TypeOf(tuple[0]) != MpStr {
        return false;
      }
      assert space in spaces;
      PutIndexEntry(space, number, TakeName(tuple).val);
      return true;
    }

    method AddSpaces(r: Reply.ReplyObject) returns (rc: int)
      requires Valid() && !LoadReply(View(), r.data, false).Unread?
      modifies Repr()
      ensures Valid() && fresh(Repr() - old(Repr()))
      ensures LoadReply(old(View()), r.data, false) == Loaded(View(), rc == 0) && rc in {0, -1}
    {
      rc := AddRows(r, false);
    }

    method AddIndexes(r: Reply.ReplyObject) returns (rc: int)
      requires Valid() && !LoadReply(View(), r.data, true).Unread?
      modifies Repr()
      ensures Valid() && fresh(Repr() - old(Repr()))
      ensures LoadReply(old(View()), r.data, true) == Loaded(View(), rc == 0) && rc in {0, -1}
    {
      rc := AddRows(r, true);
    }

    method AddRow(data: seq<byte>, p: nat, ofIndexes: bool) returns (ok: bool)
      requires Valid() && p <= |data| && !RowFrom(View(), data[p..], ofIndexes).Outside?
      modifies Repr()
      ensures Valid() && fresh(Repr() - old(Repr()))
      ensures match RowFrom(old(View()), data[p..], ofIndexes)
        case Done(st) => ok && View() == st
        case Refused => !ok && View() == old(View())
        case Outside => false
    {
      hide SpaceFrom, IndexFrom;
      if ofIndexes {
        ok := AddIndex(data, p);
      } else {
        ok := AddSpace(data, p);
      }
    }

    /** The loop over the tuples of a reply. */
    method AddRows(r: Reply.ReplyObject, ofIndexes: bool) returns (rc: int)
      requires Valid() && !LoadReply(View(), r.data, ofIndexes).Unread?
      modifies Repr()
      ensures Valid() && fresh(Repr() - old(Repr()))
      ensures LoadReply(old(View()), r.data, ofIndexes) == Loaded(View(), rc == 0) && rc in {0, -1}
    {
      hide Decode, RowFrom, OpenArray;
      if r.data.None? {
        return -1;
      }
      var data := r.data.value;
      var head := OpenArray(data);
      if head.Bad? {
        return -1;
      }
      OpenArraySuffix(data);
      ghost var spec := LoadReply(View(), r.data, ofIndexes);
      var count: nat, p: nat := head.val, |data| - |head.rest|;
      while count > 0
        invariant Valid() && p <= |data| && fresh(Repr() - old(Repr()))
        invariant LoadRows(View(), data[p..], count, ofIndexes) == spec
        decreases count
      {
        var ok := AddRow(data, p, ofIndexes);
        if !ok {
          return -1;
        }
        Reply.SuffixOfDecode(data, p, data[p..]);
        p := |data| - |Decode(data[p..]).rest|;
        count := count - 1;
      }
      return 0;
    }

    /** The number of a space, as a signed 32-bit number; -1 if there is none. */
    method SpaceId(name: seq<byte>) returns (id: int)
      requires Valid()
      ensures id == Stosid(View(), name)
    {
      if name !in spaceHash {
        return -1;
      }
      return Int32(spaceHash[name].number);
    }

    /** The number of an index of a space. */
    method IndexId(sid: nat, name: seq<byte>) returns (id: int)
      requires Valid()
      ensures id == Stoiid(View(), sid, name)
    {
      if Native(sid) !in spaceHash {
        return -1;
      }
      var space := spaceHash[Native(sid)];
      if name !in space.index {
        return -1;
      }
      return Int32(space.index[name].number);
    }
  }

  lemma OpenArraySuffix(s: seq<byte>)
    requires OpenArray(s).Got?
    ensures var t := OpenArray(s).rest; |t| < |s| && t == s[|s| - |t|..]
  {
    hide Decode;
    ReadTokenSuffix(s);
  }
}
