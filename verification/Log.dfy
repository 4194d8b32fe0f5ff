/**
 * The log reader: records behind a marker, each with two checksums, and whatever
 * lies between them.
 */
module Log {
  import opened Bytes

  type u32 = n: int | 0 <= n < U32

  const MARKER := 0xba0babed
  const EOF_MARKER := 0x10adab1e
  /** The marker as it stands in the file, lowest byte first. */
  const MARK: seq<byte> := [0xed, 0xab, 0x0b, 0xba]
  const HEADER_SIZE := 28

  lemma MarkOnly(s: seq<byte>)
    requires |s| == 4
    ensures FromNative(s) == MARKER <==> s == MARK
  {
  }

  lemma EofOnly(s: seq<byte>)
    requires |s| == 4
    ensures FromNative(s) == EOF_MARKER <==> s == [0x1e, 0xab, 0xad, 0x10]
  {
  }

  /** The window of the last four bytes moves on by one. */
  lemma WindowMoves(s: seq<byte>, p: nat)
    requires 4 <= p < |s|
    ensures FromNative(s[p - 4..p]) / 0x100 + s[p] as int * 0x100_0000 == FromNative(s[p - 3..p + 1])
  {
    var w, v := s[p - 4..p], s[p - 3..p + 1];
    assert w[1] == v[0] && w[2] == v[1] && w[3] == v[2] && v[3] == s[p];
  }

  /** Just after the first marker at p or later. */
  function NextMark(s: seq<byte>, p: nat): (q: Option<nat>)
    ensures q.Some? ==> p + 4 <= q.value <= |s|
    decreases |s| - p
  {
    if p + 4 > |s| then None
    else if s[p..p + 4] == MARK then Some(p + 4)
    else NextMark(s, p + 1)
  }

  // ----- one read -----

  datatype Outcome = Row(header: seq<byte>, data: seq<byte>) | Eof | Corrupt

  /** The reader's state: the place in the file, and the place after the last header
      or where the records begin. */
  datatype Cursor = Cursor(pos: nat, offset: nat)

  function FieldLen(h: seq<byte>): nat
    requires |h| == HEADER_SIZE
  {
    FromNative(h[20..24])
  }

  predicate HeaderOk(crc: seq<byte> -> u32, h: seq<byte>) {
    |h| == HEADER_SIZE && crc(h[4..]) == FromNative(h[..4])
  }

  predicate DataOk(crc: seq<byte> -> u32, h: seq<byte>, data: seq<byte>) {
    |h| == HEADER_SIZE && |data| == FieldLen(h) && crc(data) == FromNative(h[24..28])
  }

  /** Whether exactly four bytes lie behind the offset, and the file has been read to
      its end. */
  predicate FourLeft(file: seq<byte>, c: Cursor) {
    c.pos == c.offset + 4 && c.pos <= |file|
  }

  /** The end of the file, with its marker if there are four bytes for one. */
  function EndOf(file: seq<byte>, c: Cursor): (x: (Outcome, Cursor)) {
    if !FourLeft(file, c) then (Eof, c)
    else if FromNative(file[c.offset..c.offset + 4]) != EOF_MARKER then (Corrupt, c)
    else (Eof, Cursor(c.pos, c.pos))
  }

  /** From just after a marker on. An item of zero bytes cannot be read. */
  function ReadAfterMark(crc: seq<byte> -> u32, file: seq<byte>, p: nat, offset: nat): (x: (Outcome, Cursor))
    requires p <= |file|
    ensures x.1.pos >= p && x.1.pos <= |file|
  {
    if p + HEADER_SIZE > |file| then EndOf(file, Cursor(|file|, offset))
    else
      var q := p + HEADER_SIZE;
      var h := file[p..q];
      if !HeaderOk(crc, h) then (Corrupt, Cursor(q, q))
      else
        var len := FieldLen(h);
        if len == 0 then EndOf(file, Cursor(q, q))
        else if q + len > |file| then EndOf(file, Cursor(|file|, q))
        else if !DataOk(crc, h, file[q..q + len]) then (Corrupt, Cursor(q + len, q))
        else (Row(h, file[q..q + len]), Cursor(q + len, q))
  }

  function Read(crc: seq<byte> -> u32, file: seq<byte>, c: Cursor): (x: (Outcome, Cursor))
    requires c.pos <= |file|
    ensures c.pos <= x.1.pos <= |file|
    ensures x.0.Row? ==> c.pos < x.1.pos
  {
    match NextMark(file, c.pos)
    case None => EndOf(file, Cursor(|file|, c.offset))
    case Some(p) => ReadAfterMark(crc, file, p, c.offset)
  }

  class LogFile {
    const file: seq<byte>
    /** The checksum, of which nothing is known. */
    const crc: seq<byte> -> u32
    var pos: nat
    var offset: nat
    var currentOffset: nat
    var header: seq<byte>
    var corrupt: bool

    ghost predicate Valid()
      reads this
    {
      pos <= |file|
    }

    function Place(): Cursor
      reads this
    {
      Cursor(pos, offset)
    }

    /** Records begin at start. */
    constructor (file: seq<byte>, crc: seq<byte> -> u32, start: nat)
      requires start <= |file|
      ensures Valid() && Place() == Cursor(start, start)
      ensures this.file == file && this.crc == crc && !corrupt
    {
      this.file, this.crc, pos, offset, currentOffset, header, corrupt := file, crc, start, start, 0, [], false;
    }

    /** Reads one item of n bytes; a short read moves to the end of the file. */
    method ReadItem(n: nat) returns (ok: bool, bytes: seq<byte>)
      requires Valid()
      modifies this`pos
      ensures Valid() && (ok <==> 0 < n <= |file| - old(pos))
      ensures ok ==> pos == old(pos) + n && bytes == file[old(pos)..pos]
      ensures !ok ==> pos == if n == 0 then old(pos) else |file|
    {
      if n == 0 {
        return false, [];
      }
      if pos + n > |file| {
        pos := |file|;
        return false, [];
      }
      bytes := file[pos..pos + n];
      pos := pos + n;
      ok := true;
    }

    method AtEof() returns (rc: int)
      requires Valid()
      modifies this`pos, this`offset, this`corrupt
      ensures Valid() && rc in {1, -1}
      ensures EndOf(file, old(Place())) == (if rc == 1 then Eof else Corrupt, Place())
      ensures corrupt == (old(corrupt) || rc == -1)
    {
      if pos == offset + 4 {
        pos := offset;
        var ok, marker := ReadItem(4);
        if FromNative(marker) != EOF_MARKER {
          corrupt := true;
          return -1;
        }
        offset := pos;
      }
      return 1;
    }

    /** Moves behind the next marker, with a window over the last four bytes. */
    method Seek() returns (found: bool)
      requires Valid()
      modifies this`pos
      ensures Valid()
      ensures match NextMark(file, old(pos))
        case Some(p) => found && pos == p
        case None => !found && pos == |file|
    {
      hide FromNative;
      var ok, bytes := ReadItem(4);
      if !ok {
        return false;
      }
      var marker := FromNative(bytes);
      MarkOnly(bytes);
      while marker != MARKER
        invariant old(pos) + 4 <= pos <= |file| && marker == FromNative(file[pos - 4..pos])
        invariant NextMark(file, old(pos)) == NextMark(file, pos - 4)
        decreases |file| - pos
      {
        MarkOnly(file[pos - 4..pos]);
        if pos == |file| {
          return false;
        }
        WindowMoves(file, pos);
        marker := marker / 0x100 + file[pos] as int * 0x100_0000;
        pos := pos + 1;
      }
      MarkOnly(file[pos - 4..pos]);
      return true;
    }

    /** The next record; 1 stands for the end and -1 for damage. */
    method Next() returns (rc: int, data: seq<byte>)
      requires Valid()
      modifies this
      ensures Valid() && currentOffset == old(pos) && rc in {0, 1, -1}
      ensures Read(crc, file, old(Place())).1 == Place()
      ensures match Read(crc, file, old(Place())).0
        case Row(h, d) => rc == 0 && header == h && data == d
        case Eof => rc == 1
        case Corrupt => rc == -1 && corrupt
    {
      hide NextMark, FromNative, EndOf;
      data := [];
      currentOffset := pos;
      var found := Seek();
      if !found {
        rc := AtEof();
        return;
      }
      var ok, h := ReadItem(HEADER_SIZE);
      if !ok {
        rc := AtEof();
        return;
      }
      header := h;
      offset := pos;
      if crc(h[4..]) != FromNative(h[..4]) {
        corrupt := true;
        return -1, [];
      }
      ok, data := ReadItem(FieldLen(h));
      if !ok {
        rc := AtEof();
        return;
      }
      if crc(data) != FromNative(h[24..28]) {
        corrupt := true;
        return -1, [];
      }
      rc := 0;
    }
  }

  // ----- what a read finds -----

  predicate MarkAt(s: seq<byte>, i: nat) {
    i + 4 <= |s| && s[i] == MARK[0] && s[i + 1] == MARK[1] && s[i + 2] == MARK[2] && s[i + 3] == MARK[3]
  }

  predicate MarkFree(s: seq<byte>) {
    forall i: nat | i < |s| :: !MarkAt(s, i)
  }

  lemma MarkSlice(s: seq<byte>, i: nat)
    requires i + 4 <= |s|
    ensures MarkAt(s, i) <==> s[i..i + 4] == MARK
  {
    var w := s[i..i + 4];
    assert w[0] == s[i] && w[1] == s[i + 1] && w[2] == s[i + 2] && w[3] == s[i + 3];
    assert MarkAt(s, i) ==> w == [w[0], w[1], w[2], w[3]];
  }

  /** What lies at i in a part of s lies at p + i in s. */
  lemma MarkInPart(s: seq<byte>, p: nat, n: nat, i: nat)
    requires p + n <= |s|
    ensures i + 4 <= n ==> (MarkAt(s[p..p + n], i) <==> MarkAt(s, p + i))
  {
  }

  /** A gap before a marker does not hide it: no marker overlaps another. */
  lemma {:induction false} MarkAfterGap(file: seq<byte>, p: nat, q: nat)
    requires p <= q && q + 4 <= |file| && MarkAt(file, q)
    requires forall i: nat | p <= i && i + 4 <= q :: !MarkAt(file, i)
    ensures NextMark(file, p) == Some(q + 4)
    decreases q - p
  {
    MarkSlice(file, p);
    if p < q {
      assert !MarkAt(file, p) by {
        if MarkAt(file, p) {
          NoOverlap(file, p, q);
        }
      }
      MarkAfterGap(file, p + 1, q);
    }
  }

  lemma NoOverlap(s: seq<byte>, p: nat, q: nat)
    requires p < q && MarkAt(s, p) && MarkAt(s, q)
    ensures p + 4 <= q
  {
  }

  lemma FreeGap(file: seq<byte>, p: nat, g: seq<byte>)
    requires p + |g| <= |file| && file[p..p + |g|] == g && MarkFree(g)
    ensures forall i: nat | p <= i && i + 4 <= p + |g| :: !MarkAt(file, i)
  {
    hide MarkAt;
    forall i: nat | p <= i && i + 4 <= p + |g|
      ensures !MarkAt(file, i)
    {
      MarkInPart(file, p, |g|, i - p);
      assert !MarkAt(g, i - p);
    }
  }

  lemma {:induction false} NoMarkInTail(file: seq<byte>, p: nat)
    requires p <= |file| && (forall i: nat | p <= i && i + 4 <= |file| :: !MarkAt(file, i))
    ensures NextMark(file, p) == None
    decreases |file| - p
  {
    hide MarkAt;
    if p + 4 <= |file| {
      MarkSlice(file, p);
      NoMarkInTail(file, p + 1);
    }
  }

  /** A log record; time is kept as its eight bytes. */
  datatype Rec = Rec(lsn: seq<byte>, tm: seq<byte>, data: seq<byte>)

  predicate RecOk(r: Rec) {
    |r.lsn| == 8 && |r.tm| == 8 && |r.data| < U32
  }

  function HeaderOf(crc: seq<byte> -> u32, r: Rec): (h: seq<byte>)
    requires RecOk(r)
    ensures |h| == HEADER_SIZE
  {
    var rest := r.lsn + r.tm + Native(|r.data|) + Native(crc(r.data));
    Native(crc(rest)) + rest
  }

  lemma HeaderFields(crc: seq<byte> -> u32, r: Rec)
    requires RecOk(r)
    ensures var h := HeaderOf(crc, r);
      HeaderOk(crc, h) && DataOk(crc, h, r.data) && FieldLen(h) == |r.data| && h[4..12] == r.lsn && h[12..20] == r.tm
  {
    hide FromNative, Native;
    var h := HeaderOf(crc, r);
    var rest := r.lsn + r.tm + Native(|r.data|) + Native(crc(r.data));
    assert h[..4] == Native(crc(rest)) && h[4..] == rest;
    assert h[20..24] == Native(|r.data|) && h[24..28] == Native(crc(r.data));
    FromNativeOfNative(crc(rest));
    FromNativeOfNative(|r.data|);
    FromNativeOfNative(crc(r.data));
  }

  function RecBytes(crc: seq<byte> -> u32, r: Rec): (s: seq<byte>)
    requires RecOk(r)
    ensures |s| == 4 + HEADER_SIZE + |r.data|
  {
    [0xed, 0xab, 0x0b, 0xba] + HeaderOf(crc, r) + r.data
  }

  /** A gap and a record stand in the file at p. */
  predicate Stands(crc: seq<byte> -> u32, file: seq<byte>, p: nat, g: seq<byte>, r: Rec)
    requires RecOk(r)
  {
    var s := g + RecBytes(crc, r);
    p + |s| <= |file| && file[p..p + |s|] == s
  }

  lemma StandingParts(crc: seq<byte> -> u32, file: seq<byte>, p: nat, g: seq<byte>, r: Rec)
    requires RecOk(r) && Stands(crc, file, p, g, r)
    ensures p + |g| + 32 + |r.data| <= |file|
    ensures file[p..p + |g|] == g
    ensures file[p + |g|..p + |g| + 4] == MARK
    ensures file[p + |g| + 4..p + |g| + 32] == HeaderOf(crc, r)
    ensures file[p + |g| + 32..p + |g| + 32 + |r.data|] == r.data
  {
    hide HeaderOf;
    var b, n := RecBytes(crc, r), |g|;
    var w := file[p..p + n + |b|];
    assert w == g + b;
    assert w[..n] == g && w[n..] == b;
    assert b[..4] == MARK && b[4..32] == HeaderOf(crc, r) && b[32..] == r.data;
    InPart(file, p, w, n, b, 0, 4);
    InPart(file, p, w, n, b, 4, 32);
    InPart(file, p, w, n, b, 32, |b|);
  }

  lemma InPart(file: seq<byte>, p: nat, w: seq<byte>, n: nat, b: seq<byte>, i: nat, j: nat)
    requires p + |w| <= |file| && w == file[p..p + |w|]
    requires n <= |w| && b == w[n..] && i <= j <= |b|
    ensures file[p + n + i..p + n + j] == b[i..j]
  {
    var part := file[p + n + i..p + n + j];
    assert forall k | 0 <= k < j - i :: part[k] == w[n + i + k] == b[i..j][k];
  }

  /** Resynchronisation: whatever lies before a record, a read returns exactly that
      record if its data is not empty. An empty one is taken for the end of the file,
      whatever follows it. */
  lemma ReadsRecord(crc: seq<byte> -> u32, file: seq<byte>, c: Cursor, g: seq<byte>, r: Rec)
    requires c.pos <= |file| && RecOk(r) && MarkFree(g) && Stands(crc, file, c.pos, g, r)
    ensures var q := c.pos + |g| + 32;
      Read(crc, file, c) ==
        if r.data != [] then (Row(HeaderOf(crc, r), r.data), Cursor(q + |r.data|, q)) else (Eof, Cursor(q, q))
  {
    hide NextMark, HeaderOf, FromNative, RecBytes, MarkFree, MarkAt, Stands, HeaderOk, DataOk;
    StandingParts(crc, file, c.pos, g, r);
    FreeGap(file, c.pos, g);
    MarkSlice(file, c.pos + |g|);
    MarkAfterGap(file, c.pos, c.pos + |g|);
    HeaderFields(crc, r);
  }

  lemma RowParts(crc: seq<byte> -> u32, file: seq<byte>, c: Cursor)
    requires c.pos <= |file|
    ensures match Read(crc, file, c)
      case (Row(h, d), e) =>
        && HeaderOk(crc, h) && DataOk(crc, h, d) && d != []
        && NextMark(file, c.pos).Some?
        && var p := NextMark(file, c.pos).value;
           p + 28 + |d| == e.pos && e.offset == p + 28 && file[p..e.pos] == h + d
      case _ => true
  {
    hide NextMark, FromNative, HeaderOk, DataOk;
  }

  lemma OkMeans(crc: seq<byte> -> u32, h: seq<byte>, d: seq<byte>)
    requires |h| == 28
    ensures FieldLen(h) == FromNative(h[20..24])
    ensures HeaderOk(crc, h) <==> crc(h[4..]) == FromNative(h[..4])
    ensures DataOk(crc, h, d) <==> |d| == FromNative(h[20..24]) && crc(d) == FromNative(h[24..28])
  {
    hide FromNative;
  }

  /** What is returned as a record follows the first marker, and both its checksums
      are right. */
  lemma NoBadRow(crc: seq<byte> -> u32, file: seq<byte>, c: Cursor)
    requires c.pos <= |file|
    ensures match Read(crc, file, c)
      case (Row(h, d), e) =>
        && |h| == 28 && crc(h[4..]) == FromNative(h[..4])
        && |d| == FromNative(h[20..24]) > 0 && crc(d) == FromNative(h[24..28])
        && NextMark(file, c.pos).Some?
        && var p := NextMark(file, c.pos).value;
           && p + 28 + |d| == e.pos && e.offset == p + 28 && file[p..e.pos] == h + d
           && file[p - 4..p] == [0xed, 0xab, 0x0b, 0xba]
      case _ => true
  {
    hide NextMark, FromNative, HeaderOk, DataOk, Read, FieldLen;
    MarkBefore(file, c.pos);
    RowParts(crc, file, c);
    var x := Read(crc, file, c).0;
    if x.Row? {
      OkMeans(crc, x.header, x.data);
    }
  }

  lemma {:induction false} MarkBefore(s: seq<byte>, p: nat)
    ensures match NextMark(s, p)
      case Some(q) => s[q - 4..q] == [0xed, 0xab, 0x0b, 0xba]
      case None => true
    decreases |s| - p
  {
    if p + 4 <= |s| && s[p..p + 4] != MARK {
      MarkBefore(s, p + 1);
    }
  }

  lemma DamageRaw(crc: seq<byte> -> u32, file: seq<byte>, c: Cursor, p: nat)
    requires c.pos <= |file| && NextMark(file, c.pos) == Some(p)
    ensures p + 28 <= |file| && !HeaderOk(crc, file[p..p + 28]) ==>
      Read(crc, file, c) == (Corrupt, Cursor(p + 28, p + 28))
    ensures p + 28 <= |file| && HeaderOk(crc, file[p..p + 28]) ==>
      var q, h, len := p + 28, file[p..p + 28], FieldLen(file[p..p + 28]);
      && (q + len <= |file| && 0 < len && !DataOk(crc, h, file[q..q + len]) ==>
            Read(crc, file, c) == (Corrupt, Cursor(q + len, q)))
      && (q + len > |file| ==> Read(crc, file, c) == EndOf(file, Cursor(|file|, q)))
    ensures p + 28 > |file| ==> Read(crc, file, c) == EndOf(file, Cursor(|file|, c.offset))
  {
    hide NextMark, FromNative, EndOf, HeaderOk, DataOk, FieldLen;
  }

  /** Damage is told from the end: behind a marker, a header whose checksum is wrong, or
      whole data whose checksum is wrong, is reported, and the next read goes on behind
      it; data that the file cuts short is the end. */
  lemma DamageTold(crc: seq<byte> -> u32, file: seq<byte>, c: Cursor, p: nat, h: seq<byte>)
    requires c.pos <= |file| && NextMark(file, c.pos) == Some(p)
    requires p + 28 <= |file| && h == file[p..p + 28]
    ensures crc(h[4..]) != FromNative(h[..4]) ==> Read(crc, file, c) == (Corrupt, Cursor(p + 28, p + 28))
    ensures crc(h[4..]) == FromNative(h[..4]) ==>
      var q, len := p + 28, FromNative(h[20..24]);
      && (q + len <= |file| && 0 < len && crc(file[q..q + len]) != FromNative(h[24..28]) ==>
            Read(crc, file, c) == (Corrupt, Cursor(q + len, q)))
      && (q + len > |file| ==> Read(crc, file, c) == EndOf(file, Cursor(|file|, q)))
  {
    hide Read, NextMark, FromNative, EndOf, HeaderOk, DataOk, FieldLen;
    DamageRaw(crc, file, c, p);
    OkMeans(crc, h, []);
    if p + 28 + FieldLen(h) <= |file| {
      OkMeans(crc, h, file[p + 28..p + 28 + FieldLen(h)]);
    }
  }

  // ----- a whole file -----

  datatype Scan = Scan(rows: seq<Outcome>, end: Outcome)

  /** All reads up to the first that returns no record. */
  function ReadAll(crc: seq<byte> -> u32, file: seq<byte>, c: Cursor): Scan
    requires c.pos <= |file|
    decreases |file| - c.pos
  {
    match Read(crc, file, c)
    case (Row(h, d), e) =>
      var more := ReadAll(crc, file, e);
      Scan([Row(h, d)] + more.rows, more.end)
    case (end, _) => Scan([], end)
  }

  datatype Piece = Piece(gap: seq<byte>, rec: Rec)

  predicate PiecesOk(ps: seq<Piece>) {
    forall i | 0 <= i < |ps| :: RecOk(ps[i].rec) && MarkFree(ps[i].gap) && ps[i].rec.data != []
  }

  function PiecesBytes(crc: seq<byte> -> u32, ps: seq<Piece>): seq<byte>
    requires PiecesOk(ps)
  {
    if ps == [] then [] else ps[0].gap + RecBytes(crc, ps[0].rec) + PiecesBytes(crc, ps[1..])
  }

  function RowsOf(crc: seq<byte> -> u32, ps: seq<Piece>): (rows: seq<Outcome>)
    requires PiecesOk(ps)
    ensures |rows| == |ps|
  {
    seq(|ps|, i requires 0 <= i < |ps| => Row(HeaderOf(crc, ps[i].rec), ps[i].rec.data))
  }

  /** The bytes behind the last header, or all of them if there is no record. */
  function Remainder(ps: seq<Piece>, tail: seq<byte>): seq<byte> {
    (if ps == [] then [] else ps[|ps| - 1].rec.data) + tail
  }

  /** The answer at the end: damage, exactly if four bytes remain behind the last header
      and they are not the end marker. */
  function EndAnswer(rest: seq<byte>): Outcome {
    if |rest| == 4 && rest != [0x1e, 0xab, 0xad, 0x10] then Corrupt else Eof
  }

  /** A log of records that are not empty, with anything between and behind them that
      holds no marker, is read back record by record. */
  lemma {:induction false} LogReadsBack(crc: seq<byte> -> u32, file: seq<byte>, c: Cursor, ps: seq<Piece>, tail: seq<byte>)
    requires PiecesOk(ps) && MarkFree(tail)
    requires c.offset <= c.pos <= |file| && file[c.pos..] == PiecesBytes(crc, ps) + tail
    ensures ReadAll(crc, file, c).rows == RowsOf(crc, ps)
    ensures ReadAll(crc, file, c).end ==
      EndAnswer(if ps == [] then file[c.offset..] else Remainder(ps, tail))
    decreases ps
  {
    hide Read, RecBytes, MarkFree, HeaderOf, FromNative, PiecesBytes, PiecesOk;
    if ps == [] {
      assert file[c.pos..] == tail by { NoPieces(crc); }
      assert RowsOf(crc, ps) == [];
      EndReached(crc, file, c);
    } else {
      var e := FirstPiece(crc, file, c, ps, tail);
      LogReadsBack(crc, file, e, ps[1..], tail);
      if |ps| == 1 {
        assert ps[1..] == [];
        NoPieces(crc);
        assert file[e.pos..] == tail;
      }
    }
  }

  lemma NoPieces(crc: seq<byte> -> u32)
    ensures PiecesOk([]) && PiecesBytes(crc, []) == []
  {
  }

  lemma FirstPiece(crc: seq<byte> -> u32, file: seq<byte>, c: Cursor, ps: seq<Piece>, tail: seq<byte>) returns (e: Cursor)
    requires PiecesOk(ps) && ps != []
    requires c.pos <= |file| && file[c.pos..] == PiecesBytes(crc, ps) + tail
    ensures Read(crc, file, c) == (Row(HeaderOf(crc, ps[0].rec), ps[0].rec.data), e)
    ensures e.offset <= e.pos <= |file|
    ensures PiecesOk(ps[1..]) && file[e.pos..] == PiecesBytes(crc, ps[1..]) + tail
    ensures file[e.offset..] == ps[0].rec.data + file[e.pos..]
  {
    hide Read, RecBytes, MarkFree, HeaderOf, FromNative;
    var g, r, more := ps[0].gap, ps[0].rec, PiecesBytes(crc, ps[1..]);
    var s := g + RecBytes(crc, r);
    SplitFront(file, c.pos, s, more, tail);
    ReadsRecord(crc, file, c, g, r);
    e := Read(crc, file, c).1;
    StandingParts(crc, file, c.pos, g, r);
    JoinSlices(file, e.offset, e.pos);
  }

  lemma SplitFront(file: seq<byte>, p: nat, s: seq<byte>, more: seq<byte>, tail: seq<byte>)
    requires p <= |file| && file[p..] == (s + more) + tail
    ensures p + |s| <= |file| && file[p..p + |s|] == s && file[p + |s|..] == more + tail
  {
    var w := file[p..];
    assert w == s + (more + tail);
    assert w[..|s|] == file[p..p + |s|] && w[|s|..] == file[p + |s|..];
  }

  lemma JoinSlices(s: seq<byte>, a: nat, b: nat)
    requires a <= b <= |s|
    ensures s[a..] == s[a..b] + s[b..]
  {
  }

  lemma EndReached(crc: seq<byte> -> u32, file: seq<byte>, c: Cursor)
    requires c.offset <= c.pos <= |file| && MarkFree(file[c.pos..])
    ensures Read(crc, file, c).0 == EndAnswer(file[c.offset..])
  {
    hide NextMark, FromNative, MarkFree, MarkAt;
    if |file| - c.offset == 4 {
      EofOnly(file[c.offset..]);
    }
    assert file[c.pos..] == file[c.pos..c.pos + |file[c.pos..]|];
    FreeGap(file, c.pos, file[c.pos..]);
    NoMarkInTail(file, c.pos);
    assert file[c.offset..] == file[c.offset..|file|];
  }
}
