/**
 The reader's cursor in one file: what a physical read sees there, and when a file has nothing more to
 give to a reader that stands at an offset.
 */
module BinlogCursor {
  import opened Bytes
  import opened BinlogFormat

  /** A file number and an offset in that file, in the order of BinlogOffset. */
  datatype Position = Position(filenum: nat, offset: nat) {
    predicate Less(q: Position) {
      filenum < q.filenum || (filenum == q.filenum && offset < q.offset)
    }

    predicate AtMost(q: Position) {
      this == q || Less(q)
    }
  }

  /** Positions are in a strict order: by file, and in a file by offset. */
  lemma {:induction false} PositionOrder(p: Position, q: Position, r: Position)
    ensures !p.Less(p) && (p.Less(q) || p == q || q.Less(p)) && !(p.Less(q) && q.Less(p))
    ensures p.Less(q) && q.Less(r) ==> p.Less(r)
    ensures p.filenum < q.filenum ==> p.Less(q)
    ensures p.AtMost(q) <==> !q.Less(p)
  {
  }

  /** Where the reader stands: file, offset, offset in the block, and the file cursor itself. */
  datatype Cursor = Cursor(filenum: nat, offset: nat, lastRecordOffset: nat, fpos: nat) {
    function Pos(): Position {
      Position(filenum, offset)
    }

    /** The offset in the file, the offset in the block and the file cursor agree. */
    predicate Settled() {
      fpos == offset && BlockOffsetOk(lastRecordOffset, offset)
    }
  }

  datatype Physical = Physical(kind: Byte, fragment: seq<Byte>, cursor: Cursor)

  function Min(a: nat, b: nat): nat {
    if a < b then a else b
  }

  /** A file cursor after reading up to n bytes. */
  function Advance(f: seq<Byte>, fpos: nat, n: nat): (p: nat)
    ensures fpos <= p <= fpos + n && (p == fpos + n || |f| <= p) && (fpos <= |f| ==> p <= |f|) && (fpos > |f| ==> p == fpos || n == 0)
  {
    if fpos + n <= |f| then fpos + n else if fpos < |f| then |f| else fpos
  }

  function LengthAt(f: seq<Byte>, p: nat): nat
    requires p + kHeaderSize <= |f|
  {
    LengthField(f[p], f[p + 1], f[p + 2])
  }

  /** Leaves a block whose rest is at most a header; a block offset beyond the block does not count. */
  function SkipBlockEnd(c: Cursor): Cursor {
    if c.lastRecordOffset <= kBlockSize && kBlockSize - c.lastRecordOffset <= kHeaderSize then
      var n := kBlockSize - c.lastRecordOffset;
      c.(fpos := c.fpos + n, offset := c.offset + n, lastRecordOffset := 0)
    else c
  }

  /** The record at the file cursor. */
  function ReadRecord(f: seq<Byte>, c: Cursor): Physical {
    if |f| < c.fpos + kHeaderSize then
      Physical(kEof, [], c.(fpos := Advance(f, c.fpos, kHeaderSize)))
    else
      var n := LengthAt(f, c.fpos);
      var t := f[c.fpos + 7];
      var p := c.fpos + kHeaderSize;
      if n > kBlockSize - kHeaderSize then Physical(kBadRecord, [], c.(fpos := p))
      else if t == kZeroType || n == 0 then Physical(kOldRecord, [], c.(fpos := p))
      else
        Physical(t, f[p..Min(p + n, |f|)],
                 c.(fpos := Advance(f, p, n),
                    lastRecordOffset := c.lastRecordOffset + kHeaderSize + n,
                    offset := if p + n <= |f| then c.offset + kHeaderSize + n else c.offset))
  }

  /** One physical record of file f as the reader sees it. */
  function ReadPhysical(f: seq<Byte>, c: Cursor): Physical {
    ReadRecord(f, SkipBlockEnd(c))
  }

  lemma {:induction false} RecordIsRead(f: seq<Byte>, c: Cursor, t: Byte, payload: seq<Byte>)
    requires RecordAt(f, c.fpos, t, payload) && 0 < |payload| <= kBlockSize - kHeaderSize && t != kZeroType
    ensures var k := kHeaderSize + |payload|;
            ReadRecord(f, c) == Physical(t, payload, Cursor(c.filenum, c.offset + k, c.lastRecordOffset + k, c.fpos + k))
  {
  }

  /**
   What is read where no whole record stands: the end of the file before a header is whole, a bad record for a
   length over 65528, an old one for the type or length zero, and of a record that is cut off the part that is
   there, which moves the offset in the block but not the offset in the file.
   */
  lemma {:induction false} NoWholeRecord(f: seq<Byte>, c: Cursor)
    ensures c.fpos + 8 > |f| ==> ReadRecord(f, c) == Physical(5, [], c.(fpos := if c.fpos < |f| then |f| else c.fpos))
    ensures c.fpos + 8 <= |f| ==>
              var n: nat, t := f[c.fpos] as int + 256 * f[c.fpos + 1] as int + 65536 * f[c.fpos + 2] as int, f[c.fpos + 7];
              && (n > 65528 ==> ReadRecord(f, c) == Physical(6, [], c.(fpos := c.fpos + 8)))
              && (n <= 65528 && (t == 0 || n == 0) ==> ReadRecord(f, c) == Physical(7, [], c.(fpos := c.fpos + 8)))
              && (0 < n <= 65528 && t != 0 && |f| < c.fpos + 8 + n ==>
                    ReadRecord(f, c)
                    == Physical(t, f[c.fpos + 8..], c.(fpos := |f|, lastRecordOffset := c.lastRecordOffset + 8 + n)))
  {
  }

  /** How far into its block a record slot without room for payload moves the reader. */
  function SkipEmptySlot(p: nat): nat {
    if Space(p) == kHeaderSize then p + kHeaderSize else p
  }

  /** The reader's block test leads to the same record as the writer's, past an empty slot. */
  lemma {:induction false} SkipsToRecord(c: Cursor)
    requires c.Settled()
    ensures var q := Align(SkipEmptySlot(c.offset));
            var k := SkipBlockEnd(c);
            && k.Settled() && k.offset == q && k.filenum == c.filenum
            && k.lastRecordOffset == q % kBlockSize && Space(q) > kHeaderSize
  {
  }

  /** Past an empty slot the same item is still to be read, its First record already passed. */
  lemma {:induction false} EmptySlotHoldsNothing(f: seq<Byte>, p: nat, begin: bool, item: seq<Byte>, e: nat)
    requires ItemAt(f, p, begin, item, e) && |item| > 0
    ensures ItemAt(f, SkipEmptySlot(p), begin && Space(p) != kHeaderSize, item, e)
  {
    if Space(p) == kHeaderSize {
      assert item[0..] == item;
    }
  }

  /** What an item at p says about its first record q, of n bytes. */
  lemma {:induction false} FirstFragment(f: seq<Byte>, p: nat, begin: bool, item: seq<Byte>, e: nat, q: nat, n: nat)
    requires ItemAt(f, p, begin, item, e) && q == Align(p) && n == FragmentLength(q, |item|)
    requires |item| > 0 && Space(q) > kHeaderSize
    ensures 0 < n && RecordAt(f, q, RecordType(begin, n == |item|), item[..n])
    ensures RecordType(begin, n == |item|) != kZeroType
    ensures BlockOffsetOk(q % kBlockSize, q)
    ensures if n == |item| then e == q + kHeaderSize + n else ItemAt(f, q + kHeaderSize + n, false, item[n..], e)
  {
  }

  /** The first record of an item that starts without a trailer, and where the rest of the item stands. */
  lemma {:induction false} NextRecord(f: seq<Byte>, p: nat, begin: bool, item: seq<Byte>, e: nat)
    requires Align(p) == p && ItemAt(f, p, begin, item, e)
    ensures var n := FragmentLength(p, |item|);
            var q := p + kHeaderSize + n;
            && q <= |f| && LengthAt(f, p) == n <= kBlockSize - kHeaderSize
            && if n == |item| then e == q && f[p + 7] in {kFullType, kLastType}
               else Align(q) == q && ItemAt(f, q, false, item[n..], e) && f[p + 7] in {kFirstType, kMiddleType}
  {
  }

  /** The next physical record carries the next, non-empty part of the item. */
  lemma {:induction false} ReadsFragment(f: seq<Byte>, c: Cursor, begin: bool, item: seq<Byte>, e: nat)
    requires c.Settled() && ItemAt(f, c.offset, begin, item, e) && |item| > 0
    ensures var r := ReadPhysical(f, c);
            var n := |r.fragment|;
            && 0 < n <= |item| && r.fragment == item[..n]
            && r.cursor.Settled() && r.cursor.filenum == c.filenum
            && r.kind == RecordType(begin && Space(c.offset) != kHeaderSize, n == |item|)
            && if n == |item| then r.cursor.offset == e
               else ItemAt(f, r.cursor.offset, false, item[n..], e)
  {
    hide SkipBlockEnd, SkipEmptySlot, ReadRecord, ItemAt, Align, FragmentLength, BlockOffsetOk, RecordAt, RecordType;
    EmptySlotHoldsNothing(f, c.offset, begin, item, e);
    SkipsToRecord(c);
    var p := SkipEmptySlot(c.offset);
    var q := Align(p);
    var n := FragmentLength(q, |item|);
    FirstFragment(f, p, begin && Space(c.offset) != kHeaderSize, item, e, q, n);
    RecordIsRead(f, SkipBlockEnd(c), RecordType(begin && Space(c.offset) != kHeaderSize, n == |item|), item[..n]);
    BlockAdvances(q % kBlockSize, q, kHeaderSize + n);
  }

  /** A record that is not an end of file moves the file cursor. */
  lemma {:induction false} RecordMoves(f: seq<Byte>, c: Cursor)
    ensures var r := ReadPhysical(f, c);
            r.kind in {kFirstType, kMiddleType} ==> c.fpos < r.cursor.fpos <= |f|
  {
  }

  // The end of a file, for the reader

  /** How much of a file is left to read; a cursor beyond the end counts as at it. */
  function LeftToRead(f: seq<Byte>, c: Cursor): nat {
    if c.fpos <= |f| then |f| - c.fpos + 1 else 0
  }

  /**
   From the cursor on the reader finds no whole item and nothing that it takes for damage: its reads end
   at the end of the file or at an empty header, with at most first and middle parts before.
   */
  predicate Fades(f: seq<Byte>, c: Cursor)
    decreases LeftToRead(f, c)
  {
    RecordMoves(f, c);
    var r := ReadPhysical(f, c);
    || r.kind in {kEof, kOldRecord}
    || (r.kind in {kFirstType, kMiddleType} && Fades(f, r.cursor))
  }

  function CursorAt(p: Position): Cursor {
    Cursor(p.filenum, p.offset, p.offset % kBlockSize, p.offset)
  }

  /** A file that goes on with nothing for the reader after an offset. */
  predicate EndsAt(f: seq<Byte>, p: Position) {
    p.offset <= |f| && Fades(f, CursorAt(p))
  }

  lemma {:induction false} SettledReads(f: seq<Byte>, c: Cursor)
    requires c.Settled()
    ensures SkipBlockEnd(c) == SkipBlockEnd(CursorAt(c.Pos())) && (Fades(f, c) <==> Fades(f, CursorAt(c.Pos())))
  {
  }

  /** Where an item stands, a file does not end. */
  lemma {:induction false} ItemDoesNotFade(f: seq<Byte>, c: Cursor, begin: bool, item: seq<Byte>, e: nat)
    requires c.Settled() && ItemAt(f, c.offset, begin, item, e) && |item| > 0
    ensures !Fades(f, c)
    decreases |item|
  {
    hide ItemAt, ReadPhysical, BlockOffsetOk;
    ReadsFragment(f, c, begin, item, e);
    var r := ReadPhysical(f, c);
    if |r.fragment| < |item| {
      ItemDoesNotFade(f, r.cursor, false, item[|r.fragment|..], e);
    }
  }

  lemma {:induction false} ItemGoesOn(f: seq<Byte>, p: Position, item: seq<Byte>, e: nat)
    requires ItemAt(f, p.offset, true, item, e) && |item| > 0
    ensures !EndsAt(f, p)
  {
    hide ItemAt, Fades;
    ItemDoesNotFade(f, CursorAt(p), true, item, e);
  }

  lemma {:induction false} NoLength()
    ensures LengthField(0, 0, 0) == 0
  {
  }

  lemma {:induction false} ZeroHeader(f: seq<Byte>, c: Cursor)
    requires forall i | c.fpos <= i < |f| :: f[i] == 0
    ensures ReadRecord(f, c).kind in {kEof, kOldRecord}
  {
    hide LengthField, Advance, Min;
    if c.fpos + kHeaderSize <= |f| {
      var p := c.fpos;
      assert f[p] == 0 && f[p + 1] == 0 && f[p + 2] == 0 && f[p + 7] == 0;
      NoLength();
    }
  }

  lemma {:induction false} SkipsForward(c: Cursor)
    ensures c.fpos <= SkipBlockEnd(c).fpos
  {
  }

  /** Nothing but zeros ends a file, and so does its length. */
  lemma {:induction false} ZerosFade(f: seq<Byte>, p: Position)
    requires p.offset <= |f| && forall i | p.offset <= i < |f| :: f[i] == 0
    ensures EndsAt(f, p)
  {
    hide ReadRecord, SkipBlockEnd;
    SkipsForward(CursorAt(p));
    ZeroHeader(f, SkipBlockEnd(CursorAt(p)));
  }
}
