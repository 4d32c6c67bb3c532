/**
 The consumer: `PikaBinlogReader` reassembles items from physical records, passes from file to file,
 and seeks to a published position by scanning one block.
 */
module BinlogReader {
  import opened Bytes
  import opened BinlogFormat
  import opened BinlogCursor
  import opened BinlogTransverter
  import opened BinlogLog
  import opened BinlogWriter
  import opened Wrappers

  datatype ReadStatus = ReadOk | EndFile | ReadIOError | Corruption

  /** A cursor between the first i items of a log and the rest, not beyond the producer. */
  ghost predicate Between(d: Directory, l: Log, i: nat, c: Cursor, pro: Position) {
    && i <= |l.entries| && c.Settled()
    && Near(d, l.At(i), c.Pos()) && c.Pos().AtMost(pro)
  }

  /** The files hold the log, the producer is at its end, and the cursor between its items. */
  ghost predicate Reads(d: Directory, l: Log, i: nat, c: Cursor, pro: Position) {
    LogOk(d, l) && Near(d, l.Last(), pro) && Between(d, l, i, c, pro)
  }

  class PikaBinlogReader {
    var curFilenum: nat
    var curOffset: nat
    var lastRecordOffset: nat
    // queue_: the file curFilenum of the logger's directory, open for reading at fpos
    var hasQueue: bool
    var fpos: nat
    var logger: Binlog?

    ghost function Cur(): Cursor
      reads this
    {
      Cursor(curFilenum, curOffset, lastRecordOffset, fpos)
    }

    /** The content of the open file. */
    function Content(): seq<Byte>
      reads this, logger
    {
      if logger != null && curFilenum in logger.files then logger.files[curFilenum] else []
    }

    /** The reader stands between the first i published items and the rest. */
    ghost predicate At(i: nat)
      reads this, logger
    {
      && logger != null && logger.Valid() && hasQueue && i <= |logger.log.entries|
      && Between(logger.files, logger.log, i, Cur(), logger.version.Pos())
    }

    constructor (filenum: nat, offset: nat)
      ensures !hasQueue && logger == null && Cur() == Cursor(filenum, offset, offset % kBlockSize, 0)
    {
      curFilenum, curOffset := filenum, offset;
      lastRecordOffset := offset % kBlockSize;
      hasQueue, fpos, logger := false, 0, null;
    }

    /** Whether the reader has caught up with the producer. */
    method ReadToTheEnd() returns (b: bool)
      requires logger != null
      ensures b <==> Cur().Pos() == logger.version.Pos()
    {
      var _, v := logger.GetProducerStatus();
      b := v.proNum == curFilenum && v.proOffset == curOffset;
    }

    /** Reads up to n bytes; fewer mean the end of the file. */
    method Read(n: nat) returns (ok: bool, bytes: seq<Byte>)
      modifies this`fpos
      ensures fpos == Advance(Content(), old(fpos), n)
      ensures ok <==> old(fpos) + n <= |Content()|
      ensures bytes == if old(fpos) <= |Content()| then Content()[old(fpos)..Min(old(fpos) + n, |Content()|)] else []
    {
      var f := Content();
      ok := fpos + n <= |f|;
      bytes := if fpos <= |f| then f[fpos..Min(fpos + n, |f|)] else [];
      fpos := Advance(f, fpos, n);
    }

    /** One physical record, past a block end too short to hold a record with payload. */
    method ReadPhysicalRecord() returns (kind: Byte, fragment: seq<Byte>)
      modifies this`curOffset, this`lastRecordOffset, this`fpos
      ensures ReadPhysical(Content(), old(Cur())) == Physical(kind, fragment, Cur())
    {
      hide ReadRecord;
      if lastRecordOffset <= kBlockSize && kBlockSize - lastRecordOffset <= kHeaderSize {
        fpos := fpos + (kBlockSize - lastRecordOffset);
        curOffset := curOffset + (kBlockSize - lastRecordOffset);
        lastRecordOffset := 0;
      }
      kind, fragment := ReadHere();
    }

    /** Reads up to n bytes into a buffer that is not looked at. */
    method PassOver(n: nat)
      modifies this`fpos
      ensures fpos == Advance(Content(), old(fpos), n)
    {
      var _, _ := Read(n);
    }

    /** The length and the type in the header at the file cursor. */
    method ReadHeader() returns (ok: bool, length: nat, t: Byte)
      modifies this`fpos
      ensures fpos == Advance(Content(), old(fpos), kHeaderSize)
      ensures ok <==> old(fpos) + kHeaderSize <= |Content()|
      ensures ok ==> length == LengthAt(Content(), old(fpos)) && t == Content()[old(fpos) + 7]
    {
      var header;
      ok, header := Read(kHeaderSize);
      length, t := 0, 0;
      if ok {
        length := LengthField(header[0], header[1], header[2]);
        t := header[7];
      }
    }

    method ReadHere() returns (kind: Byte, fragment: seq<Byte>)
      modifies this`curOffset, this`lastRecordOffset, this`fpos
      ensures ReadRecord(Content(), old(Cur())) == Physical(kind, fragment, Cur())
    {
      hide LengthField;
      fragment := [];
      var ok, length, t := ReadHeader();
      if !ok {
        return kEof, [];
      }
      if length > kBlockSize - kHeaderSize {
        return kBadRecord, [];
      }
      if t == kZeroType || length == 0 {
        return kOldRecord, [];
      }
      ok, fragment := Read(length);
      lastRecordOffset := lastRecordOffset + kHeaderSize + length;
      if ok {
        curOffset := curOffset + kHeaderSize + length;
      }
      kind := t;
    }

    /**
     Reads records until an item is whole. With an item standing at the cursor, the result is that item
     and the cursor moves to its end; a scratch buffer that is not empty does not matter at the start of a
     file. The end of a file is reported exactly where the file fades.
     */
    method Consume(scratch: seq<Byte>, ghost item: seq<Byte>, ghost e: nat)
      returns (s: ReadStatus, scratch': seq<Byte>)
      modifies this`curOffset, this`lastRecordOffset, this`fpos
      ensures old(Cur().Settled() && ItemAt(Content(), curOffset, true, item, e)) && item != []
              && (scratch == [] || old(curOffset) == 0)
              ==> s == ReadOk && scratch' == item && Cur().Settled() && curOffset == e
      ensures s == EndFile <==> old(Fades(Content(), Cur()))
    {
      hide ItemAt, ReadPhysical, BlockOffsetOk, Space;
      ghost var f := Content();
      ghost var whole := Cur().Settled() && ItemAt(f, curOffset, true, item, e) && item != []
                         && (scratch == [] || curOffset == 0);
      ghost var left, begin := item, true;
      FileStart();
      scratch' := scratch;
      while true
        invariant whole ==> Cur().Settled() && ItemAt(f, curOffset, begin, left, e) && left != []
        invariant whole && begin ==> left == item && (scratch' == [] || curOffset == 0)
        invariant whole && !begin ==> scratch' + left == item
        invariant Fades(f, Cur()) <==> old(Fades(f, Cur()))
        invariant fpos <= |f| || Cur() == old(Cur())
        decreases LeftToRead(f, Cur())
      {
        if whole {
          ReadsFragment(f, Cur(), begin, left, e);
        }
        RecordMoves(f, Cur());
        var kind, fragment := ReadPhysicalRecord();
        if kind == kFullType {
          scratch' := fragment;
          return ReadOk, scratch';
        } else if kind == kFirstType {
          scratch' := fragment;
        } else if kind == kMiddleType {
          scratch' := scratch' + fragment;
        } else if kind == kLastType {
          scratch' := scratch' + fragment;
          return ReadOk, scratch';
        } else if kind == kEof {
          return EndFile, scratch';
        } else if kind == kBadRecord {
          return ReadIOError, scratch';
        } else if kind == kOldRecord {
          return EndFile, scratch';
        } else {
          return ReadIOError, scratch';
        }
        if whole {
          left := left[|fragment|..];
          begin := false;
        }
      }
    }

    /**
     The next published item with the position after it, across file rolls; EndFile once the reader
     has caught up. As in the source, a failure other than the end of a file still yields ReadOk.
     */
    method Get(ghost i: nat) returns (s: ReadStatus, scratch: seq<Byte>, filenum: nat, offset: nat)
      modifies this`curFilenum, this`curOffset, this`lastRecordOffset, this`fpos
      ensures logger == null || !hasQueue ==> s == Corruption && Cur() == old(Cur())
      ensures old(At(i)) && i < |logger.log.entries| ==>
                && s == ReadOk && At(i + 1)
                && scratch == logger.log.entries[i].Data()
                && Position(filenum, offset) == logger.log.At(i + 1)
      ensures old(At(i)) && i == |logger.log.entries| ==> s == EndFile && At(i)
    {
      scratch, filenum, offset := [], curFilenum, curOffset;
      if logger == null || !hasQueue {
        return Corruption, scratch, filenum, offset;
      }
      hide LogOk, Near, ItemBytes, Saved, Between;
      s, scratch, filenum, offset := GetFrom(logger.log, i);
    }

    /** The loop of Get, over the log that the files hold. */
    method GetFrom(ghost l: Log, ghost i: nat) returns (s: ReadStatus, scratch: seq<Byte>, filenum: nat, offset: nat)
      requires logger != null
      modifies this`curFilenum, this`curOffset, this`lastRecordOffset, this`fpos
      ensures s != Corruption
      ensures old(Reads(logger.files, l, i, Cur(), logger.version.Pos())) && i < |l.entries| ==>
                && s == ReadOk && Between(logger.files, l, i + 1, Cur(), logger.version.Pos())
                && scratch == l.entries[i].Data()
                && Position(filenum, offset) == l.At(i + 1)
      ensures old(Reads(logger.files, l, i, Cur(), logger.version.Pos())) && i == |l.entries| ==>
                s == EndFile && Between(logger.files, l, i, Cur(), logger.version.Pos())
    {
      scratch, filenum, offset := [], curFilenum, curOffset;
      hide ItemAt, LogOk, Near, ItemBytes, FilesAfter, Between, BlockOffsetOk;
      var d := logger.files;
      ghost var pro := logger.version.Pos();
      ghost var known := Reads(d, l, i, Cur(), pro);
      while true
        invariant known ==> Reads(d, l, i, Cur(), pro) && (scratch == [] || curOffset == 0)
        decreases FilesAfter(d, curFilenum)
      {
        var atEnd := ReadToTheEnd();
        ghost var next := Entry(pro, BinlogItem(0, 0, 0, 0, 0, []), 0, 0, 0);
        if known {
          NextStep(d, l, i, Cur(), pro);
          next := if i < |l.entries| then l.entries[i] else next;
        }
        if atEnd {
          return EndFile, scratch, filenum, offset;
        }
        s, scratch := Consume(scratch, next.Data(), next.end);
        if s == EndFile {
          if curFilenum + 1 in d {
            FewerFilesAfter(d, curFilenum);
            curFilenum := curFilenum + 1;
            curOffset, fpos, lastRecordOffset := 0, 0, 0;
          } else {
            return ReadIOError, scratch, filenum, offset;
          }
        } else {
          break;
        }
      }
      if known {
        AfterItem(d, l, i, Cur(), pro);
      }
      return ReadOk, scratch, curFilenum, curOffset;
    }

    /** Passes over one item, or the rest of one, or a padding record; the size is what was passed over. */
    method GetNext() returns (isError: bool, size: nat)
      modifies this`fpos
      ensures PassItem(Content(), old(fpos)) == if isError then None else Some(Passed(size, fpos))
    {
      hide LengthAt, PassItem;
      size := 0;
      ghost var f := Content();
      while true
        invariant PassItem(f, old(fpos)) == After(size, PassItem(f, fpos))
        invariant fpos <= |f| || fpos == old(fpos)
        decreases if fpos <= |f| then |f| - fpos + 1 else 0
      {
        PassRecord(f, fpos);
        var ok, length, t := ReadHeader();
        if !ok {
          return true, size;
        }
        if length > kBlockSize - kHeaderSize {
          return true, size;
        }
        if t in [kFullType, kFirstType, kMiddleType, kLastType, kBadRecord] {
          PassOver(length);
          size := size + kHeaderSize + length;
          if t in [kFullType, kLastType, kBadRecord] {
            return false, size;
          }
        } else {
          return true, size;
        }
      }
    }

    /**
     Opens a file of the log and moves to an offset by scanning from the start of its block. It fails where
     the scan meets something that is no record, and otherwise stands behind the first item whose end is at
     or after the offset. Every published position is reached exactly.
     */
    method Seek(log: Binlog, filenum: nat, offset: nat, ghost i: nat) returns (res: int)
      modifies this
      ensures filenum !in log.files ==> res == -1 && unchanged(this)
      ensures filenum in log.files ==>
                var r := ScanFrom(log.files[filenum], BlockStart(offset), offset - BlockStart(offset));
                && logger == log && hasQueue && curFilenum == filenum && res == (if r.Some? then 0 else -1)
                && (r.Some? ==> curOffset == BlockStart(offset) + r.value.size && fpos == r.value.pos
                                && lastRecordOffset == curOffset % kBlockSize)
                && (r.None? ==> curOffset == offset && lastRecordOffset == filenum % kBlockSize)
      ensures log.Valid() && i <= |log.log.entries| && log.log.At(i) == Position(filenum, offset)
              ==> res == 0 && logger == log && At(i) && Cur().Pos() == Position(filenum, offset)
    {
      hide LogOk, ScanTo, BlockStart, Saved, ScanFrom, Near, Between;
      if log.Valid() && i <= |log.log.entries| {
        PublishedIsReached(log.files, log.log, i);
        StandsBetween(log.files, log.log, i, log.version.Pos());
      }
      if filenum !in log.files {
        return -1;
      }
      logger, hasQueue := log, true;
      curFilenum, curOffset := filenum, offset;
      lastRecordOffset := curFilenum % kBlockSize;
      var startBlock := BlockStart(offset);
      fpos := startBlock;
      var blockOffset := offset - startBlock;
      var found := ScanBlock(startBlock, blockOffset);
      if !found {
        return -1;
      }
      lastRecordOffset := curOffset % kBlockSize;
      return 0;
    }

    /** Passes over items from the start of a block until the offset in the block is reached. */
    method ScanBlock(startBlock: nat, blockOffset: nat) returns (found: bool)
      requires fpos == startBlock
      modifies this`fpos, this`curOffset
      ensures var r := ScanFrom(Content(), startBlock, blockOffset);
              && found == r.Some? && (found ==> curOffset == startBlock + r.value.size && fpos == r.value.pos)
              && (!found ==> curOffset == old(curOffset))
    {
      hide PassItem;
      var res := 0;
      ghost var f := Content();
      while true
        invariant curOffset == old(curOffset)
        invariant res == 0 || res < blockOffset || ScanFrom(f, startBlock, blockOffset) == Some(Passed(res, fpos))
        invariant res <= blockOffset ==> ScanFrom(f, startBlock, blockOffset) == After(res, ScanFrom(f, fpos, blockOffset - res))
        decreases blockOffset - res
      {
        if res >= blockOffset {
          curOffset := startBlock + res;
          return true;
        }
        var isError, ret := GetNext();
        if isError {
          return false;
        }
        res := res + ret;
      }
    }
  }

  // Passing over items

  /** The bytes passed over, and where the file cursor is then. */
  datatype Passed = Passed(size: nat, pos: nat)

  function After(size: nat, r: Option<Passed>): Option<Passed> {
    if r.None? then None else Some(Passed(size + r.value.size, r.value.pos))
  }

  /** The records from p to the first that closes an item or is padding; None if something else comes first. */
  function PassItem(f: seq<Byte>, p: nat): (r: Option<Passed>)
    ensures r.Some? ==> r.value.size >= kHeaderSize
    decreases if p <= |f| then |f| - p else 0
  {
    if p + kHeaderSize > |f| || LengthAt(f, p) > kBlockSize - kHeaderSize then None
    else
      var size, pos := kHeaderSize + LengthAt(f, p), Advance(f, p + kHeaderSize, LengthAt(f, p));
      if f[p + 7] in {kFullType, kLastType, kBadRecord} then Some(Passed(size, pos))
      else if f[p + 7] in {kFirstType, kMiddleType} then After(size, PassItem(f, pos))
      else None
  }

  /** Item after item from p until `left` bytes are passed over. */
  function ScanFrom(f: seq<Byte>, p: nat, left: nat): (r: Option<Passed>)
    ensures r.Some? ==> r.value.size >= left
    decreases left
  {
    if left == 0 then Some(Passed(0, p))
    else
      var r := PassItem(f, p);
      if r.None? || r.value.size >= left then r
      else After(r.value.size, ScanFrom(f, r.value.pos, left - r.value.size))
  }

  /** The first record passed over, by its header. */
  lemma {:induction false} PassRecord(f: seq<Byte>, p: nat)
    ensures p + kHeaderSize > |f| ==> PassItem(f, p) == None
    ensures p + kHeaderSize <= |f| ==>
              var n, t := LengthAt(f, p), f[p + 7];
              var pos := Advance(f, p + kHeaderSize, n);
              && pos > p
              && PassItem(f, p)
                 == if n > kBlockSize - kHeaderSize then None
                    else if t in {kFullType, kLastType, kBadRecord} then Some(Passed(kHeaderSize + n, pos))
                    else if t in {kFirstType, kMiddleType} then After(kHeaderSize + n, PassItem(f, pos))
                    else None
  {
    hide LengthField;
  }

  /** An item, or the rest of one, is passed over as a whole. */
  lemma {:induction false} PassWhole(f: seq<Byte>, p: nat, begin: bool, item: seq<Byte>, e: nat)
    requires Align(p) == p && ItemAt(f, p, begin, item, e)
    ensures p < e && PassItem(f, p) == Some(Passed(e - p, e))
    decreases |f| - p, |item|
  {
    hide ItemAt, Align, FragmentLength, LengthField;
    NextRecord(f, p, begin, item, e);
    var n := FragmentLength(p, |item|);
    if n != |item| {
      PassWhole(f, p + kHeaderSize + n, false, item[n..], e);
    }
  }

  /** Where single closing records lead from p to e, so does the scan. */
  lemma {:induction false} ScanReaches(f: seq<Byte>, p: nat, e: nat)
    requires p <= e && ScanTo(f, p, e)
    ensures ScanFrom(f, p, e - p) == Some(Passed(e - p, e))
    decreases e - p
  {
    hide LengthField;
    if p != e {
      ScanReaches(f, p + kHeaderSize + LengthAt(f, p), e);
    }
  }

  /** A cursor at a published position, with everything about it in step, is between two items. */
  lemma {:induction false} StandsBetween(d: Directory, l: Log, i: nat, pro: Position)
    requires LogOk(d, l) && i <= |l.entries| && Near(d, l.Last(), pro)
    ensures var p := l.At(i); Between(d, l, i, Cursor(p.filenum, p.offset, p.offset % kBlockSize, p.offset), pro)
  {
    hide LogOk;
    PositionsIncrease(d, l, i, |l.entries|);
  }

  lemma {:induction false} PublishedIsReached(d: Directory, l: Log, i: nat)
    requires LogOk(d, l) && i <= |l.entries|
    ensures l.At(i).filenum in d
    ensures var p := l.At(i);
            var n := p.offset - BlockStart(p.offset);
            ScanFrom(d[p.filenum], BlockStart(p.offset), n) == Some(Passed(n, p.offset))
  {
    hide LogOk, ScanTo, BlockStart, ScanFrom;
    PublishedIsScannable(d, l, i);
    ScanReaches(d[l.At(i).filenum], BlockStart(l.At(i).offset), l.At(i).offset);
  }

  /** A seek to anywhere behind the start of an item, up to its end, lands at its end. */
  lemma {:induction false} ScanIntoItem(f: seq<Byte>, p: nat, s: nat, item: seq<Byte>, e: nat, offset: nat)
    requires p <= s < offset <= e && ScanTo(f, p, s) && Align(s) == s && ItemAt(f, s, true, item, e)
    ensures ScanFrom(f, p, offset - p) == Some(Passed(e - p, e))
    decreases s - p
  {
    hide LengthField, Align, ItemAt, PassItem;
    if p == s {
      PassWhole(f, s, true, item, e);
    } else {
      PassRecord(f, p);
      ScanIntoItem(f, p + kHeaderSize + LengthAt(f, p), s, item, e, offset);
    }
  }

  ghost function FilesAfter(d: Directory, n: nat): set<nat> {
    set k | k in d.Keys && k > n
  }

  lemma {:induction false} FewerFilesAfter(d: Directory, n: nat)
    requires n + 1 in d
    ensures FilesAfter(d, n + 1) < FilesAfter(d, n)
  {
    assert n + 1 in d.Keys && n + 1 in FilesAfter(d, n);
  }

  /**
   What can follow a position between the first i items and the rest. Either the next item stands
   there, or the file ends there and the next file, which exists, is where the log goes on.
   */
  lemma {:induction false} NextPosition(d: Directory, l: Log, i: nat, cur: Position, pro: Position)
    requires LogOk(d, l) && i <= |l.entries| && Near(d, l.Last(), pro)
    requires Near(d, l.At(i), cur) && cur.AtMost(pro)
    ensures i < |l.entries| ==>
              var e := l.entries[i];
              && cur != pro && e.End().AtMost(pro) && e.End() == l.At(i + 1)
              && e.filenum in d && ItemAt(d[e.filenum], e.start, true, e.Data(), e.end)
              && (cur == e.Begin() || GoesOn(d, l.At(i), cur, pro))
    ensures i == |l.entries| ==> cur == pro || GoesOn(d, l.At(i), cur, pro)
  {
    hide ItemAt, ItemBytes, EndsAt, ScanTo, BlockStart;
    PositionExists(d, l, i);
    PositionsIncrease(d, l, i, |l.entries|);
    if i < |l.entries| {
      assert EntryInPlace(d, l, i);
      var e := l.entries[i];
      ItemBounds(d[e.filenum], e.start, true, e.Data(), e.end);
      PositionsIncrease(d, l, i + 1, |l.entries|);
      ItemGoesOn(d[e.filenum], e.Begin(), e.Data(), e.end);
    }
  }

  /** The file of `cur` ends there; the start of the next file, which exists, is as good a place. */
  ghost predicate GoesOn(d: Directory, last: Position, cur: Position, pro: Position) {
    var next := Position(cur.filenum + 1, 0);
    && cur.filenum in d && EndsAt(d[cur.filenum], cur)
    && next.filenum in d && Near(d, last, next) && next.AtMost(pro)
  }

  /** The next item stands at the cursor, or the file ends there and the log goes on in the next. */
  lemma {:induction false} NextStep(d: Directory, l: Log, i: nat, c: Cursor, pro: Position)
    requires LogOk(d, l) && Near(d, l.Last(), pro) && Between(d, l, i, c, pro)
    ensures i <= |l.entries| && c.Settled()
    ensures i < |l.entries| ==>
              && c.Pos() != pro && |l.entries[i].Data()| > 0
              && (AtItem(d, l.entries[i], c) || AtFileEnd(d, l, i, c, pro))
    ensures i == |l.entries| ==> c.Pos() == pro || AtFileEnd(d, l, i, c, pro)
  {
    hide LogOk, Near, ItemAt, Fades, ItemBytes;
    NextPosition(d, l, i, c.Pos(), pro);
    if c.filenum in d {
      SettledReads(d[c.filenum], c);
    }
  }

  ghost predicate AtItem(d: Directory, e: Entry, c: Cursor) {
    && c.Pos() == e.Begin() && e.filenum in d
    && ItemAt(d[e.filenum], e.start, true, e.Data(), e.end)
  }

  /** At the end of an item the reader stands between one item more and the rest. */
  lemma {:induction false} AfterItem(d: Directory, l: Log, i: nat, c: Cursor, pro: Position)
    requires LogOk(d, l) && Near(d, l.Last(), pro)
    requires i < |l.entries| && c.Settled() && c.Pos() == l.entries[i].End()
    ensures Between(d, l, i + 1, c, pro)
  {
    PositionsIncrease(d, l, i + 1, |l.entries|);
  }

  /** The file of c has nothing more for the reader, which may go on at the start of the next one. */
  ghost predicate AtFileEnd(d: Directory, l: Log, i: nat, c: Cursor, pro: Position) {
    && c.filenum in d && Fades(d[c.filenum], c) && c.filenum + 1 in d
    && Between(d, l, i, Cursor(c.filenum + 1, 0, 0, 0), pro)
  }

  lemma {:induction false} FileStart()
    ensures Space(0) != kHeaderSize
  {
  }
}
