/**
 Whole runs of the log: what is put is what is read back, also after the log has been cut back, set
 anew behind padding, or reopened after a crash; and how the positions chain the items together.
 */
module BinlogRuns {
  import opened Bytes
  import opened BinlogFormat
  import opened BinlogCursor
  import opened BinlogTransverter
  import opened Wrappers
  import opened BinlogLog
  import opened BinlogWriter
  import opened BinlogReader

  /** The encoded items that carry the given contents, in order and nothing else. */
  predicate Carries(out: seq<seq<Byte>>, contents: seq<seq<Byte>>) {
    && |out| == |contents|
    && forall k | 0 <= k < |out| :: ContentOf(out[k]) == Some(contents[k])
  }

  function ContentOf(data: seq<Byte>): Option<seq<Byte>> {
    if |data| < BINLOG_ITEM_HEADER_SIZE then None else Some(data[BINLOG_ITEM_HEADER_SIZE..])
  }

  function Data(es: seq<Entry>): (s: seq<seq<Byte>>)
    ensures |s| == |es|
  {
    seq(|es|, k requires 0 <= k < |es| => es[k].Data())
  }

  function Ends(es: seq<Entry>): (s: seq<Position>)
    ensures |s| == |es|
  {
    seq(|es|, k requires 0 <= k < |es| => es[k].End())
  }

  function Contents(es: seq<Entry>): (s: seq<seq<Byte>>)
    ensures |s| == |es|
  {
    seq(|es|, k requires 0 <= k < |es| => es[k].item.content)
  }

  lemma {:induction false} EntriesCarryContents(es: seq<Entry>)
    ensures Carries(Data(es), Contents(es))
  {
    forall k | 0 <= k < |es|
      ensures ContentOf(es[k].Data()) == Some(es[k].item.content)
    {
      var h := HeaderBytes(TypeFirst, es[k].item, |es[k].item.content| % TWO_32);
      assert (h + es[k].item.content)[|h|..] == es[k].item.content;
    }
  }

  predicate SetBy(e: Entry, now: nat, term: nat) {
    e.item.execTime == now && e.item.termId == term
  }

  /** When an item is put: the time in its header, and the clock of its records. */
  datatype Moment = Moment(now: nat, clock: Clock)

  method PutAll(b: Binlog, contents: seq<seq<Byte>>, moments: seq<Moment>)
    requires b.Valid() && b.ZeroTail() && |moments| == |contents|
    modifies b
    ensures b.Valid() && b.ZeroTail() && (old(b.ContiguousLog()) ==> b.ContiguousLog())
    ensures b.log.base == old(b.log.base) && b.log.logicBase == old(b.log.logicBase)
    ensures |b.log.entries| == |old(b.log.entries)| + |contents|
    ensures b.log.entries[..|old(b.log.entries)|] == old(b.log.entries)
    ensures Contents(b.log.entries[|old(b.log.entries)|..]) == contents
    ensures b.version.term == old(b.version.term)
    ensures forall k | 0 <= k < |contents| ::
              SetBy(b.log.entries[|old(b.log.entries)| + k], moments[k].now, b.version.term)
  {
    hide LogOk, Contiguous, Near, Saved, BlockOffsetOk, EndsAt;
    ghost var n := |b.log.entries|;
    for k := 0 to |contents|
      invariant b.Valid() && b.ZeroTail() && (old(b.ContiguousLog()) ==> b.ContiguousLog())
      invariant b.log.base == old(b.log.base) && b.log.logicBase == old(b.log.logicBase)
      invariant |b.log.entries| == n + k && b.log.entries[..n] == old(b.log.entries)
      invariant Contents(b.log.entries[n..]) == contents[..k]
      invariant b.version.term == old(b.version.term)
      invariant forall j | 0 <= j < k :: SetBy(b.log.entries[n + j], moments[j].now, b.version.term)
    {
      ghost var es := b.log.entries;
      ZerosFade(b.files[b.proNum], Position(b.proNum, b.wpos));
      var _ := b.Put(contents[k], moments[k].now, moments[k].clock);
      assert b.log.entries[n..] == es[n..] + b.log.entries[n + k..];
    }
    assert contents[..|contents|] == contents;
  }

  /** Reads until the reader has caught up. */
  method GetAll(r: PikaBinlogReader, ghost i: nat)
    returns (out: seq<seq<Byte>>, positions: seq<Position>)
    requires r.At(i)
    modifies r
    ensures r.logger == old(r.logger) && r.At(|r.logger.log.entries|)
    ensures out == Data(r.logger.log.entries[i..]) && positions == Ends(r.logger.log.entries[i..])
  {
    hide LogOk, Near, Saved, BlockOffsetOk, Between;
    out, positions := [], [];
    ghost var es := r.logger.log.entries;
    ghost var k := i;
    while true
      invariant r.logger == old(r.logger) && i <= k <= |es| && r.At(k)
      invariant out == Data(es[i..k]) && positions == Ends(es[i..k])
      decreases |es| - k
    {
      var s, item, filenum, offset := r.Get(k);
      if s != ReadOk {
        assert es[i..k] == es[i..];
        return;
      }
      assert es[i..k + 1] == es[i..k] + [es[k]];
      out := out + [item];
      positions := positions + [Position(filenum, offset)];
      k := k + 1;
    }
  }

  /** Seeking to a published position and reading on gives exactly the items put after it. */
  method ReadFrom(b: Binlog, filenum: nat, offset: nat, ghost i: nat)
    returns (out: seq<seq<Byte>>, positions: seq<Position>)
    requires b.Valid() && i <= |b.log.entries| && b.log.At(i) == Position(filenum, offset)
    ensures out == Data(b.log.entries[i..]) && positions == Ends(b.log.entries[i..])
  {
    hide LogOk, Near, Saved, BlockOffsetOk, Between;
    var r := new PikaBinlogReader(filenum, offset);
    var _ := r.Seek(b, filenum, offset, i);
    out, positions := GetAll(r, i);
  }

  /** The header of an encoded item names position p and the given logic id, both within their widths. */
  predicate StampedWith(data: seq<Byte>, p: Position, logicId: nat) {
    && BINLOG_ITEM_HEADER_SIZE <= |data|
    && var h := DecodedHeader(data);
       h.filenum == p.filenum && h.offset == p.offset && h.logicId == logicId
  }

  predicate WithinWidths(p: Position, logicId: nat) {
    p.filenum < TWO_32 && p.offset < TWO_64 && logicId < TWO_64
  }

  /**
   The position chain: the position reported for an item is the one stamped in the header of the
   next, positions strictly increase and logic ids are consecutive, also across file rolls.
   */
  lemma {:induction false} PositionChain(d: Directory, l: Log, i: nat)
    requires LogOk(d, l) && Contiguous(l) && i < |l.entries|
    requires FieldsFit(l.entries[i].item)
    ensures StampedWith(l.entries[i].Data(), l.At(i), l.logicBase + i + 1)
    ensures l.At(i).Less(l.At(i + 1))
  {
    assert EntryInPlace(d, l, i) && StampedInPlace(l, i);
    var item := l.entries[i].item;
    HeaderReadsBack(TypeFirst, item, |item.content| % TWO_32, item.content);
    PositionsIncrease(d, l, i, i + 1);
  }

  /** What a crash leaves is the published log, whatever stands after the published position. */
  lemma {:induction false} CrashRecovers(d: Directory, d': Directory, l: Log, v: Version)
    requires LogOk(d, l) && Near(d, l.Last(), v.Pos()) && SameUpTo(d, d', v.Pos()) && v.Fits()
    ensures Loaded(Saved(v)) == v
    ensures LogOk(d', l) && Near(d', l.Last(), v.Pos())
  {
    ManifestRoundTrip(v);
    LogFrame(d, d', l, v.Pos());
  }

  /** Everything put is read back in order, whatever the file size limit and the times. */
  method WriteThenRead(contents: seq<seq<Byte>>, moments: seq<Moment>, dir: Directory, fileSize: nat)
    returns (out: seq<seq<Byte>>, positions: seq<Position>)
    requires |moments| == |contents| && forall k | 0 <= k < |moments| :: moments[k].now < TWO_32
    ensures Carries(out, contents) && |positions| == |contents|
    ensures forall k | 0 <= k < |out| - 1 :: positions[k].Less(positions[k + 1])
    ensures forall k | 0 <= k < |out| - 1 ::
              WithinWidths(positions[k], k + 2) ==> StampedWith(out[k + 1], positions[k], k + 2)
  {
    hide LogOk, Contiguous, Near, Saved, BlockOffsetOk, Carries, StampedWith, WithinWidths, ZerosFrom;
    var b := new Binlog.Create(dir, fileSize);
    PutAll(b, contents, moments);
    out, positions := ReadFrom(b, 0, 0, 0);
    ghost var l := b.log;
    assert l.entries[0..] == l.entries;
    EntriesCarryContents(l.entries);
    ChainedRun(b.files, l, moments, out, positions);
  }

  lemma {:induction false} ChainedRun(d: Directory, l: Log, moments: seq<Moment>, out: seq<seq<Byte>>, positions: seq<Position>)
    requires LogOk(d, l) && Contiguous(l) && l.logicBase == 0 && |moments| == |l.entries|
    requires forall k | 0 <= k < |moments| :: moments[k].now < TWO_32
    requires out == Data(l.entries) && positions == Ends(l.entries)
    requires forall k | 0 <= k < |l.entries| :: SetBy(l.entries[k], moments[k].now, 0)
    ensures forall k | 0 <= k < |out| - 1 :: positions[k].Less(positions[k + 1])
    ensures forall k | 0 <= k < |out| - 1 ::
              WithinWidths(positions[k], k + 2) ==> StampedWith(out[k + 1], positions[k], k + 2)
  {
    forall k | 0 <= k < |out| - 1
      ensures positions[k].Less(positions[k + 1])
      ensures WithinWidths(positions[k], k + 2) ==> StampedWith(out[k + 1], positions[k], k + 2)
    {
      assert l.At(k + 1) == positions[k] && l.At(k + 2) == positions[k + 1];
      PositionsIncrease(d, l, k + 1, k + 2);
      if WithinWidths(positions[k], k + 2) {
        assert SetBy(l.entries[k + 1], moments[k + 1].now, 0);
        assert EntryInPlace(d, l, k + 1) && StampedInPlace(l, k + 1);
        PositionChain(d, l, k + 1);
      }
    }
  }

  /** Cutting the log back to a published position and going on leaves a prefix and what was put since. */
  method TruncateThenRead(first: seq<seq<Byte>>, before: seq<Moment>, i: nat, second: seq<seq<Byte>>, after: seq<Moment>,
                          dir: Directory, fileSize: nat)
    returns (out: seq<seq<Byte>>)
    requires i <= |first| && |before| == |first| && |after| == |second|
    ensures Carries(out, first[..i] + second)
  {
    hide LogOk, Contiguous, Near, Saved, BlockOffsetOk, Carries;
    var b := new Binlog.Create(dir, fileSize);
    PutAll(b, first, before);
    var _, positions := ReadFrom(b, 0, 0, 0);
    ghost var l := b.log;
    assert l.entries[0..] == l.entries;
    var p := if i == 0 then Position(0, 0) else positions[i - 1];
    var _ := b.Truncate(p.filenum, p.offset, i, i);
    PutAll(b, second, after);
    out, positions := ReadFrom(b, 0, 0, 0);
    EntriesCarryContents(b.log.entries);
    assert b.log.entries[0..] == b.log.entries;
    assert Contents(b.log.entries) == first[..i] + second by {
      ContentsSplit(b.log.entries, i);
      ContentsSplit(l.entries, i);
    }
  }

  lemma {:induction false} ContentsSplit(es: seq<Entry>, i: nat)
    requires i <= |es|
    ensures Contents(es[..i]) == Contents(es)[..i]
    ensures Contents(es) == Contents(es[..i]) + Contents(es[i..])
  {
  }

  /** Behind the padding of a new producer position exactly the items put since are read. */
  method PadThenRead(before: seq<seq<Byte>>, num: nat, offset: nat, term: nat, index: nat, contents: seq<seq<Byte>>,
                     moments: seq<Moment>, later: seq<Moment>, now: nat, dir: Directory, fileSize: nat)
    returns (out: seq<seq<Byte>>)
    requires !(4 <= offset < kHeaderSize) && |moments| == |before| && |later| == |contents|
    ensures Carries(out, contents)
  {
    hide LogOk, Contiguous, Near, Saved, BlockOffsetOk, Carries, Padded, PaddedLength;
    var b := new Binlog.Create(dir, fileSize);
    PutAll(b, before, moments);
    var _ := b.SetProducerStatus(num, offset, term, index, now);
    var _, v := b.GetProducerStatus();
    PutAll(b, contents, later);
    var positions;
    out, positions := ReadFrom(b, v.proNum, v.proOffset, 0);
    EntriesCarryContents(b.log.entries);
    assert b.log.entries[0..] == b.log.entries;
  }

  /** After a request for four to seven bytes a seek to the stored offset misses the first item of the file. */
  lemma {:induction false} ShortPadSkips(f: seq<Byte>, item: seq<Byte>, e: nat, offset: nat)
    requires 4 <= offset < kHeaderSize && ItemAt(f, 0, true, item, e)
    ensures BlockStart(PaddedLength(offset)) == 0 && ScanFrom(f, 0, PaddedLength(offset)) == Some(Passed(e, e))
  {
    hide ItemAt, PassItem;
    PassWhole(f, 0, true, item, e);
    ScanIntoItem(f, 0, 0, item, e, offset);
  }

  // Crashes

  /** The files after a crash: other bytes after the saved position of the open file, and any file after it. */
  function Wrecked(d: Directory, p: Position, wreck: seq<Byte>, next: seq<Byte>): Directory
    requires p.filenum in d && p.offset <= |d[p.filenum]|
  {
    d[p.filenum := d[p.filenum][..p.offset] + wreck][p.filenum + 1 := next]
  }

  lemma {:induction false} WreckKeeps(d: Directory, p: Position, wreck: seq<Byte>, next: seq<Byte>)
    requires p.filenum in d && p.offset <= |d[p.filenum]|
    ensures SameUpTo(d, Wrecked(d, p, wreck, next), p)
  {
    var f := d[p.filenum][..p.offset];
    assert (f + wreck)[..p.offset] == f;
  }

  /** Puts until a roll would leave something for the reader in the old file; says whether none did. */
  method PutWhileClean(b: Binlog, contents: seq<seq<Byte>>, moments: seq<Moment>) returns (clean: bool)
    requires b.Valid() && |moments| == |contents|
    modifies b
    ensures old(b.ZeroTail()) ==> clean
    ensures |contents| == 1 ==> (clean <==> old(b.RollsClean()))
    ensures clean ==> b.Valid() && b.log.base == old(b.log.base)
    ensures clean ==> |b.log.entries| == |old(b.log.entries)| + |contents|
    ensures clean ==> b.log.entries[..|old(b.log.entries)|] == old(b.log.entries)
    ensures clean ==> Contents(b.log.entries[|old(b.log.entries)|..]) == contents
  {
    hide LogOk, Contiguous, Near, Saved, BlockOffsetOk, EndsAt, ZerosFrom;
    ghost var n := |b.log.entries|;
    for k := 0 to |contents|
      invariant b.Valid() && (old(b.ZeroTail()) ==> b.ZeroTail()) && (k == 0 ==> b.RollsClean() == old(b.RollsClean()))
      invariant k > 0 ==> |contents| > 1 || old(b.RollsClean())
      invariant b.log.base == old(b.log.base)
      invariant |b.log.entries| == n + k && b.log.entries[..n] == old(b.log.entries)
      invariant Contents(b.log.entries[n..]) == contents[..k]
    {
      ghost var es := b.log.entries;
      if old(b.ZeroTail()) {
        ZeroTailEnds(b.files[b.proNum], Position(b.proNum, b.wpos));
      }
      if !b.RollsClean() {
        return false;
      }
      var _ := b.Put(contents[k], moments[k].now, moments[k].clock);
      assert b.log.entries[n..] == es[n..] + b.log.entries[n + k..];
    }
    assert contents[..|contents|] == contents;
    return true;
  }

  lemma {:induction false} ZeroTailEnds(f: seq<Byte>, p: Position)
    requires p.offset <= |f| && ZerosFrom(f, p.offset)
    ensures EndsAt(f, p)
  {
    ZerosFade(f, p);
  }

  /**
   Items are put, a crash leaves any bytes after the saved position, the log is opened again and more items
   are put. Everything is read back if no later roll leaves something for the reader in an old file. That is
   so if the crash leaves only zeros; for one more item it is so exactly if the item is put in the same file,
   or that file ends at the saved position for the reader.
   */
  method CrashThenRead(first: seq<seq<Byte>>, before: seq<Moment>, wreck: seq<Byte>, next: seq<Byte>,
                       second: seq<seq<Byte>>, after: seq<Moment>, dir: Directory, fileSize: nat)
    returns (clean: bool, out: seq<seq<Byte>>, saved: Position, files: Directory)
    requires |before| == |first| && |after| == |second|
    ensures saved.filenum in files && saved.offset <= |files[saved.filenum]| && files[saved.filenum][saved.offset..] == wreck
    ensures WithinWidths(saved, |first|) ==>
              && (clean ==> Carries(out, first + second))
              && (ZerosFrom(wreck, 0) ==> clean)
              && (|second| == 1 ==> (clean <==> saved.offset <= fileSize || EndsAt(files[saved.filenum], saved)))
  {
    hide LogOk, Contiguous, Near, Saved, BlockOffsetOk, Carries, EndsAt, SameUpTo;
    var b := new Binlog.Create(dir, fileSize);
    PutAll(b, first, before);
    saved := Position(b.version.proNum, b.version.proOffset);
    files := Wrecked(b.files, saved, wreck, next);
    WreckKeeps(b.files, saved, wreck, next);
    clean, out := false, [];
    if !WithinWidths(saved, |first|) {
      return;
    }
    assert b.version.Fits();
    CrashRecovers(b.files, files, b.log, b.version);
    assert files[saved.filenum][saved.offset..] == wreck;
    var c := new Binlog.Open(files, b.manifest, fileSize, b.log);
    clean := PutWhileClean(c, second, after);
    if clean {
      var positions;
      out, positions := ReadFrom(c, 0, 0, 0);
      EntriesCarryContents(c.log.entries);
      assert c.log.entries[0..] == c.log.entries;
      ContentsSplit(c.log.entries, |first|);
      assert b.log.entries[0..] == b.log.entries;
    }
  }
}
