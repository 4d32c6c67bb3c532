/**
 The producer: `Binlog` cuts items into physical records, rolls files, publishes its position, and can
 be set back by truncation or set anew behind padding.
 */
module BinlogWriter {
  import opened Bytes
  import opened BinlogFormat
  import opened BinlogCursor
  import opened BinlogTransverter
  import opened BinlogLog

  datatype Status = Ok | Busy | IOError

  /** The producer position and counters that the manifest keeps. */
  datatype Version = Version(proNum: nat, proOffset: nat, logicId: nat, term: nat) {
    function Pos(): Position {
      Position(proNum, proOffset)
    }

    predicate Fits() {
      proNum < TWO_32 && proOffset < TWO_64 && logicId < TWO_64 && term < TWO_32
    }
  }

  function Saved(v: Version): (s: seq<Byte>)
    ensures |s| == 24
  {
    Fixed(v.proNum, 4) + Fixed(v.proOffset, 8) + Fixed(v.logicId, 8) + Fixed(v.term, 4)
  }

  function Loaded(s: seq<Byte>): Version
    requires 24 <= |s|
  {
    Version(Value(s[0..4]), Value(s[4..12]), Value(s[12..20]), Value(s[20..24]))
  }

  /** The manifest gives back the version that was saved. */
  lemma {:induction false} ManifestRoundTrip(v: Version)
    requires v.Fits()
    ensures Loaded(Saved(v)) == v
  {
    var s := Saved(v);
    assert s[0..4] == Fixed(v.proNum, 4);
    assert s[4..12] == Fixed(v.proOffset, 8);
    assert s[12..20] == Fixed(v.logicId, 8);
    assert s[20..24] == Fixed(v.term, 4);
    assert Pow256(4) == TWO_32 && Pow256(8) == TWO_64 by {
      assert Pow256(4) == 256 * (256 * Pow256(2)) && Pow256(2) == 256 * Pow256(1);
      assert Pow256(8) == 256 * (256 * Pow256(6)) && Pow256(6) == 256 * (256 * Pow256(4));
    }
    FixedValue(v.proNum, 4);
    FixedValue(v.proOffset, 8);
    FixedValue(v.logicId, 8);
    FixedValue(v.term, 4);
  }

  /** A file after data is written at p over whatever stood there. */
  function Overwritten(f: seq<Byte>, p: nat, data: seq<Byte>): (g: seq<Byte>)
    requires p <= |f|
    ensures p + |data| <= |g| && g[..p + |data|] == f[..p] + data
    ensures |f| <= |g| && forall i | p + |data| <= i < |g| :: i < |f| && g[i] == f[i]
  {
    f[..p] + data + (if p + |data| <= |f| then f[p + |data|..] else [])
  }

  /** A file after space is set aside up to n; a file that is longer stays as it is. */
  function Extended(f: seq<Byte>, n: nat): (g: seq<Byte>)
    ensures |f| <= |g| && n <= |g| && g[..|f|] == f
    ensures forall i | |f| <= i < |g| :: g[i] == 0
  {
    if n <= |f| then f else f + Zeros(n - |f|)
  }

  /** From p on there are only zeros. */
  predicate ZerosFrom(f: seq<Byte>, p: nat) {
    forall i | p <= i < |f| :: f[i] == 0
  }

  /** A file after its length is set to n; a longer length is filled with zeros. */
  function Resized(f: seq<Byte>, n: nat): (g: seq<Byte>)
    ensures |g| == n
  {
    if n <= |f| then f[..n] else f + Zeros(n - |f|)
  }

  /** The offset that padding really reaches when `len` bytes of it are asked for. */
  function PaddedLength(len: nat): nat {
    if len < 4 then 0
    else if len < kHeaderSize then len
    else if 0 < len % kBlockSize < kHeaderSize then BlockStart(len)
    else len
  }

  lemma {:induction false} ChosenLength(len: nat)
    ensures PaddedLength(if len < 4 then 0 else len) == PaddedLength(len)
    ensures len < kHeaderSize ==> PaddedLength(len) == if len < 4 then 0 else len
  {
  }

  lemma {:induction false} PaddedLengthReached(len: nat, w: nat)
    requires kHeaderSize <= len && w <= len < w + kHeaderSize
    requires w == len ==> w % kBlockSize == 0 || w % kBlockSize >= kHeaderSize
    requires w < len ==> w % kBlockSize == 0
    ensures w == PaddedLength(len)
  {
  }

  /** The block at s of a padded file is one kBadRecord that fills it, or fills the file. */
  ghost predicate PaddedBlock(f: seq<Byte>, s: nat) {
    && s + kHeaderSize <= |f|
    && RecordAt(f, s, kBadRecord, Repeat(42, (if |f| - s < kBlockSize then |f| - s else kBlockSize) - kHeaderSize))
  }

  ghost predicate Padded(f: seq<Byte>) {
    forall s: nat | s < |f| && s % kBlockSize == 0 :: PaddedBlock(f, s)
  }

  lemma {:induction false} PadOffset(w: nat, size: nat)
    requires w % kBlockSize == 0 && size <= kBlockSize
    ensures (w + size) % kBlockSize == if size == kBlockSize then 0 else size
  {
  }

  lemma {:induction false} NothingIsPadded(f: seq<Byte>)
    requires |f| == 0
    ensures Padded(f)
  {
  }

  class Binlog {
    const fileSize: nat
    var isOpen: bool
    var files: Directory
    // queue_: the file proNum, open for writing at wpos
    var hasQueue: bool
    var wpos: nat
    // the end of what is mapped of it; wpos while nothing is
    var mapEnd: nat
    var proNum: nat
    var blockOffset: nat
    var version: Version
    var manifest: seq<Byte>
    // what has been published
    ghost var log: Log

    ghost predicate FileOpen()
      reads this
    {
      hasQueue && proNum in files && wpos <= mapEnd <= |files[proNum]|
    }

    ghost predicate QueueOk()
      reads this
    {
      FileOpen() && BlockOffsetOk(blockOffset, wpos)
    }

    /** The producer's position is the end of what was written, and it is saved. */
    ghost predicate Standing()
      reads this
    {
      QueueOk() && version.Pos() == Position(proNum, wpos) && manifest == Saved(version)
    }

    /** After the write position the open file holds nothing but zeros. */
    ghost predicate ZeroTail()
      reads this
    {
      FileOpen() && ZerosFrom(files[proNum], wpos)
    }

    /**
     The next Put does not roll, or it cuts the old file when it closes it, or that file ends there for
     the reader anyway. A file is cut only if something was appended since it was opened and the mapping
     goes beyond it.
     */
    predicate RollsClean()
      requires proNum in files
      reads this
    {
      wpos <= fileSize || wpos < mapEnd || EndsAt(files[proNum], Position(proNum, wpos))
    }

    ghost predicate Valid()
      reads this
    {
      && isOpen && Standing()
      && LogOk(files, log) && Near(files, log.Last(), version.Pos())
      && version.logicId == log.logicBase + |log.entries|
    }

    /** The producer stands where the last item ended and every item was stamped that way. */
    ghost predicate ContiguousLog()
      reads this
    {
      Contiguous(log) && version.Pos() == log.Last()
    }

    /** What has been written of the open file. */
    ghost function Written(): seq<Byte>
      requires FileOpen()
      reads this
    {
      files[proNum][..wpos]
    }

    /** A directory without a manifest: file 0 is started afresh. */
    constructor Create(dir: Directory, fileSize: nat)
      ensures Valid() && ContiguousLog() && ZeroTail() && this.fileSize == fileSize
      ensures log == Log(Position(0, 0), 0, []) && version == Version(0, 0, 0, 0)
      ensures files == dir[0 := []]
    {
      this.fileSize := fileSize;
      isOpen, hasQueue := true, true;
      files, wpos, mapEnd, proNum, blockOffset := dir[0 := []], 0, 0, 0, 0;
      version := Version(0, 0, 0, 0);
      manifest := Saved(Version(0, 0, 0, 0));
      log := Log(Position(0, 0), 0, []);
    }

    /**
     A directory with a manifest: writing resumes at the saved position of the saved file. Whatever
     a crash left behind that position, and any file it had only just created, is ignored.
     */
    constructor Open(dir: Directory, manifest: seq<Byte>, fileSize: nat, ghost published: Log)
      requires 24 <= |manifest|
      requires var v := Loaded(manifest); v.proNum in dir && v.proOffset <= |dir[v.proNum]|
      ensures version == Loaded(manifest) && files == dir && this.fileSize == fileSize && log == published
      ensures isOpen && FileOpen() && proNum == version.proNum && wpos == mapEnd == version.proOffset
      ensures LogOk(dir, published) && Near(dir, published.Last(), version.Pos())
              && version.logicId == published.logicBase + |published.entries|
              && manifest == Saved(Loaded(manifest))
              ==> Valid()
      ensures LogOk(dir, published) && Contiguous(published) && version.Pos() == published.Last() ==> ContiguousLog()
    {
      this.fileSize := fileSize;
      isOpen, hasQueue := true, true;
      var v := Loaded(manifest);
      files, version, this.manifest := dir, v, manifest;
      proNum, wpos, mapEnd := v.proNum, v.proOffset, v.proOffset;
      blockOffset := v.proOffset % kBlockSize;
      log := published;
    }

    method InitLogFile()
      modifies this`blockOffset, this`isOpen
      ensures isOpen && blockOffset == wpos % kBlockSize
      ensures FileOpen() ==> QueueOk() && kBlockSize - blockOffset == Space(wpos)
    {
      blockOffset := wpos % kBlockSize;
      isOpen := true;
    }

    method StableSave()
      modifies this`manifest
      ensures manifest == Saved(version)
      ensures version.Fits() ==> Loaded(manifest) == version
    {
      hide Saved, Loaded;
      if version.Fits() {
        ManifestRoundTrip(version);
      }
      manifest := Saved(version);
    }

    /** Appending copies the data at the write position; what is mapped ahead is set aside as zeros. */
    method Append(data: seq<Byte>)
      requires FileOpen()
      modifies this`files, this`wpos, this`mapEnd
      ensures FileOpen() && wpos == old(wpos) + |data|
      ensures files == old(files)[proNum := files[proNum]]
      ensures Written() == old(Written()) + data
      ensures old(ZeroTail()) ==> ZeroTail()
    {
      if |data| == 0 {
        return;
      }
      var more: nat :| more >= 0;
      var n := wpos + |data|;
      var f := Overwritten(files[proNum], wpos, data);
      mapEnd := (if mapEnd < n then n else mapEnd) + more;
      files := files[proNum := Extended(f, mapEnd)];
      assert files[proNum][..n] == files[proNum][..|f|][..n];
      wpos := n;
    }

    /** Closing the open file cuts it off at the write position if more than that is mapped. */
    method CloseQueue()
      requires hasQueue ==> FileOpen()
      modifies this`files, this`hasQueue
      ensures !hasQueue
      ensures files == if old(hasQueue) && wpos < mapEnd then old(files)[proNum := old(files[proNum][..wpos])] else old(files)
    {
      if hasQueue && wpos < mapEnd {
        files := files[proNum := files[proNum][..wpos]];
      }
      hasQueue := false;
    }

    /** One physical record; the asserts of the source are the precondition. */
    method EmitPhysicalRecord(t: Byte, fragment: seq<Byte>, now: nat, tempProOffset: nat) returns (offset: nat)
      requires QueueOk() && |fragment| <= 0xffffff
      requires blockOffset + kHeaderSize + |fragment| <= kBlockSize
      modifies this`files, this`wpos, this`mapEnd, this`blockOffset
      ensures QueueOk() && files == old(files)[proNum := files[proNum]]
      ensures Written() == old(Written()) + (Header(|fragment|, now, t) + fragment)
      ensures blockOffset == old(blockOffset) + kHeaderSize + |fragment|
      ensures offset == tempProOffset + kHeaderSize + |fragment|
      ensures wpos == old(wpos) + kHeaderSize + |fragment|
      ensures old(ZeroTail()) ==> ZeroTail()
    {
      hide Header, BlockOffsetOk;
      BlockAdvances(blockOffset, wpos, kHeaderSize + |fragment|);
      var buf := Header(|fragment|, now, t);
      Append(buf);
      Append(fragment);
      ConcatAssociative(old(Written()), buf, fragment);
      blockOffset := blockOffset + kHeaderSize + |fragment|;
      offset := tempProOffset + kHeaderSize + |fragment|;
    }

    /** Writes the layout of the item at the write position, one record at a time. */
    method Produce(item: seq<Byte>, clock: Clock) returns (tempProOffset: nat)
      requires QueueOk() && version.proOffset == wpos
      modifies this`files, this`wpos, this`mapEnd, this`blockOffset
      ensures QueueOk() && files == old(files)[proNum := files[proNum]]
      ensures Written() == old(Written()) + Layout(clock, old(wpos), true, item)
      ensures tempProOffset == wpos
      ensures old(ZeroTail()) ==> ZeroTail()
    {
      hide Layout, Fragment, FragmentLength, Align, Space, Zeros;
      var left, begin := item, true;
      tempProOffset := version.proOffset;
      ghost var target := old(Written()) + Layout(clock, wpos, true, item);
      while begin || |left| > 0
        invariant QueueOk() && files == old(files)[proNum := files[proNum]]
        invariant tempProOffset == wpos && (old(ZeroTail()) ==> ZeroTail())
        invariant Written() + Pending(clock, wpos, begin, left) == target
        invariant !begin && |left| > 0 ==> wpos % kBlockSize == 0
        decreases |left|, begin
      {
        LayoutStep(Written(), clock, wpos, begin, left, target);
        tempProOffset, left := ProduceOne(left, begin, clock, tempProOffset);
        begin := false;
      }
    }

    /** Fills a trailer too short for a header with zeros. */
    method SkipTrailer(tempProOffset: nat) returns (offset: nat)
      requires QueueOk() && tempProOffset == wpos
      modifies this`files, this`wpos, this`mapEnd, this`blockOffset
      ensures QueueOk() && files == old(files)[proNum := files[proNum]] && offset == wpos
      ensures wpos == Align(old(wpos)) && kBlockSize - blockOffset == Space(wpos)
      ensures Written() == old(Written()) + Zeros(wpos - old(wpos))
      ensures old(ZeroTail()) ==> ZeroTail()
    {
      offset := tempProOffset;
      var leftover := kBlockSize - blockOffset;
      if leftover < kHeaderSize {
        if leftover > 0 {
          Append(Zeros(leftover));
          offset := offset + leftover;
        }
        blockOffset := 0;
      }
    }

    /** One round of the loop of Produce: the trailer if needed, then one record. */
    method ProduceOne(left: seq<Byte>, begin: bool, clock: Clock, tempProOffset: nat)
      returns (offset: nat, rest: seq<Byte>)
      requires QueueOk() && tempProOffset == wpos
      modifies this`files, this`wpos, this`mapEnd, this`blockOffset
      ensures QueueOk() && files == old(files)[proNum := files[proNum]] && offset == wpos
      ensures rest == left[FragmentLength(Align(old(wpos)), |left|)..]
      ensures wpos == old(wpos) + |Fragment(clock, old(wpos), begin, left)|
      ensures Written() == old(Written()) + Fragment(clock, old(wpos), begin, left)
      ensures old(ZeroTail()) ==> ZeroTail()
    {
      offset := SkipTrailer(tempProOffset);
      ghost var q, w := wpos, Written();
      var avail := kBlockSize - blockOffset - kHeaderSize;
      var fragmentLength := if |left| < avail then |left| else avail;
      assert fragmentLength == FragmentLength(q, |left|);
      var end := |left| == fragmentLength;
      var t := RecordType(begin, end);
      offset := EmitPhysicalRecord(t, left[..fragmentLength], clock(wpos), offset);
      rest := left[fragmentLength..];
      FragmentParts(old(Written()), w, clock, old(wpos), begin, left, q, fragmentLength);
    }

    /** Rolls to a new file when the open one is longer than the limit, then writes and publishes. */
    method PutData(data: seq<Byte>, clock: Clock) returns (s: Status, ghost start: Position)
      requires QueueOk() && isOpen && version.Pos() == Position(proNum, wpos)
      modifies this`files, this`wpos, this`mapEnd, this`blockOffset, this`proNum, this`version, this`manifest, this`hasQueue, this`isOpen
      ensures s == Ok && QueueOk() && isOpen && manifest == Saved(version)
      ensures version == Version(proNum, wpos, old(version.logicId) + 1, old(version.term))
      ensures start == if old(wpos) > fileSize then Position(old(proNum) + 1, 0) else Position(old(proNum), old(wpos))
      ensures proNum == start.filenum && ItemAt(files[proNum], start.offset, true, data, wpos)
      ensures Near(files, old(version.Pos()), start) <==> old(RollsClean())
      ensures SameUpTo(old(files), files, old(version.Pos()))
      ensures old(ZeroTail()) ==> ZeroTail()
    {
      hide Layout, ItemAt, EndsAt;
      if wpos > fileSize {
        CutEndsFile(files[proNum], version.Pos());
        RollFile();
      }
      start := Position(proNum, wpos);
      ghost var d, w := files, Written();
      assert SameUpTo(old(files), d, old(version.Pos())) && (Near(d, old(version.Pos()), start) <==> old(RollsClean()));
      var proOffset := Produce(data, clock);
      version := version.(proOffset := proOffset, logicId := version.logicId + 1);
      StableSave();
      assert files[proNum][start.offset..wpos] == Layout(clock, start.offset, true, data) by {
        assert files[proNum][start.offset..wpos] == Written()[|w|..];
      }
      LayoutIsItem(files[proNum], clock, start.offset, true, data, wpos);
      WriteKeeps(old(files), d, files, old(version.Pos()), start);
      s := Ok;
    }

    /** Starts file proNum + 1, replacing a file of that name, and publishes its start. */
    method RollFile()
      requires QueueOk() && version.Pos() == Position(proNum, wpos)
      modifies this`files, this`wpos, this`mapEnd, this`blockOffset, this`proNum, this`version, this`manifest, this`hasQueue, this`isOpen
      ensures QueueOk() && isOpen && manifest == Saved(version)
      ensures proNum == old(proNum) + 1 && wpos == 0
      ensures version == old(version).(proNum := proNum, proOffset := 0)
      ensures ZeroTail() && mapEnd == 0
      ensures files == (if old(wpos < mapEnd) then old(files)[old(proNum) := old(Written())] else old(files))[old(proNum) + 1 := []]
    {
      files := files[proNum + 1 := []];
      CloseQueue();
      proNum := proNum + 1;
      hasQueue, wpos, mapEnd := true, 0, 0;
      version := version.(proOffset := 0, proNum := proNum);
      StableSave();
      InitLogFile();
    }

    /**
     Encodes the content behind the producer's own position and puts it. The log stays valid exactly if a
     roll, should there be one, leaves nothing after it for the reader in the old file.
     */
    method Put(content: seq<Byte>, now: nat, clock: Clock) returns (s: Status)
      requires isOpen ==> Standing()
      modifies this
      ensures !old(isOpen) ==> s == Busy && unchanged(this)
      ensures old(isOpen) ==> s == Ok && isOpen && Standing()
      ensures old(Valid()) ==> (Valid() <==> old(RollsClean()))
      ensures old(isOpen && ZeroTail()) ==> ZeroTail()
      ensures old(isOpen) ==> proNum == old(proNum) + if old(wpos) > fileSize then 1 else 0
      ensures old(isOpen) ==> log == old(log).Append(Entry(
        old(version.Pos()),
        BinlogItem(now, old(version.term), old(version.logicId) + 1, old(proNum), old(wpos), content),
        proNum, if old(wpos) > fileSize then 0 else old(wpos), wpos))
      ensures old(isOpen) ==> version.term == old(version.term)
      ensures old(isOpen && ContiguousLog()) ==> ContiguousLog()
    {
      hide ItemAt, ItemBytes, LogOk, EntryOk, Contiguous, Saved, SameUpTo, BlockOffsetOk, EndsAt, ZerosFrom;
      if !isOpen {
        return Busy;
      }
      ghost var from := version.Pos();
      var logicId := version.logicId + 1;
      ghost var item := BinlogItem(now, version.term, logicId, proNum, wpos, content);
      var data := BinlogEncode(TypeFirst, now, version.term, logicId, proNum, wpos, content);
      ghost var start;
      ghost var valid := Valid();
      s, start := PutData(data, clock);
      ghost var e := Entry(from, item, proNum, start.offset, wpos);
      if valid {
        LogContinues(old(files), files, log, e);
      }
      if Contiguous(log) && from == log.Last() {
        ContiguousExtends(log, e);
      }
      log := log.Append(e);
    }

    /** Closes the open file, cuts file `num` at the offset and opens it there. */
    method CutFile(num: nat, offset: nat, index: nat) returns (s: Status)
      requires hasQueue ==> FileOpen()
      modifies this`files, this`wpos, this`mapEnd, this`blockOffset, this`proNum, this`version, this`manifest, this`hasQueue, this`isOpen
      ensures s == if num in old(files) then Ok else IOError
      ensures s == IOError ==> !hasQueue && version == old(version)
      ensures s == Ok ==> isOpen && QueueOk() && proNum == num && wpos == offset && manifest == Saved(version)
      ensures s == Ok ==> version == old(version).(proNum := num, proOffset := offset, logicId := index)
      ensures s == Ok ==> wpos == mapEnd
      ensures var closed := if old(hasQueue && wpos < mapEnd) then old(files)[old(proNum) := old(files[proNum][..wpos])] else old(files);
              files == if s == Ok then closed[num := Resized(closed[num], offset)] else closed
    {
      hide Saved, Resized;
      CloseQueue();
      if num !in files {
        return IOError;
      }
      files := files[num := Resized(files[num], offset)];
      proNum := num;
      version := version.(proNum := num, proOffset := offset, logicId := index);
      StableSave();
      hasQueue, wpos, mapEnd := true, offset, offset;
      InitLogFile();
      s := Ok;
    }

    /** Cuts the log back to a position; the files after it stay behind. */
    method Truncate(num: nat, offset: nat, index: nat, ghost i: nat) returns (s: Status)
      requires hasQueue ==> FileOpen()
      requires i <= |log.entries|
      modifies this
      ensures s == if num in old(files) then Ok else IOError
      ensures s == IOError ==> !hasQueue && version == old(version)
      ensures s == Ok ==> isOpen && Standing() && ZeroTail() && proNum == num && wpos == offset == |files[num]|
      ensures s == Ok ==> version == old(version).(proNum := num, proOffset := offset, logicId := index)
      ensures old(Valid()) && old(log).At(i) == Position(num, offset) && index == old(log).logicBase + i
              ==> s == Ok && Valid() && log == old(log).Take(i)
      ensures old(Valid() && ContiguousLog()) && old(log).At(i) == Position(num, offset) ==> ContiguousLog()
    {
      hide LogOk, Saved, Contiguous, Resized, BlockOffsetOk, SameUpTo;
      ghost var published := Valid() && log.At(i) == Position(num, offset);
      if published {
        PositionExists(files, log, i);
      }
      s := CutFile(num, offset, index);
      if published {
        CutKeeps(old(files), files, old(version.Pos()), log, i, old(wpos < mapEnd));
        ContiguousPrefix(log, i);
      }
      if s == Ok {
        log := log.Take(i);
      }
    }

    /** Appends one kBadRecord of `size` bytes at the start of a block. */
    method PadBlock(size: nat, now: nat)
      requires FileOpen() && kHeaderSize <= size <= kBlockSize
      requires wpos % kBlockSize == 0 && Padded(Written())
      modifies this`files, this`wpos, this`mapEnd
      ensures FileOpen() && files == old(files)[proNum := files[proNum]] && wpos == old(wpos) + size
      ensures Padded(Written()) && (size < kBlockSize ==> wpos % kBlockSize == size)
      ensures old(ZeroTail()) ==> ZeroTail()
      ensures size == kBlockSize ==> wpos % kBlockSize == 0
    {
      hide Padded, Header, ZerosFrom, Repeat;
      PadOffset(wpos, size);
      ghost var w := Written();
      var stars := Repeat(42, size - kHeaderSize);
      Append(Header(size - kHeaderSize, now, kBadRecord));
      Append(stars);
      PaddingGrows(w, Written(), now, stars);
    }

    /** Appends kBadRecord blocks; fewer than eight bytes cannot be padded. */
    method AppendPadding(len: nat, now: nat) returns (newLen: nat)
      requires QueueOk() && wpos == 0
      modifies this`files, this`wpos, this`mapEnd
      ensures FileOpen() && files == old(files)[proNum := files[proNum]]
      ensures newLen == if len < kHeaderSize then len else PaddedLength(len)
      ensures wpos == if len < kHeaderSize then 0 else newLen
      ensures Padded(Written())
      ensures old(ZeroTail()) ==> ZeroTail()
    {
      hide Padded, PaddedLength, Header;
      NothingIsPadded(Written());
      if len < kHeaderSize {
        return len;
      }
      var left: nat := len;
      while left > 0
        invariant FileOpen() && files == old(files)[proNum := files[proNum]]
        invariant wpos + left == len
        invariant left > 0 ==> wpos % kBlockSize == 0
        invariant left == 0 ==> wpos % kBlockSize == 0 || wpos % kBlockSize >= kHeaderSize
        invariant Padded(Written()) && (old(ZeroTail()) ==> ZeroTail())
      {
        var size := if left >= kBlockSize then kBlockSize else left;
        if size < kHeaderSize {
          break;
        }
        PadBlock(size, now);
        left := left - size;
      }
      newLen := len - left;
      PaddedLengthReached(len, wpos);
    }

    /** Deletes file 0 and file `num`, and creates the latter empty. */
    method StartAnew(num: nat)
      requires hasQueue ==> FileOpen()
      modifies this`files, this`wpos, this`mapEnd, this`blockOffset, this`proNum, this`hasQueue
      ensures QueueOk() && ZeroTail() && proNum == num && wpos == 0
      ensures files.Keys == old(files.Keys) - {0} + {num} && files[num] == []
    {
      CloseQueue();
      files := files - {0};
      files := files - {num};
      files := files[num := []];
      proNum, wpos, mapEnd, blockOffset, hasQueue := num, 0, 0, 0, true;
    }

    /** The named file, created anew and padded; the padding really reaches the offset it reports, or nothing was padded. */
    method PadAnew(num: nat, offset: nat, now: nat) returns (proOffset: nat)
      requires hasQueue ==> FileOpen()
      modifies this`files, this`wpos, this`mapEnd, this`blockOffset, this`proNum, this`hasQueue
      ensures ZeroTail() && proNum == num && Padded(Written())
      ensures proOffset == PaddedLength(offset) && (wpos == proOffset <==> !(4 <= offset < kHeaderSize))
      ensures files.Keys == old(files.Keys) - {0} + {num}
    {
      hide Padded, PaddedLength, ZerosFrom, BlockOffsetOk;
      ChosenLength(offset);
      proOffset := if offset < 4 then 0 else offset;
      StartAnew(num);
      proOffset := AppendPadding(proOffset, now);
    }

    /**
     Starts the log anew in file `num` behind padding up to the offset asked for. A request for four
     to seven bytes pads nothing and yet publishes the request; every other one leaves a valid log.
     */
    method SetProducerStatus(num: nat, offset: nat, term: nat, index: nat, now: nat) returns (s: Status)
      requires hasQueue ==> FileOpen()
      modifies this
      ensures !old(isOpen) ==> s == Busy && unchanged(this)
      ensures old(isOpen) ==> s == Ok && isOpen && ZeroTail() && proNum == num && Padded(Written())
      ensures old(isOpen) ==> version == Version(num, PaddedLength(offset), index, term)
      ensures old(isOpen) ==> (wpos == version.proOffset <==> !(4 <= offset < kHeaderSize))
      ensures old(isOpen) ==> (Valid() <==> !(4 <= offset < kHeaderSize))
      ensures old(isOpen) ==> log == Log(Position(num, PaddedLength(offset)), index, [])
      ensures old(isOpen) ==> files.Keys == old(files.Keys) - {0} + {num}
    {
      hide Padded, Saved, LogOk, Contiguous, BlockStart, PaddedLength, ZerosFrom, EndsAt;
      if !isOpen {
        return Busy;
      }
      var proOffset := PadAnew(num, offset, now);
      version := Version(num, proOffset, index, term);
      StableSave();
      InitLogFile();
      log := Log(Position(num, proOffset), index, []);
      if wpos == proOffset {
        PaddedLogOk(files, num, wpos, index);
      }
      return Ok;
    }

    method GetProducerStatus() returns (s: Status, v: Version)
      ensures s == (if isOpen then Ok else Busy) && v == version
      ensures Valid() ==>
                && s == Ok && v.Pos() == Position(proNum, wpos) && Near(files, log.Last(), v.Pos())
                && v.logicId == log.logicBase + |log.entries|
      ensures Valid() && ContiguousLog() ==> v.Pos() == log.Last()
    {
      s, v := if isOpen then Ok else Busy, version;
    }

    method SetTerm(term: nat)
      requires Valid()
      modifies this`version, this`manifest
      ensures Valid() && version == old(version).(term := term)
    {
      version := version.(term := term);
      StableSave();
    }

    method Close()
      modifies this`isOpen
      ensures !isOpen
    {
      isOpen := false;
    }
  }

  /** Writing after `start`, which a roll may have put on the next file, keeps what was published. */
  lemma {:induction false} WriteKeeps(d0: Directory, d: Directory, d': Directory, pro: Position, start: Position)
    requires SameUpTo(d0, d, pro) && (start == pro || start == Position(pro.filenum + 1, 0))
    requires start.filenum in d && start.offset <= |d[start.filenum]|
    requires start.filenum in d' && d' == d[start.filenum := d'[start.filenum]]
    requires start.offset <= |d'[start.filenum]|
    requires d'[start.filenum][..start.offset] == d[start.filenum][..start.offset]
    ensures SameUpTo(d0, d', pro) && (Near(d', pro, start) <==> Near(d, pro, start))
  {
  }

  /** An item put at the producer's position, or at the start of the file after it, follows the log. */
  lemma {:induction false} NextEntryOk(d: Directory, d': Directory, last: Position, e: Entry)
    requires Near(d, last, e.from) && SameUpTo(d, d', e.from)
    requires Near(d', e.from, e.Begin()) && (e.Begin() == e.from || e.from.offset > 0)
    requires e.item.filenum == e.from.filenum && e.item.offset == e.from.offset
    requires e.filenum in d' && ItemAt(d'[e.filenum], e.start, true, e.Data(), e.end)
    ensures EntryOk(d', last, e)
  {
    hide ItemAt, ItemBytes;
  }

  lemma {:induction false} CutEndsFile(f: seq<Byte>, p: Position)
    requires p.offset <= |f|
    ensures EndsAt(f[..p.offset], p)
  {
    ZerosFade(f[..p.offset], p);
  }

  /** With one more item the log is one exactly if that item stands where the reader looks for it. */
  lemma {:induction false} LogContinues(d: Directory, d': Directory, l: Log, e: Entry)
    requires LogOk(d, l) && Near(d, l.Last(), e.from) && SameUpTo(d, d', e.from)
    requires e.Begin() == e.from || (e.from.offset > 0 && e.Begin() == Position(e.from.filenum + 1, 0))
    requires e.item.filenum == e.from.filenum && e.item.offset == e.from.offset
    requires e.item.logicId == l.logicBase + |l.entries| + 1
    requires e.filenum in d' && ItemAt(d'[e.filenum], e.start, true, e.Data(), e.end)
    ensures LogOk(d', l.Append(e)) <==> Near(d', e.from, e.Begin())
  {
    hide ItemAt, ItemBytes, SameUpTo, EndsAt;
    LogFrame(d, d', l, e.from);
    if Near(d', e.from, e.Begin()) {
      NextEntryOk(d, d', l.Last(), e);
      LogExtends(d', l, e);
    }
    if LogOk(d', l.Append(e)) {
      assert EntryInPlace(d', l.Append(e), |l.entries|);
    }
  }

  lemma {:induction false} ContiguousExtends(l: Log, e: Entry)
    requires Contiguous(l) && e.from == l.Last()
    ensures Contiguous(l.Append(e))
  {
    var m := l.Append(e);
    forall i: nat | i < |m.entries|
      ensures StampedInPlace(m, i)
    {
      assert i < |l.entries| ==> StampedInPlace(l, i);
    }
  }

  lemma {:induction false} ContiguousPrefix(l: Log, i: nat)
    requires i <= |l.entries|
    ensures Contiguous(l) ==> Contiguous(l.Take(i))
  {
    if Contiguous(l) {
      var m := l.Take(i);
      forall j: nat | j < i
        ensures StampedInPlace(m, j)
      {
        assert StampedInPlace(l, j);
      }
    }
  }

  /** Cutting a file at a published position leaves the log before it. */
  lemma {:induction false} CutKeeps(d: Directory, d': Directory, pro: Position, l: Log, i: nat, cut: bool)
    requires LogOk(d, l) && i <= |l.entries| && Near(d, l.Last(), pro)
    requires pro.filenum in d && pro.offset <= |d[pro.filenum]|
    requires var p := l.At(i);
             var closed := if cut then d[pro.filenum := d[pro.filenum][..pro.offset]] else d;
             p.filenum in closed && d' == closed[p.filenum := Resized(closed[p.filenum], p.offset)]
    ensures l.At(i).filenum in d && LogOk(d', l.Take(i))
  {
    var p := l.At(i);
    PositionExists(d, l, i);
    PositionsIncrease(d, l, i, |l.entries|);
    assert SameUpTo(d, d', p);
    LogPrefix(d, l, i);
    LogFrame(d, d', l.Take(i), p);
  }

  lemma {:induction false} MultiplesApart(s: nat, n: nat)
    requires s < n && s % kBlockSize == 0 && n % kBlockSize == 0
    ensures s + kBlockSize <= n
  {
  }

  lemma {:induction false} PaddingGrows(w: seq<Byte>, w': seq<Byte>, now: nat, stars: seq<Byte>)
    requires Padded(w) && |w| % kBlockSize == 0
    requires |stars| <= kBlockSize - kHeaderSize && stars == Repeat(42, |stars|)
    requires w' == w + Header(|stars|, now, kBadRecord) + stars
    ensures Padded(w')
  {
    hide Header, PaddedBlock;
    PaddedBlockAdded(w, w', now, stars);
    forall s: nat | s < |w'| && s % kBlockSize == 0
      ensures PaddedBlock(w', s)
    {
      if s < |w| {
        assert PaddedBlock(w, s);
        PaddedBlockStays(w, w', s);
      } else if s > |w| {
        MultiplesApart(|w|, s);
      }
    }
  }

  lemma {:induction false} PaddedBlockAdded(w: seq<Byte>, w': seq<Byte>, now: nat, stars: seq<Byte>)
    requires |stars| <= kBlockSize - kHeaderSize && stars == Repeat(42, |stars|)
    requires w' == w + Header(|stars|, now, kBadRecord) + stars
    ensures PaddedBlock(w', |w|)
  {
    hide Header, RecordAt, Repeat;
    var h := Header(|stars|, now, kBadRecord);
    ConcatAssociative(w, h, stars);
    assert w'[|w|..|w'|] == h + stars;
    BytesAreRecord(w', |w|, now, kBadRecord, stars);
  }

  lemma {:induction false} PaddedBlockStays(w: seq<Byte>, w': seq<Byte>, s: nat)
    requires PaddedBlock(w, s) && |w| % kBlockSize == 0 && s < |w| && s % kBlockSize == 0
    requires |w| <= |w'| && w'[..|w|] == w
    ensures PaddedBlock(w', s)
  {
    hide RecordAt, Repeat;
    MultiplesApart(s, |w|);
    assert w[..|w|] == w;
    RecordFrame(w, w', s, kBadRecord, Repeat(42, kBlockSize - kHeaderSize), |w|);
  }

  /** Padding is an empty log: it can be scanned from the start of its last block. */
  lemma {:induction false} PaddedLogOk(d: Directory, num: nat, n: nat, index: nat)
    requires num in d && n <= |d[num]| && Padded(d[num][..n])
    ensures LogOk(d, Log(Position(num, n), index, []))
  {
    var f := d[num];
    var s := BlockStart(n);
    if s < n {
      assert PaddedBlock(f[..n], s);
      RecordScans(f[..n], s, kBadRecord, Repeat(42, n - s - kHeaderSize));
      ScanFrame(f[..n], f, s, n);
    }
  }

  lemma {:induction false} FragmentParts(w0: seq<Byte>, w: seq<Byte>, clock: Clock, p: nat, begin: bool, left: seq<Byte>, q: nat, n: nat)
    requires q == Align(p) && n == FragmentLength(q, |left|) && w == w0 + Zeros(q - p)
    ensures w + (Header(n, clock(q), RecordType(begin, n == |left|)) + left[..n]) == w0 + Fragment(clock, p, begin, left)
  {
  }

  /** What Produce has still to write; it writes at least one record. */
  ghost function Pending(clock: Clock, p: nat, begin: bool, left: seq<Byte>): seq<Byte> {
    if begin || |left| > 0 then Layout(clock, p, begin, left) else []
  }

  /** One more record brings the file one step nearer to the whole layout. */
  lemma {:induction false} LayoutStep(w: seq<Byte>, clock: Clock, p: nat, begin: bool, left: seq<Byte>, target: seq<Byte>)
    requires w + Pending(clock, p, begin, left) == target && (begin || |left| > 0)
    ensures var s := Fragment(clock, p, begin, left);
            var rest := left[FragmentLength(Align(p), |left|)..];
            && w + s + Pending(clock, p + |s|, false, rest) == target
            && (|rest| > 0 ==> (p + |s|) % kBlockSize == 0)
            && (p % kBlockSize == 0 && |left| > 0 ==> |rest| < |left|)
  {
    hide Fragment, Zeros;
    var s := Fragment(clock, p, begin, left);
    var rest := left[FragmentLength(Align(p), |left|)..];
    assert Layout(clock, p, begin, left) == s + Pending(clock, p + |s|, false, rest);
    ConcatAssociative(w, s, Pending(clock, p + |s|, false, rest));
  }
}
