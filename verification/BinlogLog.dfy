/**
 The log that a directory of binlog files holds: a base position and a chain of entries, each
 standing right after the one before it or at the start of the next file.
 */
module BinlogLog {
  import opened Bytes
  import opened BinlogFormat
  import opened BinlogCursor
  import opened BinlogTransverter

  /** The files write2file0, write2file1, ... by number. */
  type Directory = map<nat, seq<Byte>>

  /** A published item: the producer position it was stamped with and the range it occupies. */
  datatype Entry = Entry(from: Position, item: BinlogItem, filenum: nat, start: nat, end: nat) {
    function Data(): seq<Byte> {
      ItemBytes(TypeFirst, item)
    }

    function Begin(): Position {
      Position(filenum, start)
    }

    function End(): Position {
      Position(filenum, end)
    }
  }

  datatype Log = Log(base: Position, logicBase: nat, entries: seq<Entry>) {
    /** The position after the first i entries. */
    function At(i: nat): Position
      requires i <= |entries|
    {
      if i == 0 then base else entries[i - 1].End()
    }

    function Last(): Position {
      At(|entries|)
    }

    function Append(e: Entry): (l: Log)
      ensures l.Last() == e.End()
    {
      this.(entries := entries + [e])
    }

    function Take(i: nat): (l: Log)
      requires i <= |entries|
      ensures l.Last() == At(i)
    {
      this.(entries := entries[..i])
    }
  }

  /** p is `last` itself, or the start of the next file when the file of `last` ends there for the reader. */
  ghost predicate Near(d: Directory, last: Position, p: Position) {
    || p == last
    || (&& p == Position(last.filenum + 1, 0)
        && last.filenum in d && EndsAt(d[last.filenum], last)
        && p.filenum in d)
  }

  ghost predicate EntryOk(d: Directory, last: Position, e: Entry) {
    && Near(d, last, e.from) && Near(d, last, e.Begin()) && (e.from == last || e.Begin() == e.from)
    && e.item.filenum == e.from.filenum && e.item.offset == e.from.offset
    && e.filenum in d && ItemAt(d[e.filenum], e.start, true, e.Data(), e.end)
  }

  /** From p to e the file is a run of single records that each close an item, or are padding. */
  ghost predicate ScanTo(f: seq<Byte>, p: nat, e: nat)
    decreases e - p
  {
    || p == e
    || (&& p + kHeaderSize <= e <= |f|
        && var n := LengthField(f[p], f[p + 1], f[p + 2]);
        && n <= kBlockSize - kHeaderSize
        && f[p + 7] in {kFullType, kLastType, kBadRecord}
        && p + kHeaderSize + n <= e
        && ScanTo(f, p + kHeaderSize + n, e))
  }

  /** Entry i stands where the entries before it end. */
  ghost predicate EntryInPlace(d: Directory, l: Log, i: nat) {
    i < |l.entries| && EntryOk(d, l.At(i), l.entries[i])
  }

  ghost predicate LogOk(d: Directory, l: Log) {
    && l.base.filenum in d && l.base.offset <= |d[l.base.filenum]|
    && ScanTo(d[l.base.filenum], BlockStart(l.base.offset), l.base.offset)
    && (forall i: nat | i < |l.entries| :: EntryInPlace(d, l, i))
    && (forall i | 0 <= i < |l.entries| :: l.entries[i].item.logicId == l.logicBase + i + 1)
  }

  /** Every item was stamped with the very position where the one before it ended. */
  ghost predicate Contiguous(l: Log) {
    forall i: nat | i < |l.entries| :: StampedInPlace(l, i)
  }

  ghost predicate StampedInPlace(l: Log, i: nat) {
    i < |l.entries| && l.entries[i].from == l.At(i)
  }

  /** Up to p, the files are the same; what follows may differ. */
  ghost predicate SameUpTo(d: Directory, d': Directory, p: Position) {
    && (forall g | g in d && g < p.filenum :: g in d' && d'[g] == d[g])
    && p.filenum in d && p.filenum in d'
    && p.offset <= |d[p.filenum]| && p.offset <= |d'[p.filenum]|
    && d[p.filenum][..p.offset] == d'[p.filenum][..p.offset]
  }

  lemma {:induction false} PositionExists(d: Directory, l: Log, i: nat)
    requires LogOk(d, l) && i <= |l.entries|
    ensures l.At(i).filenum in d && l.At(i).offset <= |d[l.At(i).filenum]|
  {
    if i > 0 {
      assert EntryInPlace(d, l, i - 1);
      EntryAdvances(d, l.At(i - 1), l.entries[i - 1]);
    }
  }

  /** An entry ends after the position it was put at, and after its own start. */
  lemma {:induction false} EntryAdvances(d: Directory, last: Position, e: Entry)
    requires EntryOk(d, last, e)
    ensures last.Less(e.End()) && e.Begin().Less(e.End()) && last.AtMost(e.Begin())
    ensures e.filenum in d && e.end <= |d[e.filenum]|
  {
    ItemBounds(d[e.filenum], e.start, true, e.Data(), e.end);
  }

  /** Positions strictly increase along the log. */
  lemma {:induction false} PositionsIncrease(d: Directory, l: Log, i: nat, j: nat)
    requires LogOk(d, l) && i <= j <= |l.entries|
    ensures l.At(i).AtMost(l.At(j))
    ensures i < j ==> l.At(i).Less(l.At(j)) && l.entries[i].Begin().Less(l.At(j))
    decreases j - i
  {
    if i < j {
      assert EntryInPlace(d, l, i);
      EntryAdvances(d, l.At(i), l.entries[i]);
      PositionsIncrease(d, l, i + 1, j);
    }
  }

  /** The log up to a position depends only on the files up to that position. */
  lemma {:induction false} LogFrame(d: Directory, d': Directory, l: Log, p: Position)
    requires LogOk(d, l) && l.Last().AtMost(p) && SameUpTo(d, d', p)
    ensures LogOk(d', l)
  {
    PositionsIncrease(d, l, 0, |l.entries|);
    BaseFrame(d, d', l, p);
    forall i: nat | i < |l.entries|
      ensures EntryInPlace(d', l, i)
    {
      LogFrameEntry(d, d', l, p, i);
    }
  }

  lemma {:induction false} LogFrameEntry(d: Directory, d': Directory, l: Log, p: Position, i: nat)
    requires LogOk(d, l) && l.Last().AtMost(p) && SameUpTo(d, d', p) && i < |l.entries|
    ensures EntryInPlace(d', l, i)
  {
    assert EntryInPlace(d, l, i);
    PositionsIncrease(d, l, i + 1, |l.entries|);
    EntryFrame(d, d', l.At(i), l.entries[i], p);
  }

  lemma {:induction false} BaseFrame(d: Directory, d': Directory, l: Log, p: Position)
    requires LogOk(d, l) && l.base.AtMost(p) && SameUpTo(d, d', p)
    ensures l.base.filenum in d' && l.base.offset <= |d'[l.base.filenum]|
    ensures ScanTo(d'[l.base.filenum], BlockStart(l.base.offset), l.base.offset)
  {
    if l.base.filenum == p.filenum {
      PrefixOfPrefix(d[p.filenum], d'[p.filenum], p.offset, l.base.offset);
      ScanFrame(d[p.filenum], d'[p.filenum], BlockStart(l.base.offset), l.base.offset);
    }
  }

  lemma {:induction false} EntryFrame(d: Directory, d': Directory, last: Position, e: Entry, p: Position)
    requires EntryOk(d, last, e) && e.End().AtMost(p) && SameUpTo(d, d', p)
    ensures EntryOk(d', last, e)
  {
    ItemBounds(d[e.filenum], e.start, true, e.Data(), e.end);
    if e.filenum == p.filenum {
      PrefixOfPrefix(d[p.filenum], d'[p.filenum], p.offset, e.end);
      ItemFrame(d[e.filenum], d'[e.filenum], e.start, true, e.Data(), e.end);
    }
  }

  lemma {:induction false} PrefixOfPrefix(f: seq<Byte>, g: seq<Byte>, n: nat, k: nat)
    requires k <= n <= |f| && n <= |g| && f[..n] == g[..n]
    ensures f[..k] == g[..k]
  {
    assert f[..k] == f[..n][..k] && g[..k] == g[..n][..k];
  }

  lemma {:induction false} ScanFrame(f: seq<Byte>, g: seq<Byte>, p: nat, e: nat)
    requires ScanTo(f, p, e) && e <= |f| && e <= |g| && f[..e] == g[..e]
    ensures ScanTo(g, p, e)
    decreases e - p
  {
    if p != e {
      assert forall i | 0 <= i < e :: f[i] == f[..e][i] == g[..e][i] == g[i];
      ScanFrame(f, g, p + kHeaderSize + LengthField(f[p], f[p + 1], f[p + 2]), e);
    }
  }

  /** Appending an entry that stands after the last one extends the log. */
  lemma {:induction false} LogExtends(d: Directory, l: Log, e: Entry)
    requires LogOk(d, l) && EntryOk(d, l.Last(), e)
    requires e.item.logicId == l.logicBase + |l.entries| + 1
    ensures LogOk(d, l.Append(e))
  {
    var m := l.Append(e);
    assert EntryInPlace(d, m, |l.entries|);
    forall i: nat | i < |l.entries|
      ensures EntryInPlace(d, m, i)
    {
      assert EntryInPlace(d, l, i);
    }
  }

  /** The entries before a published position are a log of their own. */
  lemma {:induction false} LogPrefix(d: Directory, l: Log, i: nat)
    requires LogOk(d, l) && i <= |l.entries|
    ensures LogOk(d, l.Take(i))
  {
    var m := l.Take(i);
    forall j: nat | j < i
      ensures EntryInPlace(d, m, j)
    {
      assert EntryInPlace(d, l, j);
    }
  }

  // Seeking

  lemma {:induction false} ScanSnoc(f: seq<Byte>, p: nat, m: nat, e: nat)
    requires p <= m && ScanTo(f, p, m) && ScanTo(f, m, e)
    ensures ScanTo(f, p, e)
    decreases m - p
  {
    if p != m {
      if m != e { assert m + kHeaderSize <= e; }
      ScanSnoc(f, p + kHeaderSize + LengthField(f[p], f[p + 1], f[p + 2]), m, e);
    }
  }

  /** In the block where an item ends, one record closes it: at its start, or at the block's. */
  lemma {:induction false} ItemLastBlock(f: seq<Byte>, p: nat, begin: bool, item: seq<Byte>, e: nat)
    requires ItemAt(f, p, begin, item, e)
    ensures e <= |f|
    ensures ScanTo(f, if BlockStart(e) == BlockStart(p) then p else BlockStart(e), e)
    decreases |item|, EmptySlot(p)
  {
    hide RecordAt, EmptySlot;
    var q := Align(p);
    var n := FragmentLength(q, |item|);
    var r := q + kHeaderSize + n;
    if n == |item| {
      RecordScans(f, q, RecordType(begin, true), item[..n]);
      SameBlock(q, n);
    } else {
      ItemBounds(f, r, false, item[n..], e);
      Progress(p, |item|);
      ItemLastBlock(f, r, false, item[n..], e);
      assert BlockStart(r) == r;
    }
  }

  lemma {:induction false} RecordScans(f: seq<Byte>, q: nat, t: Byte, payload: seq<Byte>)
    requires RecordAt(f, q, t, payload) && t in {kFullType, kLastType, kBadRecord}
    requires |payload| <= kBlockSize - kHeaderSize
    ensures ScanTo(f, q, q + kHeaderSize + |payload|)
  {
    var e := q + kHeaderSize + |payload|;
    assert ScanTo(f, e, e);
  }

  /** A record does not cross a block edge. */
  lemma {:induction false} SameBlock(q: nat, n: nat)
    requires kHeaderSize + n <= Space(q)
    ensures var e := q + kHeaderSize + n; BlockStart(e) == BlockStart(q) || BlockStart(e) == e
  {
  }

  /** Scanning from the start of its block reaches every published position exactly. */
  lemma {:induction false} PublishedIsScannable(d: Directory, l: Log, i: nat)
    requires LogOk(d, l) && i <= |l.entries|
    ensures l.At(i).filenum in d && l.At(i).offset <= |d[l.At(i).filenum]|
    ensures ScanTo(d[l.At(i).filenum], BlockStart(l.At(i).offset), l.At(i).offset)
  {
    PositionExists(d, l, i);
    if i > 0 {
      var e := l.entries[i - 1];
      assert EntryInPlace(d, l, i - 1);
      var f := d[e.filenum];
      ItemLastBlock(f, e.start, true, e.Data(), e.end);
      if BlockStart(e.end) == BlockStart(e.start) {
        PublishedIsScannable(d, l, i - 1);
        if e.Begin() == l.At(i - 1) {
          ScanSnoc(f, BlockStart(e.start), e.start, e.end);
        } else {
          assert BlockStart(0) == 0;
        }
      }
    }
  }
}
