/**
 The writer and the reader running side by side. The writer's appends, its file rolls and its
 publications, and the reader's position test, record reads and file changes are separate steps, and
 a crash may happen between any two of them. A roll cuts the old file only if something was appended to
 it since it was opened, so that what a crash left after the published position can stay behind: the
 exact condition under which no read is torn is here.
 */
module BinlogConcurrent {
  import opened Bytes
  import opened Wrappers
  import opened BinlogFormat
  import opened BinlogCursor
  import opened BinlogTransverter
  import opened BinlogLog
  import opened BinlogWriter
  import opened BinlogReader
  import opened BinlogRuns

  datatype WriterPc =
    | Idle
    | Rolling(from: Position, item: BinlogItem)     // the next file is created
    | Closed(from: Position, item: BinlogItem)      // and the old one closed
    | Emitting(from: Position, item: BinlogItem, pending: seq<Byte>)

  datatype ReaderPc =
    | Resting
    | Checking(scratch: seq<Byte>)
    | Consuming(scratch: seq<Byte>)
    | AtEof(scratch: seq<Byte>)

  datatype State = State(
    d: Directory,
    wnum: nat, wpos: nat, mapEnd: nat, pub: Position, logicId: nat, wpc: WriterPc,
    c: Cursor, rpc: ReaderPc, delivered: seq<seq<Byte>>, failed: bool,
    log: Log)

  datatype Action =
    | BeginPut(content: seq<Byte>, now: nat)
    | CloseOld
    | PublishRoll
    | Emit(count: nat, slack: nat)
    | Publish
    | Crash
    | BeginGet
    | CheckEnd
    | ReadOne
    | NextFile

  function Start(dir: Directory): State {
    State(dir[0 := []], 0, 0, 0, Position(0, 0), 0, Idle,
          Cursor(0, 0, 0, 0), Resting, [], false, Log(Position(0, 0), 0, []))
  }

  /** Stamps the item and either starts writing it or, past the size limit, creates the next file. */
  function BeginPutStep(limit: nat, clock: Clock, s: State, content: seq<Byte>, now: nat): State {
    var item := BinlogItem(now, 0, s.logicId + 1, s.pub.filenum, s.pub.offset, content);
    if s.wpos > limit then
      s.(d := s.d[s.wnum + 1 := []], wpc := Rolling(s.pub, item))
    else
      s.(wpc := Emitting(s.pub, item, Layout(clock, s.wpos, true, ItemBytes(TypeFirst, item))))
  }

  /** Writes some of the pending bytes; space for `slack` more is mapped, with zeros in what is new. */
  function EmitStep(s: State, count: nat, slack: nat): State
    requires s.wpc.Emitting?
  {
    if s.wnum in s.d && s.wpos <= |s.d[s.wnum]| && 0 < count <= |s.wpc.pending| then
      var n := s.wpos + count;
      var end := (if s.mapEnd < n then n else s.mapEnd) + slack;
      var f := Extended(Overwritten(s.d[s.wnum], s.wpos, s.wpc.pending[..count]), end);
      s.(d := s.d[s.wnum := f], wpos := n, mapEnd := end, wpc := s.wpc.(pending := s.wpc.pending[count..]))
    else s
  }

  function PublishStep(s: State): State
    requires s.wpc.Emitting?
  {
    var e := Entry(s.wpc.from, s.wpc.item, s.wnum, s.pub.offset, s.wpos);
    s.(pub := Position(s.wnum, s.wpos), logicId := s.logicId + 1, wpc := Idle, log := s.log.Append(e))
  }

  function WriterStep(limit: nat, clock: Clock, s: State, a: Action): State {
    match a
    case BeginPut(content, now) => if s.wpc.Idle? then BeginPutStep(limit, clock, s, content, now) else s
    case CloseOld =>
      if s.wpc.Rolling? && s.wnum in s.d && s.wpos <= |s.d[s.wnum]| then
        s.(d := if s.wpos < s.mapEnd then s.d[s.wnum := s.d[s.wnum][..s.wpos]] else s.d,
           wpc := Closed(s.wpc.from, s.wpc.item))
      else s
    case PublishRoll =>
      if s.wpc.Closed? then
        s.(wnum := s.wnum + 1, wpos := 0, mapEnd := 0, pub := Position(s.wnum + 1, 0),
           wpc := Emitting(s.wpc.from, s.wpc.item, Layout(clock, 0, true, ItemBytes(TypeFirst, s.wpc.item))))
      else s
    case Emit(count, slack) => if s.wpc.Emitting? then EmitStep(s, count, slack) else s
    case Publish => if s.wpc.Emitting? && s.wpc.pending == [] then PublishStep(s) else s
    case Crash =>
      if |s.delivered| <= |s.log.entries| then
        var p := s.log.At(|s.delivered|);
        s.(wnum := s.pub.filenum, wpos := s.pub.offset, mapEnd := s.pub.offset, wpc := Idle,
           c := Cursor(p.filenum, p.offset, p.offset % kBlockSize, p.offset), rpc := Resting)
      else s
    case _ => s
  }

  /** One physical record in the loop of Consume. */
  function ReadOneStep(s: State, scratch: seq<Byte>): State {
    var r := ReadPhysical(if s.c.filenum in s.d then s.d[s.c.filenum] else [], s.c);
    var t := s.(c := r.cursor);
    if r.kind == kFullType then t.(rpc := Resting, delivered := s.delivered + [r.fragment])
    else if r.kind == kFirstType then t.(rpc := Consuming(r.fragment))
    else if r.kind == kMiddleType then t.(rpc := Consuming(scratch + r.fragment))
    else if r.kind == kLastType then t.(rpc := Resting, delivered := s.delivered + [scratch + r.fragment])
    else if r.kind == kEof || r.kind == kOldRecord then t.(rpc := AtEof(scratch))
    else t.(rpc := Resting, failed := true)
  }

  function ReaderStep(s: State, a: Action): State {
    match a
    case BeginGet => if s.rpc.Resting? then s.(rpc := Checking([])) else s
    case CheckEnd =>
      if !s.rpc.Checking? then s
      else if s.c.Pos() == s.pub then s.(rpc := Resting)
      else s.(rpc := Consuming(s.rpc.scratch))
    case ReadOne => if s.rpc.Consuming? then ReadOneStep(s, s.rpc.scratch) else s
    case NextFile =>
      if !s.rpc.AtEof? then s
      else if s.c.filenum + 1 in s.d then
        s.(c := Cursor(s.c.filenum + 1, 0, 0, 0), rpc := Checking(s.rpc.scratch))
      else s.(rpc := Resting, failed := true)
    case _ => s
  }

  function Step(limit: nat, clock: Clock, s: State, a: Action): State {
    match a
    case BeginGet => ReaderStep(s, a)
    case CheckEnd => ReaderStep(s, a)
    case ReadOne => ReaderStep(s, a)
    case NextFile => ReaderStep(s, a)
    case _ => WriterStep(limit, clock, s, a)
  }

  function Run(limit: nat, clock: Clock, s: State, actions: seq<Action>): State
    decreases |actions|
  {
    if actions == [] then s
    else Step(limit, clock, Run(limit, clock, s, actions[..|actions| - 1]), actions[|actions| - 1])
  }

  // Invariants

  /** What is on disk is the published log. */
  ghost predicate DiskOk(s: State) {
    && LogOk(s.d, s.log) && Near(s.d, s.log.Last(), s.pub)
    && s.pub.filenum in s.d && s.pub.offset <= |s.d[s.pub.filenum]|
    && s.wnum == s.pub.filenum && s.pub.offset <= s.wpos <= |s.d[s.wnum]|
    && s.logicId == s.log.logicBase + |s.log.entries|
  }

  /** The item in hand is stamped with the position at which its Put began. */
  ghost predicate InHand(s: State, from: Position, item: BinlogItem) {
    && Near(s.d, s.log.Last(), from) && from.AtMost(s.pub) && item.logicId == s.logicId + 1
    && item.filenum == from.filenum && item.offset == from.offset
  }

  ghost predicate WriterOk(limit: nat, clock: Clock, s: State) {
    match s.wpc
    case Idle => s.wpos == s.pub.offset
    case Rolling(from, item) =>
      && s.wpos == s.pub.offset && s.wpos > limit && InHand(s, from, item)
      && s.wnum + 1 in s.d && s.d[s.wnum + 1] == []
    case Closed(from, item) =>
      && s.wpos == s.pub.offset && s.wpos > limit && InHand(s, from, item)
      && s.wnum + 1 in s.d && s.d[s.wnum + 1] == [] && s.wnum in s.d && EndsAt(s.d[s.wnum], s.pub)
    case Emitting(from, item, pending) =>
      && InHand(s, from, item)
      && s.wnum in s.d && s.pub.offset <= s.wpos <= |s.d[s.wnum]|
      && s.d[s.wnum][s.pub.offset..s.wpos] + pending == Layout(clock, s.pub.offset, true, ItemBytes(TypeFirst, item))
  }

  /** The reader is inside item e, having put `scratch` together. */
  ghost predicate Midway(d: Directory, e: Entry, c: Cursor, scratch: seq<Byte>) {
    && c.Settled() && c.filenum == e.filenum && e.filenum in d
    && |scratch| < |e.Data()| && scratch == e.Data()[..|scratch|]
    && var left := e.Data()[|scratch|..];
       || (scratch == [] && ItemAt(d[e.filenum], c.offset, true, left, e.end))
       || ItemAt(d[e.filenum], c.offset, false, left, e.end)
  }

  /** The reader is before item e, at the start of a file, where it does not matter what it has put together. */
  ghost predicate Before(d: Directory, e: Entry, c: Cursor) {
    && c.Settled() && c.Pos() == Position(e.filenum, 0) && e.filenum in d && |e.Data()| > 0
    && ItemAt(d[e.filenum], 0, true, e.Data(), e.end)
  }

  ghost predicate ReaderAt(d: Directory, l: Log, pub: Position, i: nat, c: Cursor, rpc: ReaderPc) {
    && i <= |l.entries|
    && match rpc
       case Resting => Between(d, l, i, c, pub)
       case Checking(scratch) => Between(d, l, i, c, pub) && (scratch == [] || c.offset == 0)
       case Consuming(scratch) =>
         || (i < |l.entries| && (Midway(d, l.entries[i], c, scratch) || Before(d, l.entries[i], c)))
         || AtFileEnd(d, l, i, c, pub)
       case AtEof(_) =>
         c.filenum + 1 in d && Between(d, l, i, Cursor(c.filenum + 1, 0, 0, 0), pub)
  }

  ghost predicate ReaderOk(s: State) {
    && !s.failed
    && ReaderAt(s.d, s.log, s.pub, |s.delivered|, s.c, s.rpc)
    && |s.delivered| <= |s.log.entries| && s.delivered == Data(s.log.entries[..|s.delivered|])
  }

  ghost predicate Inv(limit: nat, clock: Clock, s: State) {
    DiskOk(s) && WriterOk(limit, clock, s) && ReaderOk(s)
  }

  // Framing: writes after the published position do not disturb the reader

  lemma {:induction false} NearFrame(d: Directory, d': Directory, last: Position, p: Position, pub: Position)
    requires Near(d, last, p) && p.AtMost(pub) && SameUpTo(d, d', pub)
    ensures Near(d', last, p)
  {
  }

  lemma {:induction false} BetweenFrame(d: Directory, d': Directory, l: Log, i: nat, c: Cursor, pub: Position)
    requires Between(d, l, i, c, pub) && SameUpTo(d, d', pub)
    ensures Between(d', l, i, c, pub)
  {
    NearFrame(d, d', l.At(i), c.Pos(), pub);
  }

  lemma {:induction false} MidwayFrame(d: Directory, d': Directory, e: Entry, c: Cursor, scratch: seq<Byte>, pub: Position)
    requires Midway(d, e, c, scratch) && e.End().AtMost(pub) && SameUpTo(d, d', pub)
    ensures Midway(d', e, c, scratch)
  {
    hide ItemAt, ItemBytes, BlockOffsetOk;
    var left := e.Data()[|scratch|..];
    if e.filenum == pub.filenum {
      PrefixOfPrefix(d[e.filenum], d'[e.filenum], pub.offset, e.end);
      if scratch == [] && ItemAt(d[e.filenum], c.offset, true, left, e.end) {
        ItemFrame(d[e.filenum], d'[e.filenum], c.offset, true, left, e.end);
      } else {
        ItemFrame(d[e.filenum], d'[e.filenum], c.offset, false, left, e.end);
      }
    }
  }

  lemma {:induction false} BeforeFrame(d: Directory, d': Directory, e: Entry, c: Cursor, pub: Position)
    requires Before(d, e, c) && e.End().AtMost(pub) && SameUpTo(d, d', pub)
    ensures Before(d', e, c)
  {
    hide ItemAt, ItemBytes, BlockOffsetOk;
    if e.filenum == pub.filenum {
      ItemBounds(d[e.filenum], 0, true, e.Data(), e.end);
      PrefixOfPrefix(d[e.filenum], d'[e.filenum], pub.offset, e.end);
      ItemFrame(d[e.filenum], d'[e.filenum], 0, true, e.Data(), e.end);
    }
  }

  lemma {:induction false} ReaderFrame(d: Directory, d': Directory, l: Log, pub: Position, i: nat, c: Cursor, rpc: ReaderPc)
    requires LogOk(d, l) && l.Last().AtMost(pub) && SameUpTo(d, d', pub)
    requires ReaderAt(d, l, pub, i, c, rpc)
    ensures ReaderAt(d', l, pub, i, c, rpc)
  {
    hide LogOk, Between, Midway, Before, SameUpTo, AtFileEnd;
    match rpc
    case Resting => BetweenFrame(d, d', l, i, c, pub);
    case Checking(_) => BetweenFrame(d, d', l, i, c, pub);
    case Consuming(scratch) =>
      if i < |l.entries| && Midway(d, l.entries[i], c, scratch) {
        PositionsIncrease(d, l, i + 1, |l.entries|);
        MidwayFrame(d, d', l.entries[i], c, scratch, pub);
      } else if i < |l.entries| && Before(d, l.entries[i], c) {
        PositionsIncrease(d, l, i + 1, |l.entries|);
        BeforeFrame(d, d', l.entries[i], c, pub);
      } else {
        FileEndFrame(d, d', l, i, c, pub);
      }
    case AtEof(_) =>
      BetweenFrame(d, d', l, i, Cursor(c.filenum + 1, 0, 0, 0), pub);
      NextFileStays(d, d', l, i, c, pub);
  }

  lemma {:induction false} NextFileStays(d: Directory, d': Directory, l: Log, i: nat, c: Cursor, pub: Position)
    requires Between(d, l, i, Cursor(c.filenum + 1, 0, 0, 0), pub) && c.filenum + 1 in d && SameUpTo(d, d', pub)
    ensures c.filenum + 1 in d' && c.filenum < pub.filenum
  {
  }

  lemma {:induction false} FileEndFrame(d: Directory, d': Directory, l: Log, i: nat, c: Cursor, pub: Position)
    requires AtFileEnd(d, l, i, c, pub) && SameUpTo(d, d', pub)
    ensures AtFileEnd(d', l, i, c, pub)
  {
    hide Fades;
    NextFileStays(d, d', l, i, c, pub);
    BetweenFrame(d, d', l, i, Cursor(c.filenum + 1, 0, 0, 0), pub);
  }

  /** A later published position and one more entry leave the reader where it is. */
  lemma {:induction false} ReaderStays(d: Directory, l: Log, l': Log, pub: Position, pub': Position, i: nat, c: Cursor, rpc: ReaderPc)
    requires ReaderAt(d, l, pub, i, c, rpc) && pub.AtMost(pub')
    requires l' == l || (|l'.entries| == |l.entries| + 1 && l' == l.Append(l'.entries[|l.entries|]))
    ensures ReaderAt(d, l', pub', i, c, rpc)
  {
    hide Midway, Before, Near, BlockOffsetOk, Fades;
    assert l'.At(i) == l.At(i);
  }

  // Every step keeps the invariant

  lemma {:induction false} StartOk(limit: nat, clock: Clock, dir: Directory)
    ensures Inv(limit, clock, Start(dir))
  {
  }

  lemma {:induction false} BeginPutKeeps(limit: nat, clock: Clock, s: State, content: seq<Byte>, now: nat)
    requires Inv(limit, clock, s) && s.wpc.Idle?
    ensures Inv(limit, clock, BeginPutStep(limit, clock, s, content, now))
  {
    hide Layout, ItemBytes, LogOk, ReaderAt;
    var t := BeginPutStep(limit, clock, s, content, now);
    if s.wpos > limit {
      assert SameUpTo(s.d, t.d, s.pub);
      LogFrame(s.d, t.d, s.log, s.pub);
      ReaderFrame(s.d, t.d, s.log, s.pub, |s.delivered|, s.c, s.rpc);
    } else {
      assert s.d[s.wnum][s.pub.offset..s.wpos] == [];
    }
  }

  /** The old file is cut when it is closed, or it ends at the published position for the reader. */
  predicate Clean(s: State) {
    s.wpos < s.mapEnd || (s.wnum in s.d && EndsAt(s.d[s.wnum], s.pub))
  }

  /** Closing the old file keeps the invariant exactly if it is clean. */
  lemma {:induction false} CloseOldExact(limit: nat, clock: Clock, s: State)
    requires Inv(limit, clock, s) && s.wpc.Rolling?
    ensures Inv(limit, clock, WriterStep(limit, clock, s, CloseOld)) <==> Clean(s)
  {
    hide Layout, ItemBytes, LogOk, ReaderAt, EndsAt;
    var t := WriterStep(limit, clock, s, CloseOld);
    CutEndsFile(s.d[s.wnum], s.pub);
    assert SameUpTo(s.d, t.d, s.pub);
    LogFrame(s.d, t.d, s.log, s.pub);
    ReaderFrame(s.d, t.d, s.log, s.pub, |s.delivered|, s.c, s.rpc);
    NearFrame(s.d, t.d, s.log.Last(), s.wpc.from, s.pub);
    NearFrame(s.d, t.d, s.log.Last(), s.pub, s.pub);
  }

  lemma {:induction false} PublishRollKeeps(limit: nat, clock: Clock, s: State)
    requires Inv(limit, clock, s) && s.wpc.Closed?
    ensures Inv(limit, clock, WriterStep(limit, clock, s, PublishRoll))
  {
    hide Layout, ItemBytes, LogOk, ReaderAt;
    var t := WriterStep(limit, clock, s, PublishRoll);
    ReaderStays(s.d, s.log, s.log, s.pub, t.pub, |s.delivered|, s.c, s.rpc);
    assert t.d[t.wnum][t.pub.offset..t.wpos] == [];
  }

  lemma {:induction false} EmitKeeps(limit: nat, clock: Clock, s: State, count: nat, slack: nat)
    requires Inv(limit, clock, s) && s.wpc.Emitting?
    ensures Inv(limit, clock, EmitStep(s, count, slack))
  {
    hide Layout, ItemBytes, LogOk, ReaderAt, EndsAt, Extended, Overwritten;
    var t := EmitStep(s, count, slack);
    if 0 < count <= |s.wpc.pending| {
      EmittedBytes(s.d[s.wnum], t.d[t.wnum], s.pub.offset, s.wpos, s.wpc.pending, count, t.mapEnd);
      assert SameUpTo(s.d, t.d, s.pub);
      LogFrame(s.d, t.d, s.log, s.pub);
      ReaderFrame(s.d, t.d, s.log, s.pub, |s.delivered|, s.c, s.rpc);
      NearFrame(s.d, t.d, s.log.Last(), s.wpc.from, s.pub);
      NearFrame(s.d, t.d, s.log.Last(), s.pub, s.pub);
    }
  }

  lemma {:induction false} EmittedBytes(f: seq<Byte>, g: seq<Byte>, p: nat, w: nat, pending: seq<Byte>, count: nat, end: nat)
    requires p <= w <= |f| && count <= |pending|
    requires g == Extended(Overwritten(f, w, pending[..count]), end)
    ensures w + count <= |g| && g[..p] == f[..p]
    ensures g[p..w + count] + pending[count..] == f[p..w] + pending
  {
    var h := Overwritten(f, w, pending[..count]);
    assert h[..w + count] == f[..w] + pending[..count];
    assert g[..w + count] == g[..|h|][..w + count] == h[..w + count];
    assert g[p..w + count] == g[..w + count][p..];
    assert (f[..w] + pending[..count])[p..] == f[p..w] + pending[..count];
    assert pending == pending[..count] + pending[count..];
    assert g[..p] == g[..w + count][..p];
  }

  lemma {:induction false} PublishKeeps(limit: nat, clock: Clock, s: State)
    requires Inv(limit, clock, s) && s.wpc.Emitting? && s.wpc.pending == []
    ensures Inv(limit, clock, PublishStep(s))
  {
    hide Layout, ItemBytes, LogOk, ReaderAt, ItemAt;
    var t := PublishStep(s);
    var e := t.log.entries[|s.log.entries|];
    var f := s.d[s.wnum];
    assert f[s.pub.offset..s.wpos] == Layout(clock, s.pub.offset, true, e.Data());
    LayoutIsItem(f, clock, s.pub.offset, true, e.Data(), s.wpos);
    LogExtends(s.d, s.log, e);
    ReaderStays(s.d, s.log, t.log, s.pub, t.pub, |s.delivered|, s.c, s.rpc);
    assert t.log.entries[..|s.delivered|] == s.log.entries[..|s.delivered|];
  }

  lemma {:induction false} CrashKeeps(limit: nat, clock: Clock, s: State)
    requires Inv(limit, clock, s)
    ensures Inv(limit, clock, WriterStep(limit, clock, s, Crash))
  {
    PositionsIncrease(s.d, s.log, |s.delivered|, |s.log.entries|);
  }

  lemma {:induction false} CheckEndKeeps(limit: nat, clock: Clock, s: State)
    requires Inv(limit, clock, s) && s.rpc.Checking?
    ensures Inv(limit, clock, ReaderStep(s, CheckEnd))
    ensures s.c.Pos() == s.pub ==> |s.delivered| == |s.log.entries|
  {
    hide LogOk, Near, ItemAt, ItemBytes, Layout, BlockOffsetOk, Fades;
    var i := |s.delivered|;
    NextStep(s.d, s.log, i, s.c, s.pub);
    if s.c.Pos() != s.pub && i < |s.log.entries| && !AtFileEnd(s.d, s.log, i, s.c, s.pub) {
      var e := s.log.entries[i];
      assert e.Data()[0..] == e.Data();
      if s.rpc.scratch == [] {
        assert Midway(s.d, e, s.c, []);
      } else {
        assert Before(s.d, e, s.c);
      }
    }
  }

  /** Inside an item every record read belongs to it, and the last one completes it. */
  lemma {:induction false} MidwayRead(d: Directory, e: Entry, c: Cursor, scratch: seq<Byte>)
    requires Midway(d, e, c, scratch)
    ensures e.filenum in d && c.filenum in d
    ensures var r := ReadPhysical(d[c.filenum], c);
            var got := if r.kind in {kFullType, kFirstType} then r.fragment else scratch + r.fragment;
            if r.kind in {kFullType, kLastType} then
              got == e.Data() && r.cursor.Settled() && r.cursor.Pos() == e.End()
            else
              r.kind in {kFirstType, kMiddleType} && Midway(d, e, r.cursor, got)
  {
    hide ItemAt, ItemBytes, ReadPhysical, BlockOffsetOk;
    var left := e.Data()[|scratch|..];
    var begin := scratch == [] && ItemAt(d[e.filenum], c.offset, true, left, e.end);
    ReadsFragment(d[e.filenum], c, begin, left, e.end);
    var r := ReadPhysical(d[c.filenum], c);
    var n := |r.fragment|;
    assert scratch + r.fragment == e.Data()[..|scratch| + n];
    assert left[n..] == e.Data()[|scratch| + n..];
    assert e.Data()[..|e.Data()|] == e.Data();
  }

  /** Before an item at the start of a file, what was put together is thrown away with the first record. */
  lemma {:induction false} BeforeRead(d: Directory, e: Entry, c: Cursor)
    requires Before(d, e, c)
    ensures Midway(d, e, c, []) && c.filenum in d && ReadPhysical(d[c.filenum], c).kind in {kFullType, kFirstType}
  {
    hide ItemAt, ItemBytes, ReadPhysical, BlockOffsetOk, Space;
    assert e.Data()[0..] == e.Data();
    FileStart();
    ReadsFragment(d[e.filenum], c, true, e.Data(), e.end);
  }

  lemma {:induction false} ReadOneKeeps(limit: nat, clock: Clock, s: State)
    requires Inv(limit, clock, s) && s.rpc.Consuming?
    ensures Inv(limit, clock, ReadOneStep(s, s.rpc.scratch))
  {
    hide LogOk, Near, ItemAt, ItemBytes, Layout, BlockOffsetOk, ReadPhysical, Midway, Before, Between, EndsAt;
    var i, scratch := |s.delivered|, s.rpc.scratch;
    if i < |s.log.entries| && (Midway(s.d, s.log.entries[i], s.c, scratch) || Before(s.d, s.log.entries[i], s.c)) {
      var e := s.log.entries[i];
      if Midway(s.d, e, s.c, scratch) {
        MidwayRead(s.d, e, s.c, scratch);
      } else {
        BeforeRead(s.d, e, s.c);
        MidwayRead(s.d, e, s.c, []);
      }
      var r := ReadPhysical(s.d[s.c.filenum], s.c);
      if r.kind in {kFullType, kLastType} {
        AfterItem(s.d, s.log, i, r.cursor, s.pub);
        assert s.log.entries[..i + 1] == s.log.entries[..i] + [e];
      }
    } else {
      ReadKeepsFile(s.d[s.c.filenum], s.c);
    }
  }

  lemma {:induction false} ReadKeepsFile(f: seq<Byte>, c: Cursor)
    ensures ReadPhysical(f, c).cursor.filenum == c.filenum
  {
  }

  /** Every step keeps the invariant, but for the closing of a file that is not clean. */
  lemma {:induction false} StepExact(limit: nat, clock: Clock, s: State, a: Action)
    requires Inv(limit, clock, s)
    ensures Inv(limit, clock, Step(limit, clock, s, a)) <==> (a == CloseOld && s.wpc.Rolling? ==> Clean(s))
  {
    hide LogOk, Near, ItemAt, ItemBytes, BlockOffsetOk, ReadPhysical, Midway, Before, Between, Layout, EndsAt, Clean;
    match a
    case BeginPut(content, now) => if s.wpc.Idle? { BeginPutKeeps(limit, clock, s, content, now); }
    case CloseOld => if s.wpc.Rolling? { CloseOldExact(limit, clock, s); }
    case PublishRoll => if s.wpc.Closed? { PublishRollKeeps(limit, clock, s); }
    case Emit(count, slack) => if s.wpc.Emitting? { EmitKeeps(limit, clock, s, count, slack); }
    case Publish => if s.wpc.Emitting? && s.wpc.pending == [] { PublishKeeps(limit, clock, s); }
    case Crash => CrashKeeps(limit, clock, s);
    case BeginGet =>
    case CheckEnd => if s.rpc.Checking? { CheckEndKeeps(limit, clock, s); }
    case ReadOne => if s.rpc.Consuming? { ReadOneKeeps(limit, clock, s); }
    case NextFile =>
  }

  // Whole runs

  /** The k-th action does not close a file that is not clean. */
  ghost predicate ClosesClean(limit: nat, clock: Clock, s: State, actions: seq<Action>, k: nat)
    requires k < |actions|
  {
    var t := Run(limit, clock, s, actions[..k]);
    actions[k] == CloseOld && t.wpc.Rolling? ==> Clean(t)
  }

  ghost predicate CleanRun(limit: nat, clock: Clock, s: State, actions: seq<Action>) {
    forall k: nat | k < |actions| :: ClosesClean(limit, clock, s, actions, k)
  }

  lemma {:induction false} NextState(limit: nat, clock: Clock, s: State, actions: seq<Action>, k: nat)
    requires k < |actions|
    ensures Run(limit, clock, s, actions[..k + 1]) == Step(limit, clock, Run(limit, clock, s, actions[..k]), actions[k])
  {
    hide Step;
    assert actions[..k + 1][..k] == actions[..k];
  }

  lemma {:induction false} RunStaysOk(limit: nat, clock: Clock, s: State, actions: seq<Action>, k: nat)
    requires Inv(limit, clock, s) && CleanRun(limit, clock, s, actions) && k <= |actions|
    ensures Inv(limit, clock, Run(limit, clock, s, actions[..k]))
    decreases k
  {
    hide Inv, Step, Clean;
    if k > 0 {
      RunStaysOk(limit, clock, s, actions, k - 1);
      NextState(limit, clock, s, actions, k - 1);
      assert ClosesClean(limit, clock, s, actions, k - 1);
      StepExact(limit, clock, Run(limit, clock, s, actions[..k - 1]), actions[k - 1]);
    }
  }

  /** The invariant holds all along a run if and only if every file that it closes is clean. */
  lemma {:induction false} RunExact(limit: nat, clock: Clock, s: State, actions: seq<Action>)
    requires Inv(limit, clock, s)
    ensures CleanRun(limit, clock, s, actions)
            <==> forall k: nat | k <= |actions| :: Inv(limit, clock, Run(limit, clock, s, actions[..k]))
  {
    hide Inv, Step, Clean;
    if CleanRun(limit, clock, s, actions) {
      forall k: nat | k <= |actions|
        ensures Inv(limit, clock, Run(limit, clock, s, actions[..k]))
      {
        RunStaysOk(limit, clock, s, actions, k);
      }
    }
    if forall k: nat | k <= |actions| :: Inv(limit, clock, Run(limit, clock, s, actions[..k])) {
      forall k: nat | k < |actions|
        ensures ClosesClean(limit, clock, s, actions, k)
      {
        NextState(limit, clock, s, actions, k);
        assert Inv(limit, clock, Run(limit, clock, s, actions[..k])) && Inv(limit, clock, Run(limit, clock, s, actions[..k + 1]));
        StepExact(limit, clock, Run(limit, clock, s, actions[..k]), actions[k]);
      }
    }
  }

  /** What the reader has delivered is a prefix of the published items, and it has all of them at the end. */
  ghost predicate NotTorn(s: State) {
    && !s.failed
    && |s.delivered| <= |s.log.entries|
    && s.delivered == Data(s.log.entries[..|s.delivered|])
    && LogOk(s.d, s.log) && Near(s.d, s.log.Last(), s.pub)
    && (s.rpc.Checking? && s.c.Pos() == s.pub ==> |s.delivered| == |s.log.entries|)
  }

  // What was asked for

  /** What a put was asked to write, and the time of the asking. */
  datatype Request = Request(content: seq<Byte>, now: nat)

  /** Every byte of the item in hand is written, so that it can be published. */
  predicate Written(s: State) {
    s.wpc.Emitting? && s.wpc.pending == []
  }

  /** The put in progress after some actions: the first asked for since the last one was published or lost in a crash. */
  function InProgress(limit: nat, clock: Clock, s: State, actions: seq<Action>): Option<Request>
    decreases |actions|
  {
    if actions == [] then None
    else
      var past, a := actions[..|actions| - 1], actions[|actions| - 1];
      var before := InProgress(limit, clock, s, past);
      match a
      case BeginPut(content, now) => if before.None? then Some(Request(content, now)) else before
      case Publish => if Written(Run(limit, clock, s, past)) then None else before
      case Crash => None
      case _ => before
  }

  /** The puts that some actions publish, in order. */
  function Published(limit: nat, clock: Clock, s: State, actions: seq<Action>): seq<Request>
    decreases |actions|
  {
    if actions == [] then []
    else
      var past, a := actions[..|actions| - 1], actions[|actions| - 1];
      var r := InProgress(limit, clock, s, past);
      Published(limit, clock, s, past)
      + if a == Publish && Written(Run(limit, clock, s, past)) && r.Some? then [r.value] else []
  }

  /** The item of a request, stamped with its number and with the position at which its put began. */
  function Stamped(r: Request, from: Position, logicId: nat): BinlogItem {
    BinlogItem(r.now, 0, logicId, from.filenum, from.offset, r.content)
  }

  ghost predicate InHandFor(s: State, r: Option<Request>) {
    if r.None? then s.wpc.Idle? else !s.wpc.Idle? && s.wpc.item == Stamped(r.value, s.wpc.from, |s.log.entries| + 1)
  }

  ghost predicate LogFor(s: State, rs: seq<Request>) {
    && |rs| == |s.log.entries|
    && forall k | 0 <= k < |rs| :: s.log.entries[k].item == Stamped(rs[k], s.log.entries[k].from, k + 1)
  }

  lemma {:induction false} ReaderLeavesLog(s: State, a: Action)
    ensures ReaderStep(s, a).wpc == s.wpc && ReaderStep(s, a).log == s.log
  {
    hide ReadPhysical;
  }

  /** A read fails exactly at a record that is none, or at the end of a file that no other follows. */
  lemma {:induction false} FailsExactly(limit: nat, clock: Clock, s: State, a: Action)
    ensures Step(limit, clock, s, a).failed <==>
              || s.failed
              || (a == NextFile && s.rpc.AtEof? && s.c.filenum + 1 !in s.d)
              || (a == ReadOne && s.rpc.Consuming?
                  && ReadPhysical(if s.c.filenum in s.d then s.d[s.c.filenum] else [], s.c).kind !in {1, 2, 3, 4, 5, 7})
  {
    hide ReadPhysical, Extended, Overwritten, Layout;
  }

  lemma {:induction false} RequestStep(limit: nat, clock: Clock, s: State, a: Action, r: Option<Request>, rs: seq<Request>)
    requires Inv(limit, clock, s) && s.log.logicBase == 0 && InHandFor(s, r) && LogFor(s, rs)
    ensures var t := Step(limit, clock, s, a);
            && t.log.logicBase == 0
            && InHandFor(t, match a
                            case BeginPut(content, now) => if r.None? then Some(Request(content, now)) else r
                            case Publish => if Written(s) then None else r
                            case Crash => None
                            case _ => r)
            && LogFor(t, rs + if a == Publish && Written(s) && r.Some? then [r.value] else [])
  {
    hide LogOk, Near, ItemBytes, Layout, ReaderStep, ReaderAt, EndsAt, ItemAt;
    ReaderLeavesLog(s, a);
  }

  lemma {:induction false} RequestsKept(limit: nat, clock: Clock, dir: Directory, actions: seq<Action>, k: nat)
    requires CleanRun(limit, clock, Start(dir), actions) && k <= |actions|
    ensures var t := Run(limit, clock, Start(dir), actions[..k]);
            && t.log.logicBase == 0
            && InHandFor(t, InProgress(limit, clock, Start(dir), actions[..k]))
            && LogFor(t, Published(limit, clock, Start(dir), actions[..k]))
    decreases k
  {
    hide Step, Inv, CleanRun, InHandFor, LogFor, Written;
    var s := Start(dir);
    if k == 0 {
      NothingAsked(limit, clock, dir);
    } else {
      assert actions[..k][..k - 1] == actions[..k - 1];
      RequestsKept(limit, clock, dir, actions, k - 1);
      StartOk(limit, clock, dir);
      RunStaysOk(limit, clock, s, actions, k - 1);
      RequestStep(limit, clock, Run(limit, clock, s, actions[..k - 1]), actions[k - 1],
                  InProgress(limit, clock, s, actions[..k - 1]), Published(limit, clock, s, actions[..k - 1]));
    }
  }

  lemma {:induction false} NothingAsked(limit: nat, clock: Clock, dir: Directory)
    ensures var t := Run(limit, clock, Start(dir), []);
            t.log.logicBase == 0 && InHandFor(t, None) && LogFor(t, [])
  {
  }

  function ContentsOf(rs: seq<Request>): (s: seq<seq<Byte>>)
    ensures |s| == |rs|
  {
    seq(|rs|, k requires 0 <= k < |rs| => rs[k].content)
  }

  /** What was delivered is what the first requests asked for, byte by byte, with their times and numbers. */
  ghost predicate Delivers(s: State, rs: seq<Request>) {
    && |s.delivered| <= |rs| == |s.log.entries|
    && Carries(s.delivered, ContentsOf(rs[..|s.delivered|]))
    && forall k | 0 <= k < |s.delivered| ::
         s.delivered[k] == ItemBytes(TypeFirst, Stamped(rs[k], s.log.entries[k].from, k + 1))
  }

  lemma {:induction false} DeliveredAsAsked(s: State, rs: seq<Request>)
    requires |s.delivered| <= |s.log.entries| && s.delivered == Data(s.log.entries[..|s.delivered|]) && LogFor(s, rs)
    ensures Delivers(s, rs)
  {
    hide ItemBytes;
    var es := s.log.entries[..|s.delivered|];
    EntriesCarryContents(es);
    forall k | 0 <= k < |s.delivered|
      ensures s.delivered[k] == ItemBytes(TypeFirst, Stamped(rs[k], s.log.entries[k].from, k + 1))
      ensures Contents(es)[k] == ContentsOf(rs[..|s.delivered|])[k]
    {
      assert s.delivered[k] == es[k].Data() && es[k] == s.log.entries[k];
    }
  }

  /**
   No torn reads: in every interleaving of writer steps, reader steps and crashes that closes only clean
   files, what the reader has delivered is a prefix of the published items, whole and in order, and no
   read fails. These items are the ones whose puts the actions asked for and published. When the reader
   finds itself at the end, every published item has been delivered. What is on disk is always the
   published log, and its producer position is where a restart goes on.
   */
  lemma {:induction false} NoTornReads(limit: nat, clock: Clock, dir: Directory, actions: seq<Action>)
    requires CleanRun(limit, clock, Start(dir), actions)
    ensures NotTorn(Run(limit, clock, Start(dir), actions))
    ensures Delivers(Run(limit, clock, Start(dir), actions), Published(limit, clock, Start(dir), actions))
  {
    hide CleanRun, Start, LogOk, Near, Between, Fades, Layout, ItemBytes, Published, InProgress, Delivers;
    var s := Run(limit, clock, Start(dir), actions);
    StartOk(limit, clock, dir);
    RunStaysOk(limit, clock, Start(dir), actions, |actions|);
    assert actions[..|actions|] == actions;
    if s.rpc.Checking? {
      CheckEndKeeps(limit, clock, s);
    }
    RequestsKept(limit, clock, dir, actions, |actions|);
    DeliveredAsAsked(s, Published(limit, clock, Start(dir), actions));
  }

  // Runs in which every crash finds no part of an unpublished item written

  ghost predicate QuietAt(limit: nat, clock: Clock, s: State, actions: seq<Action>, k: nat)
    requires k < |actions|
  {
    var t := Run(limit, clock, s, actions[..k]);
    actions[k] == Crash ==> t.wpos == t.pub.offset
  }

  ghost predicate QuietRun(limit: nat, clock: Clock, s: State, actions: seq<Action>) {
    forall k: nat | k < |actions| :: QuietAt(limit, clock, s, actions, k)
  }

  predicate ZeroTail(s: State) {
    s.wnum in s.d && s.wpos <= |s.d[s.wnum]| && ZerosFrom(s.d[s.wnum], s.wpos)
  }

  lemma {:induction false} ZeroTailKept(limit: nat, clock: Clock, s: State, a: Action)
    requires Inv(limit, clock, s) && ZeroTail(s) && (a == Crash ==> s.wpos == s.pub.offset)
    ensures ZeroTail(Step(limit, clock, s, a)) && (s.wpc.Rolling? ==> Clean(s))
  {
    hide LogOk, Near, ItemBytes, ReaderAt, Layout, ReadPhysical, EndsAt;
    if s.wpc.Rolling? {
      ZeroTailEnds(s.d[s.wnum], s.pub);
    }
  }

  lemma {:induction false} QuietStays(limit: nat, clock: Clock, s: State, actions: seq<Action>, k: nat)
    requires Inv(limit, clock, s) && ZeroTail(s) && QuietRun(limit, clock, s, actions) && k <= |actions|
    ensures var t := Run(limit, clock, s, actions[..k]); Inv(limit, clock, t) && ZeroTail(t)
    ensures k < |actions| ==> ClosesClean(limit, clock, s, actions, k)
    decreases k
  {
    hide Inv, Step, Clean, ZeroTail;
    if k > 0 {
      QuietStays(limit, clock, s, actions, k - 1);
      NextState(limit, clock, s, actions, k - 1);
      assert QuietAt(limit, clock, s, actions, k - 1);
      StepExact(limit, clock, Run(limit, clock, s, actions[..k - 1]), actions[k - 1]);
      ZeroTailKept(limit, clock, Run(limit, clock, s, actions[..k - 1]), actions[k - 1]);
    }
    if k < |actions| {
      assert QuietAt(limit, clock, s, actions, k);
      ZeroTailKept(limit, clock, Run(limit, clock, s, actions[..k]), actions[k]);
    }
  }

  /** Without crashes, and with crashes between puts only, no read is torn. */
  lemma {:induction false} QuietRunsNotTorn(limit: nat, clock: Clock, dir: Directory, actions: seq<Action>)
    requires QuietRun(limit, clock, Start(dir), actions)
    ensures NotTorn(Run(limit, clock, Start(dir), actions))
    ensures Delivers(Run(limit, clock, Start(dir), actions), Published(limit, clock, Start(dir), actions))
  {
    hide Inv, Step, Clean, QuietRun, NotTorn, ClosesClean, Delivers, Published;
    StartOk(limit, clock, dir);
    forall k: nat | k < |actions|
      ensures ClosesClean(limit, clock, Start(dir), actions, k)
    {
      QuietStays(limit, clock, Start(dir), actions, k);
    }
    NoTornReads(limit, clock, dir, actions);
  }

  lemma {:induction false} CrashFreeRunsNotTorn(limit: nat, clock: Clock, dir: Directory, actions: seq<Action>)
    requires Crash !in actions
    ensures NotTorn(Run(limit, clock, Start(dir), actions))
    ensures Delivers(Run(limit, clock, Start(dir), actions), Published(limit, clock, Start(dir), actions))
  {
    hide Step, NotTorn, Start, Delivers, Published;
    QuietRunsNotTorn(limit, clock, dir, actions);
  }

  // What goes wrong at a file that is not clean

  lemma {:induction false} RunAppends(limit: nat, clock: Clock, s: State, a: seq<Action>, b: seq<Action>)
    ensures Run(limit, clock, s, a + b) == Run(limit, clock, Run(limit, clock, s, a), b)
    decreases |b|
  {
    hide Step;
    if b == [] {
      assert a + b == a;
    } else {
      assert (a + b)[..|a + b| - 1] == a + b[..|b| - 1];
      RunAppends(limit, clock, s, a, b[..|b| - 1]);
    }
  }

  /** Where a file does not fade, reading on delivers something or fails. */
  lemma {:induction false} ReadsOn(limit: nat, clock: Clock, s: State) returns (actions: seq<Action>)
    requires s.rpc.Consuming? && s.c.filenum in s.d && !Fades(s.d[s.c.filenum], s.c)
    ensures forall a | a in actions :: a == ReadOne
    ensures var t := Run(limit, clock, s, actions);
            t.log == s.log && (t.failed || |t.delivered| == |s.delivered| + 1)
    decreases LeftToRead(s.d[s.c.filenum], s.c)
  {
    hide ReadPhysical;
    var t := Step(limit, clock, s, ReadOne);
    assert [ReadOne][..0] == [] && Run(limit, clock, s, [ReadOne]) == t;
    RecordMoves(s.d[s.c.filenum], s.c);
    ReadKeepsFile(s.d[s.c.filenum], s.c);
    if ReadPhysical(s.d[s.c.filenum], s.c).kind in {kFirstType, kMiddleType} {
      var rest := ReadsOn(limit, clock, t);
      actions := [ReadOne] + rest;
      RunAppends(limit, clock, s, [ReadOne], rest);
    } else {
      actions := [ReadOne];
    }
  }

  // A reader left alone catches up

  function FilesLeft(s: State): nat {
    if s.c.filenum <= s.pub.filenum then s.pub.filenum - s.c.filenum else 0
  }

  function PcRank(rpc: ReaderPc): nat {
    match rpc
    case Resting => 3
    case Checking(_) => 2
    case Consuming(_) => 1
    case AtEof(_) => 0
  }

  function BytesLeft(s: State): nat {
    if s.c.filenum in s.d then LeftToRead(s.d[s.c.filenum], s.c) else 0
  }

  function NextRead(rpc: ReaderPc): Action {
    match rpc
    case Resting => BeginGet
    case Checking(_) => CheckEnd
    case Consuming(_) => ReadOne
    case AtEof(_) => NextFile
  }

  /** The same state but for the reader. */
  predicate OnlyReads(s: State, t: State) {
    t == s.(c := t.c, rpc := t.rpc, delivered := t.delivered, failed := t.failed)
  }

  lemma {:induction false} ReaderProgress(limit: nat, clock: Clock, s: State)
    requires Inv(limit, clock, s) && !(s.rpc.Resting? && s.c.Pos() == s.pub)
    ensures var t := Step(limit, clock, s, NextRead(s.rpc));
            && Inv(limit, clock, t) && OnlyReads(s, t) && |t.delivered| >= |s.delivered|
            && (|t.delivered| > |s.delivered| || (t.rpc.Resting? && t.c.Pos() == t.pub) || Nearer(s, t))
  {
    hide LogOk, Near, ItemBytes, Layout, ReadPhysical, Fades, Midway, Before, BlockOffsetOk;
    StepExact(limit, clock, s, NextRead(s.rpc));
    ReaderNotAhead(limit, clock, s);
    if s.rpc.Consuming? && s.c.filenum in s.d {
      RecordMoves(s.d[s.c.filenum], s.c);
      ReadKeepsFile(s.d[s.c.filenum], s.c);
    }
  }

  /** Without a new delivery: fewer files, or a later step in the same file, or fewer bytes of it. */
  predicate Nearer(s: State, t: State) {
    && |t.delivered| == |s.delivered|
    && (|| FilesLeft(t) < FilesLeft(s)
        || (&& FilesLeft(t) == FilesLeft(s)
            && (|| PcRank(t.rpc) < PcRank(s.rpc)
                || (PcRank(t.rpc) == PcRank(s.rpc) && BytesLeft(t) < BytesLeft(s)))))
  }

  lemma {:induction false} ReaderNotAhead(limit: nat, clock: Clock, s: State)
    requires Inv(limit, clock, s)
    ensures s.c.filenum <= s.pub.filenum && (s.rpc.AtEof? ==> s.c.filenum < s.pub.filenum)
    ensures s.rpc.Consuming? ==> s.c.filenum in s.d
  {
    hide LogOk, Near, ItemBytes, Layout, Fades, ItemAt, BlockOffsetOk;
    var i := |s.delivered|;
    if i < |s.log.entries| {
      PositionsIncrease(s.d, s.log, i + 1, |s.log.entries|);
    }
    LastAtMost(s.d, s.log.Last(), s.pub);
  }

  lemma {:induction false} LastAtMost(d: Directory, last: Position, p: Position)
    requires Near(d, last, p)
    ensures last.AtMost(p)
  {
  }

  lemma {:induction false} AtEndHasAll(limit: nat, clock: Clock, s: State)
    requires Inv(limit, clock, s) && s.rpc.Resting? && s.c.Pos() == s.pub
    ensures |s.delivered| == |s.log.entries| && s.delivered == Data(s.log.entries)
  {
    hide LogOk, Near, ItemBytes, Layout, Fades, ItemAt, BlockOffsetOk;
    NextStep(s.d, s.log, |s.delivered|, s.c, s.pub);
    assert s.log.entries[..|s.log.entries|] == s.log.entries;
  }

  /** While the writer pauses, in whatever state, the reader comes to have all the published items. */
  lemma {:induction false} CatchesUp(limit: nat, clock: Clock, s: State) returns (actions: seq<Action>)
    requires Inv(limit, clock, s)
    ensures forall a | a in actions :: a in {BeginGet, CheckEnd, ReadOne, NextFile}
    ensures var t := Run(limit, clock, s, actions);
            && Inv(limit, clock, t) && OnlyReads(s, t)
            && t.rpc.Resting? && t.c.Pos() == t.pub && t.delivered == Data(t.log.entries)
    decreases |s.log.entries| - |s.delivered|, !(s.rpc.Resting? && s.c.Pos() == s.pub), FilesLeft(s), PcRank(s.rpc), BytesLeft(s)
  {
    hide Inv, Step, FilesLeft, PcRank, BytesLeft;
    if s.rpc.Resting? && s.c.Pos() == s.pub {
      AtEndHasAll(limit, clock, s);
      actions := [];
    } else {
      var a := NextRead(s.rpc);
      var t := Step(limit, clock, s, a);
      ReaderProgress(limit, clock, s);
      DeliveredFew(limit, clock, s);
      DeliveredFew(limit, clock, t);
      var rest := CatchesUp(limit, clock, t);
      actions := [a] + rest;
      assert [a][..0] == [] && Run(limit, clock, s, [a]) == t;
      RunAppends(limit, clock, s, [a], rest);
    }
  }

  lemma {:induction false} DeliveredFew(limit: nat, clock: Clock, s: State)
    requires Inv(limit, clock, s)
    ensures |s.delivered| <= |s.log.entries|
  {
  }

  /**
   From every state in which a roll is about to close a file that is not clean, there is a way on in which
   the reader fails or delivers an item that was never published.
   */
  lemma {:induction false} UncleanRollTears(limit: nat, clock: Clock, s: State) returns (actions: seq<Action>)
    requires Inv(limit, clock, s) && s.wpc.Rolling? && !Clean(s)
    ensures Crash !in actions && !NotTorn(Run(limit, clock, s, actions))
  {
    hide Inv, Step;
    var before := CatchesUp(limit, clock, s);
    var t := Run(limit, clock, s, before);
    var after := CaughtUpTears(limit, clock, t);
    actions := before + after;
    RunAppends(limit, clock, s, before, after);
  }

  lemma {:induction false} CaughtUpTears(limit: nat, clock: Clock, s: State) returns (actions: seq<Action>)
    requires Inv(limit, clock, s) && s.wpc.Rolling? && !Clean(s)
    requires s.rpc.Resting? && s.c.Pos() == s.pub && s.delivered == Data(s.log.entries)
    ensures Crash !in actions
    ensures var t := Run(limit, clock, s, actions);
            t.log == s.log && (t.failed || |t.delivered| > |t.log.entries|)
  {
    hide LogOk, Near, ItemBytes, Layout, Fades, ItemAt, BlockOffsetOk, EmitStep, ReadOneStep, BeginPutStep, Midway, Before;
    var a := Step(limit, clock, s, CloseOld);
    var b := Step(limit, clock, a, PublishRoll);
    var c := Step(limit, clock, b, BeginGet);
    var e := Step(limit, clock, c, CheckEnd);
    SettledReads(s.d[s.wnum], s.c);
    assert e.rpc == Consuming([]) && e.d == s.d && e.c == s.c && e.delivered == s.delivered && e.log == s.log;
    FourSteps(limit, clock, s, CloseOld, PublishRoll, BeginGet, CheckEnd);
    var rest := ReadsOn(limit, clock, e);
    actions := [CloseOld, PublishRoll, BeginGet, CheckEnd] + rest;
    RunAppends(limit, clock, s, [CloseOld, PublishRoll, BeginGet, CheckEnd], rest);
  }

  lemma {:induction false} FourSteps(limit: nat, clock: Clock, s: State, a: Action, b: Action, c: Action, e: Action)
    ensures Run(limit, clock, s, [a, b, c, e])
         == Step(limit, clock, Step(limit, clock, Step(limit, clock, Step(limit, clock, s, a), b), c), e)
  {
    hide Step;
    ThreeSteps(limit, clock, s, a, b, c);
    assert [a, b, c, e][..3] == [a, b, c];
  }

  // A writer left alone finishes what it was asked for

  /** One more request published, the reader where it was. */
  ghost predicate PutDone(limit: nat, s: State, t: State, r: Request) {
    var n := |s.log.entries|;
    && t.wpc.Idle? && |t.log.entries| == n + 1 && t.log.entries[..n] == s.log.entries
    && var e := t.log.entries[n];
    && e.from == s.pub && e.item == Stamped(r, s.pub, s.logicId + 1)
    && e.Begin() == (if s.pub.offset > limit then Position(s.pub.filenum + 1, 0) else s.pub)
    && t.pub == e.End() && t.logicId == s.logicId + 1
    && t.c == s.c && t.rpc == s.rpc && t.delivered == s.delivered && t.failed == s.failed
  }

  /** The steps of one put: what is asked for is published as the next item. */
  lemma {:induction false} PutCompletes(limit: nat, clock: Clock, s: State, r: Request, slack: nat)
    returns (actions: seq<Action>)
    requires Inv(limit, clock, s) && s.wpc.Idle?
    ensures actions != [] && actions[0] == BeginPut(r.content, r.now) && Crash !in actions
    ensures PutDone(limit, s, Run(limit, clock, s, actions), r)
    ensures s.wpos <= limit || Clean(s) ==> Inv(limit, clock, Run(limit, clock, s, actions))
  {
    hide Inv, Step, Clean, Stamped;
    var begin := BeginPut(r.content, r.now);
    var a := Begins(limit, clock, s, r);
    if s.wpos > limit {
      var c := Rolls(limit, clock, a);
      var rest := Finishes(limit, clock, c, slack);
      actions := [begin, CloseOld, PublishRoll] + rest;
      ThreeSteps(limit, clock, s, begin, CloseOld, PublishRoll);
      RunAppends(limit, clock, s, [begin, CloseOld, PublishRoll], rest);
    } else {
      var rest := Finishes(limit, clock, a, slack);
      actions := [begin] + rest;
      OneStep(limit, clock, s, begin);
      RunAppends(limit, clock, s, [begin], rest);
    }
  }

  /** The first step of a put. */
  lemma {:induction false} Begins(limit: nat, clock: Clock, s: State, r: Request) returns (t: State)
    requires Inv(limit, clock, s) && s.wpc.Idle?
    ensures t == Step(limit, clock, s, BeginPut(r.content, r.now)) && Inv(limit, clock, t)
    ensures if s.wpos > limit then t.wpc == Rolling(s.pub, Stamped(r, s.pub, s.logicId + 1))
            else t.wpc.Emitting? && t.wpc.from == s.pub && t.wpc.item == Stamped(r, s.pub, s.logicId + 1)
    ensures t.pub == s.pub == Position(t.wnum, s.wpos) && t.wpos == s.wpos && t.wnum in t.d && t.wpos <= |t.d[t.wnum]|
    ensures t.log == s.log && t.logicId == s.logicId && (Clean(t) <==> Clean(s))
    ensures t.c == s.c && t.rpc == s.rpc && t.delivered == s.delivered && t.failed == s.failed
  {
    hide Layout, ItemBytes, EndsAt, LogOk, Near, ReaderAt;
    t := Step(limit, clock, s, BeginPut(r.content, r.now));
    StepExact(limit, clock, s, BeginPut(r.content, r.now));
  }

  /** The steps of a roll. */
  lemma {:induction false} Rolls(limit: nat, clock: Clock, s: State) returns (t: State)
    requires Inv(limit, clock, s) && s.wpc.Rolling?
    ensures t == Step(limit, clock, Step(limit, clock, s, CloseOld), PublishRoll)
    ensures t.wpc.Emitting? && t.wpc.from == s.wpc.from && t.wpc.item == s.wpc.item && t.wpos == 0
    ensures t.pub == Position(t.wnum, 0) && t.wnum == s.pub.filenum + 1 && t.wnum in t.d && t.d[t.wnum] == [] && t.mapEnd == 0
    ensures t.log == s.log && t.logicId == s.logicId
    ensures t.c == s.c && t.rpc == s.rpc && t.delivered == s.delivered && t.failed == s.failed
    ensures Clean(s) ==> Inv(limit, clock, t)
  {
    hide Layout, ItemBytes, EndsAt, LogOk, Near, ReaderAt;
    var b := Step(limit, clock, s, CloseOld);
    t := Step(limit, clock, b, PublishRoll);
    StepExact(limit, clock, s, CloseOld);
    if Clean(s) { StepExact(limit, clock, b, PublishRoll); }
  }

  /** The rest of a put whose item is being written: all that is pending, and the publication. */
  lemma {:induction false} Finishes(limit: nat, clock: Clock, s: State, slack: nat) returns (actions: seq<Action>)
    requires s.wpc.Emitting? && s.wnum in s.d && s.wpos <= |s.d[s.wnum]|
    ensures forall a | a in actions :: a == Publish || a.Emit?
    ensures var t := Run(limit, clock, s, actions);
            var end := s.wpos + |s.wpc.pending|;
            && t.wpc.Idle? && t.log == s.log.Append(Entry(s.wpc.from, s.wpc.item, s.wnum, s.pub.offset, end))
            && t.pub == Position(s.wnum, end) && t.logicId == s.logicId + 1
            && t.c == s.c && t.rpc == s.rpc && t.delivered == s.delivered && t.failed == s.failed
            && (Inv(limit, clock, s) ==> Inv(limit, clock, t))
  {
    hide Inv;
    var n := |s.wpc.pending|;
    if n == 0 {
      actions := [Publish];
      OneStep(limit, clock, s, Publish);
      if Inv(limit, clock, s) { StepExact(limit, clock, s, Publish); }
    } else {
      actions := [Emit(n, slack), Publish];
      TwoSteps(limit, clock, s, Emit(n, slack), Publish);
      if Inv(limit, clock, s) {
        StepExact(limit, clock, s, Emit(n, slack));
        StepExact(limit, clock, Step(limit, clock, s, Emit(n, slack)), Publish);
      }
    }
  }

  /** A put and then the reader, each left alone: everything published before is delivered, and then what was asked for. */
  lemma {:induction false} PutIsDelivered(limit: nat, clock: Clock, s: State, r: Request) returns (actions: seq<Action>)
    requires Inv(limit, clock, s) && s.wpc.Idle? && (s.wpos <= limit || Clean(s))
    ensures actions != [] && actions[0] == BeginPut(r.content, r.now) && Crash !in actions
    ensures Run(limit, clock, s, actions).delivered
         == Data(s.log.entries) + [ItemBytes(TypeFirst, Stamped(r, s.pub, s.logicId + 1))]
  {
    hide Inv, Step, Clean, ItemBytes;
    var puts := PutCompletes(limit, clock, s, r, 0);
    var t := Run(limit, clock, s, puts);
    var rest := CatchesUp(limit, clock, t);
    actions := puts + rest;
    RunAppends(limit, clock, s, puts, rest);
    assert t.log.entries == s.log.entries + [t.log.entries[|s.log.entries|]];
  }

  /** Byte by byte: what is written, what was there before, and zeros where the file grew. */
  lemma {:induction false} EmitWrites(s: State, count: nat, slack: nat, i: nat)
    requires s.wpc.Emitting? && s.wnum in s.d && s.wpos <= |s.d[s.wnum]| && 0 < count <= |s.wpc.pending|
    ensures var t := EmitStep(s, count, slack);
            var n := s.wpos + count;
            && t.d.Keys == s.d.Keys && (forall k | k in s.d && k != s.wnum :: t.d[k] == s.d[k])
            && t.wpos == n && t.mapEnd == (if s.mapEnd < n then n else s.mapEnd) + slack
            && var f, g := s.d[s.wnum], t.d[s.wnum];
            && |g| == (if |f| < t.mapEnd then t.mapEnd else |f|)
            && (i < |g| ==> g[i] == if s.wpos <= i < n then s.wpc.pending[i - s.wpos] else if i < |f| then f[i] else 0)
  {
  }

  lemma {:induction false} OneStep(limit: nat, clock: Clock, s: State, a: Action)
    ensures Run(limit, clock, s, [a]) == Step(limit, clock, s, a)
  {
    hide Step;
    assert [a][..0] == [];
  }

  lemma {:induction false} TwoSteps(limit: nat, clock: Clock, s: State, a: Action, b: Action)
    ensures Run(limit, clock, s, [a, b]) == Step(limit, clock, Step(limit, clock, s, a), b)
  {
    hide Step;
    OneStep(limit, clock, s, a);
    assert [a, b][..1] == [a];
  }

  lemma {:induction false} ThreeSteps(limit: nat, clock: Clock, s: State, a: Action, b: Action, c: Action)
    ensures Run(limit, clock, s, [a, b, c]) == Step(limit, clock, Step(limit, clock, Step(limit, clock, s, a), b), c)
  {
    hide Step;
    TwoSteps(limit, clock, s, a, b);
    assert [a, b, c][..2] == [a, b];
  }
}
