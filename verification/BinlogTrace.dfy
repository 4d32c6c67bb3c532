/**
 Two crashes and a roll: a run in which the reader delivers an item that was never put. A long item is
 written and lost in a crash, a short one is put over its beginning, and after a second crash the file is
 rolled before anything is appended to it, so that the rest of the long item stays behind.
 */
module BinlogTrace {
  import opened Bytes
  import opened BinlogFormat
  import opened BinlogCursor
  import opened BinlogTransverter
  import opened BinlogLog
  import opened BinlogWriter
  import opened BinlogRuns
  import opened BinlogConcurrent

  const SLACK: nat := 4096
  // the content of the long item reads as a record of its own
  const LONG: seq<Byte> := [1, 0, 0, 0, 0, 0, 0, kFullType, 42]

  function Item(content: seq<Byte>): BinlogItem {
    BinlogItem(0, 0, 1, 0, 0, content)
  }

  function Laid(clock: Clock, content: seq<Byte>): seq<Byte> {
    Layout(clock, 0, true, ItemBytes(TypeFirst, Item(content)))
  }

  lemma {:induction false} ShortFragment(clock: Clock, item: seq<Byte>)
    requires |item| <= 100
    ensures Layout(clock, 0, true, item) == Header(|item|, clock(0), kFullType) + item
  {
    hide Header;
    assert Space(0) == kBlockSize;
    assert Align(0) == 0 && FragmentLength(0, |item|) == |item|;
    assert item[..|item|] == item && Zeros(0) == [];
  }

  lemma {:induction false} ContentLast(content: seq<Byte>)
    ensures |ItemBytes(TypeFirst, Item(content))| == 34 + |content|
    ensures ItemBytes(TypeFirst, Item(content))[34..] == content
  {
    hide HeaderBytes;
  }

  lemma {:induction false} ShortLayout(clock: Clock, content: seq<Byte>)
    requires |content| <= 9
    ensures Laid(clock, content) == Header(34 + |content|, clock(0), kFullType) + ItemBytes(TypeFirst, Item(content))
    ensures |Laid(clock, content)| == 42 + |content| && Laid(clock, content)[42..] == content
  {
    hide Header, ItemBytes, Layout;
    ContentLast(content);
    ShortFragment(clock, ItemBytes(TypeFirst, Item(content)));
  }

  /** The files after an item is written at the start of file 0. */
  function Over(d: Directory, laid: seq<Byte>): Directory
    requires 0 in d
  {
    d[0 := Extended(Overwritten(d[0], 0, laid), |laid| + SLACK)]
  }

  predicate AtStart(s: State) {
    && s.wpc == Idle && s.wnum == 0 && s.wpos == 0 && s.mapEnd == 0 && s.pub == Position(0, 0) && s.logicId == 0
    && 0 in s.d && s.delivered == [] && s.log == Log(Position(0, 0), 0, [])
    && s.c == Cursor(0, 0, 0, 0) && s.rpc == Resting && !s.failed
  }

  lemma {:induction false} PutAtStart(clock: Clock, s: State, content: seq<Byte>)
    requires AtStart(s) && |Laid(clock, content)| > 0
    ensures var n := |Laid(clock, content)|;
            Step(0, clock, Step(0, clock, s, BeginPut(content, 0)), Emit(n, SLACK))
            == s.(d := Over(s.d, Laid(clock, content)), wpos := n, mapEnd := n + SLACK,
                  wpc := Emitting(Position(0, 0), Item(content), []))
  {
    hide Layout, ItemBytes, Overwritten, Extended;
    var laid := Laid(clock, content);
    assert laid[..|laid|] == laid && laid[|laid|..] == [];
  }

  lemma {:induction false} CrashAtStart(clock: Clock, s: State, u: State)
    requires AtStart(s) && u == s.(d := u.d, wpos := u.wpos, mapEnd := u.mapEnd, wpc := u.wpc)
    ensures Step(0, clock, u, Crash) == s.(d := u.d)
  {
  }

  /** The long item is written whole, and a crash comes before it is published. */
  lemma {:induction false} FirstCrash(clock: Clock, s: State)
    requires AtStart(s)
    ensures var t := s.(d := Over(s.d, Laid(clock, LONG)));
            AtStart(t) && Run(0, clock, s, [BeginPut(LONG, 0), Emit(51, SLACK), Crash]) == t
  {
    hide Laid, Overwritten, Extended, Step, Run;
    ShortLayout(clock, LONG);
    PutAtStart(clock, s, LONG);
    CrashAtStart(clock, s, Step(0, clock, Step(0, clock, s, BeginPut(LONG, 0)), Emit(51, SLACK)));
    ThreeSteps(0, clock, s, BeginPut(LONG, 0), Emit(51, SLACK), Crash);
  }

  function ShortEntry(): Entry {
    Entry(Position(0, 0), Item([]), 0, 0, 42)
  }

  /** The short item is put over the beginning of the long one. */
  lemma {:induction false} ShortPut(clock: Clock, s: State)
    requires AtStart(s)
    ensures Run(0, clock, s, [BeginPut([], 0), Emit(42, SLACK), Publish])
         == s.(d := Over(s.d, Laid(clock, [])), wpos := 42, mapEnd := 42 + SLACK, pub := Position(0, 42), logicId := 1,
               log := Log(Position(0, 0), 0, [ShortEntry()]))
  {
    hide Laid, Overwritten, Extended;
    ShortLayout(clock, []);
    PutAtStart(clock, s, []);
    ThreeSteps(0, clock, s, BeginPut([], 0), Emit(42, SLACK), Publish);
  }

  /** What file 0 then holds: the short item, and after it the content of the long one. */
  ghost predicate Both(clock: Clock, f: seq<Byte>) {
    51 <= |f| && f[..42] == Laid(clock, []) && f[42..51] == LONG
  }

  lemma {:induction false} OverStart(g: seq<Byte>, data: seq<Byte>, n: nat)
    ensures var f := Extended(Overwritten(g, 0, data), n);
            && |data| <= |f| && |g| <= |f| && f[..|data|] == data
            && forall i | |data| <= i < |g| :: f[i] == g[i]
  {
    var h := Overwritten(g, 0, data);
    var f := Extended(h, n);
    assert f[..|data|] == f[..|h|][..|data|];
    assert forall i | 0 <= i < |h| :: f[i] == f[..|h|][i];
  }

  lemma {:induction false} OverlaidBytes(clock: Clock, d: Directory)
    requires 0 in d && d[0] == []
    ensures var e := Over(d, Laid(clock, LONG)); Both(clock, Over(e, Laid(clock, []))[0])
  {
    hide Laid, Overwritten, Extended;
    var long, short := Laid(clock, LONG), Laid(clock, []);
    ShortLayout(clock, LONG);
    ShortLayout(clock, []);
    OverStart([], long, |long| + SLACK);
    var g := Over(d, long)[0];
    OverStart(g, short, |short| + SLACK);
    var f := Over(Over(d, long), short)[0];
    assert forall i | 42 <= i < 51 :: f[i] == g[i] == g[..51][i] == long[42..][i - 42];
  }

  lemma {:induction false} ShortRecord(clock: Clock, f: seq<Byte>)
    requires Both(clock, f)
    ensures ReadPhysical(f, Cursor(0, 0, 0, 0))
         == Physical(kFullType, ItemBytes(TypeFirst, Item([])), Cursor(0, 42, 42, 42))
  {
    hide Laid, ItemBytes, Header, RecordAt;
    ShortLayout(clock, []);
    ContentLast([]);
    var data := ItemBytes(TypeFirst, Item([]));
    assert f[0..42] == f[..42];
    BytesAreRecord(f, 0, clock(0), kFullType, data);
    RecordIsRead(f, Cursor(0, 0, 0, 0), kFullType, data);
  }

  lemma {:induction false} StrayRecord(clock: Clock, f: seq<Byte>)
    requires Both(clock, f)
    ensures ReadPhysical(f, Cursor(0, 42, 42, 42)) == Physical(kFullType, [42], Cursor(0, 51, 51, 51))
  {
    hide Laid;
    assert forall i | 0 <= i < 9 :: f[42 + i] == f[42..51][i] == LONG[i];
    assert f[50..51] == [42];
  }

  /** The reader delivers the short item. */
  lemma {:induction false} ShortGet(clock: Clock, s: State)
    requires s.pub == Position(0, 42) && 0 in s.d && Both(clock, s.d[0])
    requires s.c == Cursor(0, 0, 0, 0) && s.rpc == Resting
    ensures Run(0, clock, s, [BeginGet, CheckEnd, ReadOne])
         == s.(c := Cursor(0, 42, 42, 42), delivered := s.delivered + [ItemBytes(TypeFirst, Item([]))])
  {
    hide Both, ItemBytes, ReadPhysical, Layout, Run;
    ShortRecord(clock, s.d[0]);
    ThreeSteps(0, clock, s, BeginGet, CheckEnd, ReadOne);
  }

  /** After a crash nothing is appended before the roll, and the file is not cut. */
  lemma {:induction false} RollAfterCrash(clock: Clock, s: State)
    requires s.wpc == Idle && s.wnum == 0 && s.wpos == 42 && s.pub == Position(0, 42) && 0 in s.d && 51 <= |s.d[0]|
    requires |s.delivered| == 1 && s.log == Log(Position(0, 0), 0, [ShortEntry()])
    ensures var t := Run(0, clock, s, [Crash, BeginPut([], 0), CloseOld]);
            && t.wpc.Closed? && t.wnum == 0 && t.d == s.d[1 := []] && t.log == s.log && t.failed == s.failed
            && t.delivered == s.delivered && t.c == Cursor(0, 42, 42, 42) && t.rpc == Resting
  {
    hide ItemBytes, ReadPhysical, Layout, Run;
    ThreeSteps(0, clock, s, Crash, BeginPut([], 0), CloseOld);
  }

  lemma {:induction false} BothLong(clock: Clock, f: seq<Byte>)
    requires Both(clock, f)
    ensures 51 <= |f|
  {
  }

  /** Publishing the roll sends the reader into what is left of the long item. */
  lemma {:induction false} StrayRead(clock: Clock, s: State)
    requires s.wpc.Closed? && s.wnum == 0 && 0 in s.d && Both(clock, s.d[0]) && !s.failed
    requires s.c == Cursor(0, 42, 42, 42) && s.rpc == Resting
    ensures var t := Run(0, clock, s, [PublishRoll, BeginGet, CheckEnd, ReadOne]);
            t.log == s.log && t.delivered == s.delivered + [[42]]
  {
    hide Both, ItemBytes, ReadPhysical, Layout, Run;
    StrayRecord(clock, s.d[0]);
    FourSteps(0, clock, s, PublishRoll, BeginGet, CheckEnd, ReadOne);
  }

  const TwoCrashes: seq<Action> :=
    [BeginPut(LONG, 0), Emit(51, SLACK), Crash] + ([BeginPut([], 0), Emit(42, SLACK), Publish]
    + ([BeginGet, CheckEnd, ReadOne] + ([Crash, BeginPut([], 0), CloseOld] + [PublishRoll, BeginGet, CheckEnd, ReadOne])))

  /** The reader delivers the one published item, and then one that was never put. */
  lemma {:induction false} TwoCrashesTear(clock: Clock, dir: Directory)
    ensures var t := Run(0, clock, Start(dir), TwoCrashes);
            && |t.log.entries| == 1 && t.delivered == [t.log.entries[0].Data(), [42]]
            && !NotTorn(t)
  {
    hide Both, ItemBytes, Layout, Laid, Step, Overwritten, Extended;
    var s := Start(dir);
    var put, over, get := [BeginPut(LONG, 0), Emit(51, SLACK), Crash], [BeginPut([], 0), Emit(42, SLACK), Publish], [BeginGet, CheckEnd, ReadOne];
    var roll, read := [Crash, BeginPut([], 0), CloseOld], [PublishRoll, BeginGet, CheckEnd, ReadOne];
    FirstCrash(clock, s);
    var a := Run(0, clock, s, put);
    ShortPut(clock, a);
    OverlaidBytes(clock, s.d);
    var b := Run(0, clock, a, over);
    ShortGet(clock, b);
    var c := Run(0, clock, b, get);
    BothLong(clock, b.d[0]);
    RollAfterCrash(clock, c);
    var e := Run(0, clock, c, roll);
    StrayRead(clock, e);
    RunAppends(0, clock, s, put, over + (get + (roll + read)));
    RunAppends(0, clock, a, over, get + (roll + read));
    RunAppends(0, clock, b, get, roll + read);
    RunAppends(0, clock, c, roll, read);
  }

  lemma {:induction false} ThreeSteps(limit: nat, clock: Clock, s: State, a: Action, b: Action, c: Action)
    ensures Run(limit, clock, s, [a, b, c]) == Step(limit, clock, Step(limit, clock, Step(limit, clock, s, a), b), c)
  {
    hide Step;
    assert [a, b, c][..2] == [a, b] && [a, b][..1] == [a] && [a][..0] == [];
    assert Run(limit, clock, s, [a]) == Step(limit, clock, s, a);
    assert Run(limit, clock, s, [a, b]) == Step(limit, clock, Run(limit, clock, s, [a]), b);
  }
}
