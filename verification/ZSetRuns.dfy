/**
 Runs of sorted-set commands on one key, each applied to the database and then to the cache. The cache
 stays a window of the database; where an operation does not ensure that, the exact condition is here.
 */
module ZSetRuns {
  import opened ZSet
  import opened ZSetWindow
  import opened ZSetSteps
  import opened Wrappers

  datatype Op =
    | Zadd(sms: seq<Elem>)
    | Zincrby(member: string, increment: real)
    | Zrem(members: set<string>)
    | Zremrangebyscore(range: ScoreRange, handed: Option<ScoreRange>)   // what the cache is handed
    | Zremrangebylex(lexes: LexRange, handedLexes: Option<LexRange>)
    | Zremrangebyrank(start: int, stop: int, deleted: int)   // what the caller says was deleted
    | Zpopmin(count: int)
    | Zpopmax(count: int)
    | Store(z: ZSet)   // zunionstore and zinterstore, which delete the cached key
    | LoadKey
    | DropKey   // expiry, eviction, or a reload after a missed read

  datatype Pair = Pair(db: ZSet, cache: ZSet)

  function DbStep(db: ZSet, op: Op): ZSet {
    match op
    case Zadd(sms) => db + Assigned(sms)
    case Zincrby(m, increment) => db[m := Incremented(db, m, increment)]
    case Zrem(members) => db - members
    case Zremrangebyscore(r, _) => RemScore(db, r)
    case Zremrangebylex(r, _) => db - InLexes(db, r)
    case Zremrangebyrank(start, stop, _) => RemRank(db, Int32(start), Int32(stop))
    case Zpopmin(count) => if count <= 0 then db else PopMin(db, count)
    case Zpopmax(count) => if count <= 0 then db else PopMax(db, count)
    case Store(z) => z
    case LoadKey => db
    case DropKey => db
  }

  /** The cache's step, after the database has gone from db to db'. */
  ghost function CacheStep(cfg: Config, db: ZSet, db': ZSet, cache: ZSet, op: Op): ZSet {
    match op
    case Zadd(sms) => ZAddStep(cfg, cache, Assigned(sms))
    case Zincrby(m, increment) => ZIncrbyStep(cfg, cache, |db'|, m, increment, Incremented(db, m, increment))
    case Zrem(members) =>
      if db' == db then cache else Reloaded(cfg.num, cache - members, |cache - members|, |db'|)
    case Zremrangebyscore(_, handed) => ZRemScoreStep(cfg, cache, |db'|, handed)
    case Zremrangebylex(_, handed) => ZRemLexStep(cache, |db'|, handed)
    case Zremrangebyrank(start, stop, deleted) => ZRemRankStep(cfg, cache, |db'|, deleted, start, stop)
    case Zpopmin(count) => PoppedMin(cache, count)
    case Zpopmax(count) => PoppedMax(cache, count)
    case Store(_) => map[]
    case LoadKey => if db' == map[] then cache else Load(cfg, db', cache)
    case DropKey => map[]
  }

  /** The cache counts with unsigned numbers: a negative count takes everything. */
  function PoppedMin(cache: ZSet, count: int): ZSet {
    if count < 0 then map[] else PopMin(cache, count)
  }

  function PoppedMax(cache: ZSet, count: int): ZSet {
    if count < 0 then map[] else PopMax(cache, count)
  }

  ghost function Step(cfg: Config, s: Pair, op: Op): Pair {
    var db' := DbStep(s.db, op);
    Pair(db', CacheStep(cfg, s.db, db', s.cache, op))
  }

  ghost function Run(cfg: Config, s: Pair, ops: seq<Op>): Pair
    decreases |ops|
  {
    if ops == [] then s else Step(cfg, Run(cfg, s, ops[..|ops| - 1]), ops[|ops| - 1])
  }

  /** A new member on the edge would stand in the cache in front of one that is not cached. */
  ghost predicate EdgeOvertaken(cfg: Config, s: Pair, u: map<string, real>)
    requires s.cache != map[]
  {
    var e := Edge(cfg.dir, s.cache);
    exists k, m :: Overtakes(cfg.dir, s.db, s.cache, u, e, k, m) && Stays(cfg, s.cache, u, e, m)
  }

  /** A skipped change of score does not show in the cache. */
  ghost predicate Unseen(dir: Direction, cache: ZSet, m: string, score: real) {
    if m in cache then score == cache[m] else forall x | x in cache :: !Ahead(dir, Elem(score, m), At(cache, x))
  }

  /** What an operation asks for so that the window survives it. */
  ghost predicate Admissible(cfg: Config, s: Pair, op: Op) {
    match op
    case Zadd(sms) => s.cache != map[] ==> !EdgeOvertaken(cfg, s, Assigned(sms))
    case Zincrby(m, increment) =>
      -EPSILON < increment < EPSILON ==> Unseen(cfg.dir, s.cache, m, Incremented(s.db, m, increment))
    case Zremrangebyscore(r, handed) => ScoreRemovalFits(cfg, s.cache, |DbStep(s.db, op)|, r, handed)
    case Zremrangebylex(r, handed) => LexRemovalFits(cfg.dir, s.cache, |DbStep(s.db, op)|, r, handed)
    case Zremrangebyrank(start, stop, deleted) =>
      RankRemovalFits(cfg, |s.db|, |DbStep(s.db, op)|, |s.cache|, deleted, start, stop)
    case _ => true
  }

  ghost predicate AdmissibleRun(cfg: Config, s: Pair, ops: seq<Op>) {
    forall i | 0 <= i < |ops| :: Admissible(cfg, Run(cfg, s, ops[..i]), ops[i])
  }

  ghost predicate Ok(cfg: Config, s: Pair) {
    Window(cfg.dir, s.db, s.cache) && |s.cache| <= cfg.num
  }

  lemma {:induction false} ReloadedKeeps(cfg: Config, db: ZSet, cache: ZSet, memLen: nat, dbLen: nat)
    requires Window(cfg.dir, db, cache) && |cache| <= cfg.num
    ensures Window(cfg.dir, db, Reloaded(cfg.num, cache, memLen, dbLen)) && |Reloaded(cfg.num, cache, memLen, dbLen)| <= cfg.num
  {
    WholeIsWindow(cfg.dir, db);
  }

  lemma {:induction false} RemovalKeeps(cfg: Config, s: Pair, op: Op)
    requires Ok(cfg, s) && op.Zrem?
    ensures Ok(cfg, Step(cfg, s, op))
  {
    hide Window, ShouldReload;
    var c := s.cache - op.members;
    RemoveMembersKeeps(cfg.dir, s.db, s.cache, op.members);
    SubsetAtMost(c.Keys, s.cache.Keys);
    ReloadedKeeps(cfg, DbStep(s.db, op), c, |c|, |DbStep(s.db, op)|);
  }

  lemma {:induction false} PopKeeps(cfg: Config, s: Pair, op: Op)
    requires Ok(cfg, s) && (op.Zpopmin? || op.Zpopmax?)
    ensures Ok(cfg, Step(cfg, s, op))
  {
    hide Window, PopMin, PopMax;
    WholeIsWindow(cfg.dir, s.db);
    if op.count >= 0 {
      PopMinKeeps(cfg.dir, s.db, s.cache, op.count);
      PopMaxKeeps(cfg.dir, s.db, s.cache, op.count);
      FewerPopped(s.cache, op.count);
      PopNothing(s.db);
    }
  }

  lemma {:induction false} LoadKeeps(cfg: Config, s: Pair)
    requires Ok(cfg, s) && cfg.num > 0
    ensures Ok(cfg, Step(cfg, s, LoadKey))
  {
    hide Window, Trim, Load;
    if s.cache == map[] {
      LoadIsTrim(cfg, s.db);
      TrimIsWindow(cfg.dir, s.db, cfg.num);
    } else {
      LoadedAlready(cfg, s.db, s.cache);
    }
  }

  /** A load fills an empty cache with the cached end, as much of it as may be, and leaves any other alone. */
  lemma {:induction false} LoadFills(cfg: Config, s: Pair)
    requires cfg.num > 0
    ensures var c := Step(cfg, s, LoadKey).cache;
            if s.cache != map[] then c == s.cache
            else Window(cfg.dir, s.db, c) && |c| == if |s.db| <= cfg.num then |s.db| else cfg.num
  {
    hide Window, Trim, Load;
    if s.cache == map[] {
      LoadIsTrim(cfg, s.db);
      TrimIsWindow(cfg.dir, s.db, cfg.num);
      WholeIsWindow(cfg.dir, s.db);
    } else {
      LoadedAlready(cfg, s.db, s.cache);
    }
  }

  /** What zrem leaves: everything if it deletes nothing, and otherwise the members not named, unless they are under half. */
  lemma {:induction false} RemovalLeaves(cfg: Config, s: Pair, members: set<string>)
    ensures var c := Step(cfg, s, Zrem(members)).cache;
            var left, n := s.cache - members, |s.db - members|;
            if forall m | m in members :: m !in s.db then c == s.cache
            else if 2 * |left| < (if n <= cfg.num then n else cfg.num) then c == map[]
            else c == left
  {
    hide ShouldReload, PopMin, PopMax,
         ZAddStep, ZIncrbyStep, ZRemScoreStep, ZRemLexStep, ZRemRankStep, Load, RemScore, RemRank, InLexes, Assigned, Incremented;
    NothingDeleted(s.db, members);
    ReloadUnderHalf(cfg.num, |s.cache - members|, |s.db - members|);
  }

  lemma {:induction false} NothingDeleted(db: ZSet, members: set<string>)
    ensures db - members == db <==> forall m | m in members :: m !in db
  {
    if m :| m in members && m in db {
      assert m !in db - members;
    }
  }

  lemma {:induction false} PoppedOrder(cache: ZSet, count: int)
    ensures var n := |cache|;
            var k := if 0 <= count <= n then count else n;
            Order(PoppedMin(cache, count)) == Order(cache)[k..] && Order(PoppedMax(cache, count)) == Order(cache)[..n - k]
  {
    hide Order, PopMin, PopMax;
    if count >= 0 {
      PopMinOrder(cache, count);
      PopMaxOrder(cache, count);
    } else {
      assert |Order(map[])| == 0;
    }
  }

  /** What the pops leave of the cached order; a negative count takes all of it, and none of the database. */
  lemma {:induction false} PopLeaves(cfg: Config, s: Pair, count: int)
    ensures var n := |s.cache|;
            var k := if 0 <= count <= n then count else n;
            && Order(Step(cfg, s, Zpopmin(count)).cache) == Order(s.cache)[k..]
            && Order(Step(cfg, s, Zpopmax(count)).cache) == Order(s.cache)[..n - k]
    ensures var n := |s.db|;
            var k := if count <= 0 then 0 else if count <= n then count else n;
            && Order(Step(cfg, s, Zpopmin(count)).db) == Order(s.db)[k..]
            && Order(Step(cfg, s, Zpopmax(count)).db) == Order(s.db)[..n - k]
  {
    hide Order, PopMin, PopMax, Reloaded,
         ZAddStep, ZIncrbyStep, ZRemScoreStep, ZRemLexStep, ZRemRankStep, Load, RemScore, RemRank, InLexes, Assigned, Incremented;
    PoppedOrder(s.cache, count);
    if count > 0 {
      PopMinOrder(s.db, count);
      PopMaxOrder(s.db, count);
    }
  }

  /** A store and a drop leave nothing cached, and a drop leaves the database alone. */
  lemma {:induction false} DropEmpties(cfg: Config, s: Pair, z: ZSet)
    ensures Step(cfg, s, Store(z)) == Pair(z, map[])
    ensures Step(cfg, s, DropKey) == Pair(s.db, map[])
  {
  }

  lemma {:induction false} AddExact(cfg: Config, s: Pair, op: Op)
    requires Ok(cfg, s) && op.Zadd?
    ensures Ok(cfg, Step(cfg, s, op)) <==> Admissible(cfg, s, op)
  {
    hide Window, Trim, TakeIn, Overtakes, Stays, Edge, Assigned;
    var u := Assigned(op.sms);
    if s.cache == map[] {
      WholeIsWindow(cfg.dir, s.db + u);
    } else {
      ZAddExact(cfg, s.db, s.cache, u);
      TrimIsWindow(cfg.dir, TakeIn(cfg, s.cache, u, Edge(cfg.dir, s.cache)), cfg.num);
    }
  }

  lemma {:induction false} IncrementExact(cfg: Config, s: Pair, op: Op)
    requires Ok(cfg, s) && op.Zincrby?
    ensures Ok(cfg, Step(cfg, s, op)) <==> Admissible(cfg, s, op)
  {
    hide Window, Incremented, Trim, RemScore, Reloaded, Edge, Ahead;
    if -EPSILON < op.increment < EPSILON {
      SkippedIncrementExact(cfg.dir, s.db, s.cache, op.member, Incremented(s.db, op.member, op.increment));
    } else {
      ZIncrbyKeeps(cfg, s.db, s.cache, op.member, op.increment);
    }
  }

  /** For every operation, the window survives it if and only if it is admissible. */
  lemma {:induction false} StepExact(cfg: Config, s: Pair, op: Op)
    requires Ok(cfg, s) && cfg.num > 0
    ensures Ok(cfg, Step(cfg, s, op)) <==> Admissible(cfg, s, op)
  {
    hide Window, RemRank, ZRemRankStep, RankRemovalFits, ZRemScoreStep, ScoreRemovalFits, RemScore, ZRemLexStep, LexRemovalFits,
         InLexes, ZAddStep, ZIncrbyStep, Load, EdgeOvertaken, Unseen;
    match op
    case Zadd(_) => AddExact(cfg, s, op);
    case Zincrby(_, _) => IncrementExact(cfg, s, op);
    case Zrem(_) => RemovalKeeps(cfg, s, op);
    case Zremrangebyscore(r, handed) => ZRemScoreExact(cfg, s.db, s.cache, r, handed);
    case Zremrangebylex(r, handed) => ZRemLexExact(cfg.dir, s.db, s.cache, r, handed);
    case Zremrangebyrank(start, stop, deleted) => ZRemRankExact(cfg, s.db, s.cache, deleted, start, stop);
    case Zpopmin(_) => PopKeeps(cfg, s, op);
    case Zpopmax(_) => PopKeeps(cfg, s, op);
    case LoadKey => LoadKeeps(cfg, s);
    case Store(z) => WholeIsWindow(cfg.dir, z);
    case DropKey => WholeIsWindow(cfg.dir, s.db);
  }

  lemma {:induction false} FewerPopped(z: ZSet, count: nat)
    ensures |PopMin(z, count)| <= |z| && |PopMax(z, count)| <= |z|
  {
    SubsetAtMost(PopMin(z, count).Keys, z.Keys);
    SubsetAtMost(PopMax(z, count).Keys, z.Keys);
  }

  lemma {:induction false} PopNothing(z: ZSet)
    ensures PopMin(z, 0) == z && PopMax(z, 0) == z
  {
    forall m | m in z
      ensures m in PopMax(z, 0)
    {
      RankBelowSize(z, m);
    }
  }

  lemma {:induction false} LoadedAlready(cfg: Config, db: ZSet, cache: ZSet)
    requires cache != map[]
    ensures Load(cfg, db, cache) == cache
  {
  }

  /**
   The window over whole runs: the cache is a window after every operation if and only if each was
   admissible when it came.
   */
  lemma {:induction false} RunExact(cfg: Config, s: Pair, ops: seq<Op>)
    requires Ok(cfg, s) && cfg.num > 0
    ensures AdmissibleRun(cfg, s, ops) <==> forall i | 0 <= i <= |ops| :: Ok(cfg, Run(cfg, s, ops[..i]))
  {
    hide Step, Ok, Admissible;
    assert ops[..0] == [];
    if AdmissibleRun(cfg, s, ops) {
      forall i | 0 <= i <= |ops|
        ensures Ok(cfg, Run(cfg, s, ops[..i]))
      {
        RunStaysOk(cfg, s, ops, i);
      }
    }
    if forall i | 0 <= i <= |ops| :: Ok(cfg, Run(cfg, s, ops[..i])) {
      forall i | 0 <= i < |ops|
        ensures Admissible(cfg, Run(cfg, s, ops[..i]), ops[i])
      {
        NextState(cfg, s, ops, i);
        assert Ok(cfg, Run(cfg, s, ops[..i])) && Ok(cfg, Run(cfg, s, ops[..i + 1]));
        StepExact(cfg, Run(cfg, s, ops[..i]), ops[i]);
      }
    }
  }

  lemma {:induction false} NextState(cfg: Config, s: Pair, ops: seq<Op>, i: nat)
    requires i < |ops|
    ensures Run(cfg, s, ops[..i + 1]) == Step(cfg, Run(cfg, s, ops[..i]), ops[i])
  {
    hide Step;
    assert ops[..i + 1][..i] == ops[..i];
  }

  lemma {:induction false} RunStaysOk(cfg: Config, s: Pair, ops: seq<Op>, i: nat)
    requires Ok(cfg, s) && cfg.num > 0 && AdmissibleRun(cfg, s, ops) && i <= |ops|
    ensures Ok(cfg, Run(cfg, s, ops[..i]))
    decreases i
  {
    hide Step, Ok, Admissible;
    if i > 0 {
      RunStaysOk(cfg, s, ops, i - 1);
      NextState(cfg, s, ops, i - 1);
      StepExact(cfg, Run(cfg, s, ops[..i - 1]), ops[i - 1]);
    }
  }

  /**
   After any admissible operations the cache is a first (or last) part of the database's order with
   equal scores, and holds no more members than it may.
   */
  lemma {:induction false} RunKeepsWindow(cfg: Config, s: Pair, ops: seq<Op>)
    requires Ok(cfg, s) && cfg.num > 0 && AdmissibleRun(cfg, s, ops)
    ensures var t := Run(cfg, s, ops);
            && Ok(cfg, t)
            && |t.cache| <= |t.db|
            && Order(t.cache) == if cfg.dir == FromBegin then Order(t.db)[..|t.cache|]
                                 else Order(t.db)[|t.db| - |t.cache|..]
  {
    hide Step, Window, Order, Admissible;
    assert ops[..|ops|] == ops;
    RunStaysOk(cfg, s, ops, |ops|);
    var t := Run(cfg, s, ops);
    WindowOrder(cfg.dir, t.db, t.cache);
  }

  /** The easy conditions: no new score on the edge, no tiny increment, the same ranges, and indices of 32 bits. */
  lemma {:induction false} PlainOpsAdmissible(cfg: Config, s: Pair, op: Op)
    requires Ok(cfg, s)
    requires op.Zadd? ==> EdgeIsClear(cfg, s.cache, Assigned(op.sms))
    requires op.Zincrby? ==> (op.increment == 0.0 && op.member in s.db) || !(-EPSILON < op.increment < EPSILON)
    requires op.Zremrangebyscore? ==> op.handed == Some(op.range)
    requires op.Zremrangebylex? ==>
               && (op.handedLexes == None || op.handedLexes == Some(op.lexes))
               && (forall m | m in s.cache :: !InLex(m, op.lexes))
    requires op.Zremrangebyrank? ==>
               IsInt32(op.start) && IsInt32(op.stop) && IsInt32(|s.db|) && op.deleted == |s.db| - |DbStep(s.db, op)|
    ensures Admissible(cfg, s, op)
  {
    hide Window, RemRank, RankRemovalFits, ZAddStep, ZIncrbyStep, EdgeOvertaken, Unseen, EdgeIsClear, Assigned, Incremented,
         ScoreRemovalFits, LexRemovalFits, RemScore, InLexes, InLex;
    match op
    case Zadd(sms) =>
      ZAddKeeps(cfg, s.db, s.cache, Assigned(sms));
      AddExact(cfg, s, op);
    case Zincrby(m, increment) =>
      ZIncrbyKeeps(cfg, s.db, s.cache, m, increment);
      IncrementExact(cfg, s, op);
    case Zremrangebyrank(start, stop, _) =>
      WindowSize(cfg.dir, s.db, s.cache);
      NarrowRanksFit(cfg, |s.db|, |DbStep(s.db, op)|, |s.cache|, start, stop);
    case Zremrangebyscore(r, _) => SameRangeFits(cfg, s.cache, |DbStep(s.db, op)|, r);
    case Zremrangebylex(r, _) => LexCases(cfg.dir, s.cache, |DbStep(s.db, op)|, r);
    case _ =>
  }

  // Where the window is not ensured

  /**
   A member on the edge score that is not cached, and a new one put behind it: the window breaks whether
   the cache server turns an empty bound down or reads it as zero.
   */
  lemma {:induction false} EdgeScoreBreaks(b: EmptyBound)
    requires b == Rejected || b == ReadAs(0.0)
    ensures var cfg := Config(FromBegin, 2, b);
            var s := Pair(map["a" := -1.0, "b" := -1.0], map["a" := -1.0]);
            && Ok(cfg, s)
            && !Ok(cfg, Step(cfg, s, Zadd([Elem(-1.0, "c")])))
  {
    hide Ok, Step, Assigned, ZAddStep;
    var cfg := Config(FromBegin, 2, b);
    var db: ZSet := map["a" := -1.0, "b" := -1.0];
    var cache: ZSet := map["a" := -1.0];
    EdgeScoreStart(cfg, db, cache);
    EdgeScoreStep(cfg, cache);
    EdgeScoreEnd(cfg, db, cache);
  }

  lemma {:induction false} EdgeScoreStart(cfg: Config, db: ZSet, cache: ZSet)
    requires cfg.dir == FromBegin && cfg.num == 2 && db == map["a" := -1.0, "b" := -1.0] && cache == map["a" := -1.0]
    ensures Ok(cfg, Pair(db, cache))
  {
    assert !LexLess("b", "a");
  }

  lemma {:induction false} EdgeScoreEnd(cfg: Config, db: ZSet, cache: ZSet)
    requires cfg.dir == FromBegin && db == map["a" := -1.0, "b" := -1.0] && cache == map["a" := -1.0]
    requires Assigned([Elem(-1.0, "c")]) == map["c" := -1.0]
    requires ZAddStep(cfg, cache, Assigned([Elem(-1.0, "c")])) == map["a" := -1.0, "c" := -1.0]
    ensures !Ok(cfg, Step(cfg, Pair(db, cache), Zadd([Elem(-1.0, "c")])))
  {
    hide Window, Assigned, ZAddStep;
    var u: map<string, real> := map["c" := -1.0];
    var t: ZSet := map["a" := -1.0, "c" := -1.0];
    assert "a"[0] < "b"[0] < "c"[0];
    assert LexLess("b", "c");
    assert "b" in db && "b" !in cache && "b" !in u;
    assert "c" in u && u["c"] == -1.0 && db["b"] == -1.0;
    assert Ahead(FromBegin, At(db, "b"), Elem(-1.0, "c"));
    assert Overtakes(FromBegin, db, cache, u, -1.0, "b", "c");
    OvertakenBreaks(cfg, db, cache, u, -1.0, t);
  }

  lemma {:induction false} EdgeScoreStep(cfg: Config, cache: ZSet)
    requires cfg.dir == FromBegin && cfg.num == 2 && (cfg.emptyBound == Rejected || cfg.emptyBound == ReadAs(0.0))
    requires cache == map["a" := -1.0]
    ensures Assigned([Elem(-1.0, "c")]) == map["c" := -1.0]
    ensures ZAddStep(cfg, cache, Assigned([Elem(-1.0, "c")])) == map["a" := -1.0, "c" := -1.0]
  {
    hide Order, Rank, LexLess, TakeIn;
    var u := Assigned([Elem(-1.0, "c")]);
    assert Assigned([]) == map[] && u == map["c" := -1.0];
    assert "a" in cache;
    var e := Edge(FromBegin, cache);
    assert e == -1.0 && u["c"] == e;
    MergedIsTaken(cfg, cache, u, e, "c");
    assert WithinEdge(FromBegin, u, e) == u && BeyondEdge(FromBegin, u, e) == {};
    assert TakeIn(cfg, cache, u, e) == map["a" := -1.0, "c" := -1.0];
    assert |TakeIn(cfg, cache, u, e)| == 2;
  }

  /** A tiny increment moves a cached score in the database only. */
  lemma {:induction false} TinyIncrementBreaks()
    ensures var cfg := Config(FromBegin, 2, Rejected);
            var s := Pair(map["a" := 0.0], map["a" := 0.0]);
            && Ok(cfg, s)
            && !Ok(cfg, Step(cfg, s, Zincrby("a", EPSILON / 2.0)))
  {
  }

  lemma {:induction false} RanksOfOne(z: ZSet)
    requires z == map["a" := 1.0]
    ensures |z| == 1 && Rank(z, "a") == 0
  {
    BeforeTotal(At(z, "a"), At(z, "a"));
    assert Lower(z, "a") == {};
  }

  /** A stop rank beyond 32 bits empties the database and leaves the cache, whatever count is passed on. */
  lemma {:induction false} WideRankBreaks(deleted: int)
    ensures var cfg := Config(FromBegin, 2, Rejected);
            var s := Pair(map["a" := 1.0], map["a" := 1.0]);
            && Ok(cfg, s)
            && !Ok(cfg, Step(cfg, s, Zremrangebyrank(0, 0x1_0000_0000 - 1, deleted)))
  {
    hide Rank;
    var db: ZSet := map["a" := 1.0];
    RanksOfOne(db);
    assert Int32(0x1_0000_0000 - 1) == -1;
    assert RemRank(db, 0, -1) == map[];
  }

  lemma {:induction false} RanksOfTwo(z: ZSet)
    requires z == map["a" := 1.0, "b" := 2.0]
    ensures |z| == 2 && Rank(z, "a") == 0 && Rank(z, "b") == 1
  {
    assert At(z, "a") == Elem(1.0, "a") && At(z, "b") == Elem(2.0, "b");
    BeforeTotal(At(z, "a"), At(z, "a"));
    BeforeTotal(At(z, "b"), At(z, "b"));
    assert Lower(z, "a") == {};
    assert Lower(z, "b") == {"a"};
  }

  /** With zero passed on as the count of deletions, removing the last member takes the first from the cache. */
  lemma {:induction false} UnsetCountBreaks()
    ensures var cfg := Config(FromBegin, 2, Rejected);
            var s := Pair(map["a" := 1.0, "b" := 2.0], map["a" := 1.0, "b" := 2.0]);
            && Ok(cfg, s)
            && !Ok(cfg, Step(cfg, s, Zremrangebyrank(-1, -1, 0)))
  {
    hide RemRank, Before;
    var cfg := Config(FromBegin, 2, Rejected);
    var db: ZSet := map["a" := 1.0, "b" := 2.0];
    LastAndFirst(db);
    WholeIsWindow(FromBegin, db);
    assert ZRemRankStep(cfg, db, 1, 0, -1, -1) == map["b" := 2.0];
  }

  lemma {:induction false} LastAndFirst(z: ZSet)
    requires z == map["a" := 1.0, "b" := 2.0]
    ensures |z| == 2 && RemRank(z, -1, -1) == map["a" := 1.0] && RemRank(z, 0, 0) == map["b" := 2.0]
  {
    hide Rank;
    RanksOfTwo(z);
  }

  /**
   A command that hands the cache two empty bounds, whether they are refused or read as zero: the database
   loses a member and the cache keeps it.
   */
  lemma {:induction false} EmptyRangeBreaks(b: EmptyBound)
    requires b == Rejected || b == ReadAs(0.0)
    ensures var cfg := Config(FromBegin, 2, b);
            var s := Pair(map["a" := 1.0, "b" := 2.0], map["a" := 1.0, "b" := 2.0]);
            && Ok(cfg, s)
            && !Ok(cfg, Step(cfg, s, Zremrangebyscore(ScoreRange(Incl(1.0), Incl(1.0)), EmptyRange(b))))
  {
    hide Window, RemScore, ZRemScoreStep, ScoreRemovalFits, EmptyRange;
    var cfg := Config(FromBegin, 2, b);
    var z: ZSet := map["a" := 1.0, "b" := 2.0];
    WholeIsWindow(FromBegin, z);
    EmptyRangeUnfit(cfg, z);
    ZRemScoreExact(cfg, z, z, ScoreRange(Incl(1.0), Incl(1.0)), EmptyRange(b));
  }

  lemma {:induction false} EmptyRangeUnfit(cfg: Config, z: ZSet)
    requires cfg.num == 2 && (cfg.emptyBound == Rejected || cfg.emptyBound == ReadAs(0.0))
    requires z == map["a" := 1.0, "b" := 2.0]
    ensures |z| == 2
    ensures var r := ScoreRange(Incl(1.0), Incl(1.0));
            !ScoreRemovalFits(cfg, z, |RemScore(z, r)|, r, EmptyRange(cfg.emptyBound))
  {
    hide Ahead, InRange, RemScore, InScores, ScoresGone;
    var r := ScoreRange(Incl(1.0), Incl(1.0));
    FirstScoreOnly(z, r);
    NoZeroScore(z, cfg.emptyBound);
    assert z - {} == z;
  }

  lemma {:induction false} FirstScoreOnly(z: ZSet, r: ScoreRange)
    requires z == map["a" := 1.0, "b" := 2.0] && r == ScoreRange(Incl(1.0), Incl(1.0))
    ensures |z| == 2 && |RemScore(z, r)| == 1 && "a" in InScores(z, r)
  {
    assert RemScore(z, r) == map["b" := 2.0];
  }

  lemma {:induction false} NoZeroScore(z: ZSet, b: EmptyBound)
    requires z == map["a" := 1.0, "b" := 2.0] && (b == Rejected || b == ReadAs(0.0))
    ensures ScoresGone(z, EmptyRange(b)) == {}
  {
  }

  /** The same for a lexicographic range, which the cache is handed as two empty bounds and refuses. */
  lemma {:induction false} EmptyLexBreaks()
    ensures var cfg := Config(FromBegin, 2, Rejected);
            var s := Pair(map["a" := 1.0, "b" := 1.0], map["a" := 1.0, "b" := 1.0]);
            && Ok(cfg, s)
            && !Ok(cfg, Step(cfg, s, Zremrangebylex(LexRange(LexInfinite, LexInfinite), None)))
  {
    hide Window, ZRemLexStep, LexRemovalFits, InLexes;
    var z: ZSet := map["a" := 1.0, "b" := 1.0];
    var r := LexRange(LexInfinite, LexInfinite);
    WholeIsWindow(FromBegin, z);
    ZRemLexExact(FromBegin, z, z, r, None);
    assert "a" in z && InLex("a", r);
    LexCases(FromBegin, z, |z - InLexes(z, r)|, r);
    assert |z| == 2;
  }

  /** And with the range handed on: a window of one from a set of two, both removed, stays behind. */
  lemma {:induction false} LexRemovalBreaks()
    ensures var cfg := Config(FromBegin, 1, Rejected);
            var s := Pair(map["a" := 1.0, "b" := 2.0], map["a" := 1.0]);
            var r := LexRange(LexInfinite, LexInfinite);
            && Ok(cfg, s)
            && !Ok(cfg, Step(cfg, s, Zremrangebylex(r, Some(r))))
  {
    hide Closed, ZRemLexStep, LexRemovalFits, InLexes;
    var db: ZSet, cache: ZSet, r := map["a" := 1.0, "b" := 2.0], map["a" := 1.0], LexRange(LexInfinite, LexInfinite);
    FirstOfTwo(db, cache);
    ZRemLexExact(FromBegin, db, cache, r, Some(r));
    EveryLex(db, r);
    assert "a" in cache && InLex("a", r);
    LexCases(FromBegin, cache, 0, r);
  }

  lemma {:induction false} FirstOfTwo(db: ZSet, cache: ZSet)
    requires db == map["a" := 1.0, "b" := 2.0] && cache == map["a" := 1.0]
    ensures Window(FromBegin, db, cache) && |cache| == 1
  {
  }

  lemma {:induction false} EveryLex(z: ZSet, r: LexRange)
    requires r == LexRange(LexInfinite, LexInfinite)
    ensures z - InLexes(z, r) == map[]
  {
  }
}
