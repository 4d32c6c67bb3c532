/** The cached sorted set of one key, updated in place by PikaCache and filled by the load thread. */
module ZSetCache {
  import opened ZSet
  import opened ZSetWindow
  import opened ZSetSteps
  import opened ZSetRuns
  import Wrappers

  datatype Status = Ok | NotFound

  // double's largest value
  const ZSET_SCORE_MAX: real := 179769313486231570814527423731704356798070567525844996598917476803157260780028538760589558632766878171540458953514382464234321326889464182768467546703537516986049910576551282076245490090389328944075868508455133942304583236903222948165808559332123348274797826204144723168738177180919299881250404026184124858368.0
  const ZSET_SCORE_MIN: real := -ZSET_SCORE_MAX

  predicate Distinct(sms: seq<Elem>) {
    forall i, j | 0 <= i < j < |sms| :: sms[i].member != sms[j].member
  }

  /** The members of a list are the keys of what it assigns. */
  lemma {:induction false} AssignedKeys(sms: seq<Elem>, m: string)
    ensures m in Assigned(sms) <==> exists i | 0 <= i < |sms| :: sms[i].member == m
  {
    if sms != [] {
      var n := |sms| - 1;
      AssignedKeys(sms[..n], m);
      if m in Assigned(sms[..n]) {
        var i :| 0 <= i < n && sms[..n][i].member == m;
        assert sms[i].member == m;
      }
      if i :| 0 <= i < |sms| && sms[i].member == m {
        assert i < n ==> sms[..n][i].member == m;
      }
    }
  }

  /** Without repetitions a list assigns each of its scores. */
  lemma {:induction false} AssignedDistinct(sms: seq<Elem>, i: nat)
    requires Distinct(sms) && i < |sms|
    ensures sms[i].member in Assigned(sms) && Assigned(sms)[sms[i].member] == sms[i].score
  {
    var n := |sms| - 1;
    if i < n {
      assert Distinct(sms[..n]);
      AssignedDistinct(sms[..n], i);
      assert sms[..n][i] == sms[i] && sms[n].member != sms[i].member;
    }
  }

  /** Putting a member that is assigned later in front changes nothing. */
  lemma {:induction false} AssignedPrepend(x: Elem, sms: seq<Elem>)
    ensures Assigned([x] + sms) == if x.member in Assigned(sms) then Assigned(sms) else Assigned(sms)[x.member := x.score]
  {
    var l := [x] + sms;
    if sms == [] {
      assert l[..0] == [];
    } else {
      var n := |sms| - 1;
      AssignedPrepend(x, sms[..n]);
      assert l[..|l| - 1] == [x] + sms[..n];
    }
  }

  /** Keeps the last score of every member, scanning the list from its end. */
  method FilterLast(sms: seq<Elem>) returns (r: seq<Elem>)
    ensures Distinct(r) && Assigned(r) == Assigned(sms)
  {
    r := [];
    var unique: set<string> := {};
    var i := |sms|;
    while i > 0
      invariant 0 <= i <= |sms|
      invariant Distinct(r) && Assigned(r) == Assigned(sms[i..])
      invariant unique == Assigned(r).Keys
    {
      i := i - 1;
      ghost var rest := r;
      assert sms[i..] == [sms[i]] + sms[i + 1..];
      AssignedPrepend(sms[i], sms[i + 1..]);
      AssignedPrepend(sms[i], rest);
      if sms[i].member !in unique {
        AssignedKeys(rest, sms[i].member);
        unique := unique + {sms[i].member};
        r := [sms[i]] + r;
      }
    }
    assert sms[0..] == sms;
  }

  /** The least and the greatest score of a list; an empty one leaves the given values. */
  method GetMinMaxScore(sms: seq<Elem>, min0: real, max0: real) returns (min: real, max: real)
    ensures sms == [] ==> min == min0 && max == max0
    ensures forall x | x in sms :: min <= x.score <= max
    ensures sms != [] ==> (exists x | x in sms :: x.score == min) && (exists x | x in sms :: x.score == max)
  {
    if |sms| == 0 {
      return min0, max0;
    }
    min, max := sms[0].score, sms[0].score;
    for i := 0 to |sms|
      invariant forall x | x in sms[..i] :: min <= x.score <= max
      invariant min <= sms[0].score <= max
      invariant (exists x | x in sms :: x.score == min) && (exists x | x in sms :: x.score == max)
    {
      assert sms[..i + 1] == sms[..i] + [sms[i]];
      if sms[i].score < min {
        min := sms[i].score;
        assert sms[i] in sms;
      }
      if sms[i].score > max {
        max := sms[i].score;
        assert sms[i] in sms;
      }
    }
    assert sms[..|sms|] == sms;
  }

  /** The least and the greatest cached score. */
  method GetCacheMinMax(cache: ZSet) returns (found: bool, min: real, max: real)
    ensures found <==> cache != map[]
    ensures found ==> IsEdge(FromEnd, cache, min) && IsEdge(FromBegin, cache, max)
  {
    if cache == map[] {
      return false, 0.0, 0.0;
    }
    var m :| m in cache;
    min, max := cache[m], cache[m];
    var left := cache.Keys;
    while left != {}
      invariant left <= cache.Keys
      invariant forall k | k in cache && k !in left :: min <= cache[k] <= max
      invariant (exists k | k in cache :: cache[k] == min) && (exists k | k in cache :: cache[k] == max)
      decreases left
    {
      var k :| k in left;
      if cache[k] < min { min := cache[k]; }
      if cache[k] > max { max := cache[k]; }
      left := left - {k};
    }
    found := true;
  }

  /** Splits new scores at the edge e of the window. */
  method SplitAtEdge(dir: Direction, sms: seq<Elem>, e: real) returns (can: seq<Elem>, beyond: set<string>, onEdge: bool)
    requires Distinct(sms)
    ensures var u := Assigned(sms);
            Assigned(can) == WithinEdge(dir, u, e) && beyond == BeyondEdge(dir, u, e) && (onEdge <==> OnEdge(u, e))
    ensures can == [] <==> Assigned(can) == map[]
  {
    hide WithinEdge, BeyondEdge, OnEdge;
    can, beyond, onEdge := [], {}, false;
    NothingToSplit(dir, e);
    for i := 0 to |sms|
      invariant var u := Assigned(sms[..i]);
                Assigned(can) == WithinEdge(dir, u, e) && beyond == BeyondEdge(dir, u, e) && (onEdge <==> OnEdge(u, e))
      invariant can == [] <==> Assigned(can) == map[]
    {
      var item := sms[i];
      assert sms[..i + 1][..i] == sms[..i];
      AssignedKeys(sms[..i], item.member);
      SplitOneMore(dir, Assigned(sms[..i]), e, item.member, item.score);
      if !Nearer(dir, e, item.score) {
        assert (can + [item])[..|can|] == can;
        can := can + [item];
        assert item.member in Assigned(can);
      } else {
        beyond := beyond + {item.member};
      }
      if item.score == e {
        onEdge := true;
      }
    }
    assert sms[..|sms|] == sms;
  }

  lemma {:induction false} NothingToSplit(dir: Direction, e: real)
    ensures WithinEdge(dir, map[], e) == map[] && BeyondEdge(dir, map[], e) == {} && !OnEdge(map[], e)
  {
  }

  lemma {:induction false} SplitOneMore(dir: Direction, u: map<string, real>, e: real, m: string, s: real)
    requires m !in u
    ensures WithinEdge(dir, u[m := s], e) == if Nearer(dir, e, s) then WithinEdge(dir, u, e) else WithinEdge(dir, u, e)[m := s]
    ensures BeyondEdge(dir, u[m := s], e) == BeyondEdge(dir, u, e) + if Nearer(dir, e, s) then {m} else {}
    ensures OnEdge(u[m := s], e) <==> OnEdge(u, e) || s == e
  {
    var u' := u[m := s];
    if s == e { assert u'[m] == e; }
    if k :| k in u && u[k] == e { assert u'[k] == e; }
  }

  class PikaCache {
    const cfg: Config
    // the key's entry in the cache; the empty set when there is none
    var cache: ZSet

    constructor (cfg: Config)
      ensures this.cfg == cfg && cache == map[]
    {
      this.cfg, cache := cfg, map[];
    }

    /** Trims the cached set to the number of members a key may have. */
    method CleanCacheKeyIfNeeded()
      modifies this
      ensures cache == Trim(cfg.dir, old(cache), cfg.num)
    {
      var cacheLen := |cache|;
      if cacheLen > cfg.num {
        var start, stop := 0, 0;
        if cfg.dir == FromBegin {
          start, stop := -cacheLen + cfg.num, -1;
        } else {
          start, stop := 0, cacheLen - cfg.num - 1;
        }
        cache := RemRank(cache, start, stop);
      }
    }

    /** The cache's part of ZADD. */
    method ZAddIfKeyExist(sms: seq<Elem>) returns (s: Status)
      modifies this
      ensures cache == ZAddStep(cfg, old(cache), Assigned(sms))
      ensures s == if old(cache) == map[] then NotFound else Ok
    {
      if cache == map[] {
        return NotFound;
      }
      hide Order, Trim, TakeIn;
      var new_ := FilterLast(sms);
      var min, max := GetMinMaxScore(new_, ZSET_SCORE_MIN, ZSET_SCORE_MAX);
      var found, cacheMin, cacheMax := GetCacheMinMax(cache);
      EdgeUnique(cfg.dir, cache, if cfg.dir == FromBegin then cacheMax else cacheMin, Edge(cfg.dir, cache));
      TakeInScores(new_, min, max, cacheMin, cacheMax);
      CleanCacheKeyIfNeeded();
      return Ok;
    }

    /** Takes in the new scores within the edge of the window and throws out those beyond it. */
    method TakeInScores(new_: seq<Elem>, min: real, max: real, cacheMin: real, cacheMax: real)
      requires Distinct(new_) && (forall x | x in new_ :: min <= x.score <= max)
      requires new_ != [] ==> (exists x | x in new_ :: x.score == min) && (exists x | x in new_ :: x.score == max)
      modifies this
      ensures cache == TakeIn(cfg, old(cache), Assigned(new_), if cfg.dir == FromBegin then cacheMax else cacheMin)
    {
      hide WithinEdge, BeyondEdge, OnEdge, CutBeyond;
      var e := if cfg.dir == FromBegin then cacheMax else cacheMin;
      AllNearer(cfg.dir, new_, e, min, max);
      if (if cfg.dir == FromBegin then max < cacheMax else min > cacheMin) {
        cache := cache + Assigned(new_);
      } else {
        var can, beyond, onEdge := SplitAtEdge(cfg.dir, new_, e);
        if can != [] {
          cache := cache + Assigned(can);
          cache := CutBeyond(cfg, cache, onEdge, e);
        }
        if beyond != {} {
          cache := cache - beyond;
        }
        NothingToSplit(cfg.dir, e);
      }
    }

    /** Throws the cached set away when it has become too small for the database's. */
    method ReloadCacheKeyIfNeeded(memLen: int, dbLen: int, dbCard: nat) returns (reload: bool)
      requires memLen >= -1 && dbLen >= -1
      modifies this
      ensures cache == Reloaded(cfg.num, old(cache), if memLen == -1 then |old(cache)| else memLen, if dbLen == -1 then dbCard else dbLen)
      ensures reload <==> ShouldReload(cfg.num, if memLen == -1 then |old(cache)| else memLen, if dbLen == -1 then dbCard else dbLen)
    {
      var mem := if memLen == -1 then |cache| else memLen;
      var db := if dbLen == -1 then dbCard else dbLen;
      if dbLen == -1 && db == 0 {
        return false;
      }
      if db < cfg.num {
        if mem * 2 < db {
          cache := map[];
          return true;
        }
      } else if cfg.num != 0 && mem * 2 < cfg.num {
        cache := map[];
        return true;
      }
      return false;
    }

    /** The cache's part of ZINCRBY, given the score that the database reports. */
    method ZIncrbyIfKeyExist(m: string, increment: real, resOk: bool, score: real, dbCard: nat) returns (s: Status)
      modifies this
      ensures resOk ==> cache == ZIncrbyStep(cfg, old(cache), dbCard, m, increment, score)
      ensures !resOk ==> cache == old(cache)
    {
      if -EPSILON < increment < EPSILON || !resOk {
        return NotFound;
      }
      var cacheLen := |cache|;
      var found, cacheMin, cacheMax := GetCacheMinMax(cache);
      if !found {
        return NotFound;
      }
      hide Order, Trim, RemScore, ShouldReload;
      var e := if cfg.dir == FromBegin then cacheMax else cacheMin;
      EdgeUnique(cfg.dir, cache, e, Edge(cfg.dir, cache));
      if Nearer(cfg.dir, score, e) {
        cache := cache[m := score];
        CleanCacheKeyIfNeeded();
      } else {
        cache := cache - {m};
        if score == e {
          cache := RemScore(cache, ScoreRange(Incl(e), Incl(e)));
        }
        var _ := ReloadCacheKeyIfNeeded(cacheLen, -1, dbCard);
      }
      return Ok;
    }

    method ZRem(members: set<string>, dbCard: nat)
      modifies this
      ensures cache == Reloaded(cfg.num, old(cache) - members, |old(cache) - members|, dbCard)
    {
      cache := cache - members;
      var _ := ReloadCacheKeyIfNeeded(-1, -1, dbCard);
    }

    /** The cache's part of ZREMRANGEBYSCORE, with the range it is handed; None if its bounds are refused. */
    method ZRemrangebyscore(handed: Wrappers.Option<ScoreRange>, dbCard: nat)
      modifies this
      ensures cache == ZRemScoreStep(cfg, old(cache), dbCard, handed)
    {
      if handed.Some? {
        cache := RemScore(cache, handed.value);
      }
      assert cache == old(cache) - ScoresGone(old(cache), handed);
      var _ := ReloadCacheKeyIfNeeded(-1, -1, dbCard);
    }

    method CacheSizeEqsDB(dbCard: nat) returns (b: bool)
      ensures b <==> ZSetSteps.CacheSizeEqsDB(dbCard, |cache|)
    {
      var cacheLen := |cache|;
      b := dbCard == cacheLen && cacheLen != 0;
    }

    method ZRemrangebylex(handed: Wrappers.Option<LexRange>, dbCard: nat) returns (s: Status)
      modifies this
      ensures cache == ZRemLexStep(old(cache), dbCard, handed)
    {
      var whole := CacheSizeEqsDB(dbCard);
      if !whole {
        return NotFound;
      }
      if handed.Some? {
        cache := map m | m in cache && !InLex(m, handed.value) :: cache[m];
      }
      return Ok;
    }

    /** The cache's part of ZREMRANGEBYRANK, after the database has lost `deleted` members. */
    method ZRemrangebyrank(start: int, stop: int, deleted: int, dbCard: nat) returns (s: Status)
      modifies this
      ensures cache == ZRemRankStep(cfg, old(cache), dbCard, deleted, start, stop)
    {
      hide Int32, RemRank, Reloaded, Rank;
      var cacheLen := |cache|;
      if cacheLen <= 0 {
        return NotFound;
      }
      var dbLen := dbCard + deleted;
      var startIndex := Int32(if start >= 0 then start else dbLen + start);
      var stopIndex := Int32(if stop >= 0 then stop else dbLen + stop);
      startIndex := if startIndex <= 0 then 0 else startIndex;
      stopIndex := if stopIndex >= dbLen then dbLen - 1 else stopIndex;
      if startIndex > stopIndex {
        return NotFound;
      }
      if cfg.dir == FromBegin {
        if startIndex > cacheLen {
          return NotFound;
        }
        cache := RemRank(cache, startIndex, stopIndex);
      } else {
        if cacheLen > dbLen || stopIndex < dbLen - cacheLen {
          return NotFound;
        }
        var cacheMin := startIndex - (dbLen - cacheLen);
        var cacheMax := stopIndex - (dbLen - cacheLen);
        cacheMin := if cacheMin <= 0 then 0 else cacheMin;
        cacheMax := if cacheMax >= cacheLen then cacheLen - 1 else cacheMax;
        cache := RemRank(cache, cacheMin, cacheMax);
      }
      var _ := ReloadCacheKeyIfNeeded(cacheLen, dbLen - deleted, dbCard);
      return Ok;
    }

    /** Takes the first `count` members of the cached order; a negative count, read as unsigned, takes them all. */
    method ZPopMin(count: int) returns (s: Status)
      modifies this
      ensures cache == PoppedMin(old(cache), count) && (s == NotFound <==> old(cache) == map[])
      ensures Order(cache) == Order(old(cache))[if 0 <= count <= |old(cache)| then count else |old(cache)|..]
    {
      hide PopMin, Order;
      NoOrder();
      if cache == map[] {
        NothingToPop(if count < 0 then 0 else count);
        return NotFound;
      }
      if count >= 0 {
        PopMinOrder(cache, count);
      }
      cache := if count < 0 then map[] else PopMin(cache, count);
      return Ok;
    }

    /** Takes the last `count` members of the cached order; a negative count, read as unsigned, takes them all. */
    method ZPopMax(count: int) returns (s: Status)
      modifies this
      ensures cache == PoppedMax(old(cache), count) && (s == NotFound <==> old(cache) == map[])
      ensures Order(cache) == Order(old(cache))[..if 0 <= count <= |old(cache)| then |old(cache)| - count else 0]
    {
      hide PopMax, Order;
      NoOrder();
      if cache == map[] {
        NothingToPop(if count < 0 then 0 else count);
        return NotFound;
      }
      if count >= 0 {
        PopMaxOrder(cache, count);
      }
      cache := if count < 0 then map[] else PopMax(cache, count);
      return Ok;
    }

    /** The load thread's part: writes the cached end of a set that is not cached yet. */
    method LoadZset(db: ZSet, ttl: int, keyTooLong: bool) returns (loaded: bool)
      modifies this
      ensures loaded <==> db != map[] && !keyTooLong
      ensures !loaded ==> cache == old(cache)
      ensures loaded && old(cache) == map[] && ttl != -1 && ttl <= 0 ==> cache == map[]
      ensures loaded && (ttl == -1 || ttl > 0 || old(cache) != map[]) ==> cache == Load(cfg, db, old(cache))
    {
      var len := |db|;
      if 0 >= len || keyTooLong {
        return false;
      }
      if |cache| != 0 {
        return true;
      }
      var startIndex, stopIndex := 0, -1;
      if cfg.dir == FromBegin {
        if cfg.num <= len {
          stopIndex := cfg.num - 1;
        }
      } else {
        if cfg.num <= len {
          startIndex := len - cfg.num;
        }
      }
      cache := if ttl > 0 || ttl == -1 then TakeRank(db, startIndex, stopIndex) else map[];
      return true;
    }
  }

  /** One command on a key: the database first, then its cache, as the run of commands has it. */
  method Execute(c: PikaCache, db: ZSet, op: Op) returns (db': ZSet)
    modifies c
    ensures Pair(db', c.cache) == Step(c.cfg, Pair(db, old(c.cache)), op)
  {
    hide DbStep, CacheStep;
    db' := DbStep(db, op);
    match op
    case Zadd(_) => UpdateScores(c, db, db', op);
    case Zincrby(_, _) => UpdateScores(c, db, db', op);
    case Zpopmin(_) => UpdatePopped(c, db, db', op);
    case Zpopmax(_) => UpdatePopped(c, db, db', op);
    case Store(_) => UpdateWhole(c, db, db', op);
    case LoadKey => UpdateWhole(c, db, db', op);
    case DropKey => UpdateWhole(c, db, db', op);
    case _ => UpdateRemoved(c, db, db', op);
  }

  method UpdateScores(c: PikaCache, db: ZSet, db': ZSet, op: Op)
    requires op.Zadd? || op.Zincrby?
    modifies c
    ensures c.cache == CacheStep(c.cfg, db, db', old(c.cache), op)
  {
    hide ZAddStep, ZIncrbyStep, Assigned, Incremented;
    match op
    case Zadd(sms) => var _ := c.ZAddIfKeyExist(sms);
    case Zincrby(m, increment) =>
      var _ := c.ZIncrbyIfKeyExist(m, increment, true, Incremented(db, m, increment), |db'|);
  }

  method UpdateRemoved(c: PikaCache, db: ZSet, db': ZSet, op: Op)
    requires op.Zrem? || op.Zremrangebyscore? || op.Zremrangebylex? || op.Zremrangebyrank?
    modifies c
    ensures c.cache == CacheStep(c.cfg, db, db', old(c.cache), op)
  {
    hide ZRemScoreStep, ZRemLexStep, ZRemRankStep, Reloaded;
    match op
    case Zrem(members) =>
      if db' != db {
        c.ZRem(members, |db'|);
      }
    case Zremrangebyscore(_, handed) => c.ZRemrangebyscore(handed, |db'|);
    case Zremrangebylex(_, handed) => var _ := c.ZRemrangebylex(handed, |db'|);
    case Zremrangebyrank(start, stop, deleted) => var _ := c.ZRemrangebyrank(start, stop, deleted, |db'|);
  }

  method UpdatePopped(c: PikaCache, db: ZSet, db': ZSet, op: Op)
    requires op.Zpopmin? || op.Zpopmax?
    modifies c
    ensures c.cache == CacheStep(c.cfg, db, db', old(c.cache), op)
  {
    hide PoppedMin, PoppedMax, Order;
    match op
    case Zpopmin(count) => var _ := c.ZPopMin(count);
    case Zpopmax(count) => var _ := c.ZPopMax(count);
  }

  method UpdateWhole(c: PikaCache, db: ZSet, db': ZSet, op: Op)
    requires op.Store? || op.LoadKey? || op.DropKey?
    modifies c
    ensures c.cache == CacheStep(c.cfg, db, db', old(c.cache), op)
  {
    hide Load;
    if op.LoadKey? {
      var _ := c.LoadZset(db', -1, false);
    } else {
      c.cache := map[];
    }
  }

  /** Comparing the extreme new score with the edge compares all of them. */
  lemma {:induction false} AllNearer(dir: Direction, sms: seq<Elem>, e: real, min: real, max: real)
    requires Distinct(sms)
    requires forall x | x in sms :: min <= x.score <= max
    requires sms != [] ==> (exists x | x in sms :: x.score == min) && (exists x | x in sms :: x.score == max)
    ensures var u := Assigned(sms);
            sms != [] ==> ((forall m | m in u :: Nearer(dir, u[m], e)) <==> if dir == FromBegin then max < e else min > e)
  {
    var u := Assigned(sms);
    forall m | m in u
      ensures min <= u[m] <= max
    {
      AssignedKeys(sms, m);
      var i :| 0 <= i < |sms| && sms[i].member == m;
      AssignedDistinct(sms, i);
      assert sms[i] in sms;
    }
    if sms != [] {
      var x :| x in sms && x.score == if dir == FromBegin then max else min;
      var i :| 0 <= i < |sms| && sms[i] == x;
      AssignedDistinct(sms, i);
    }
  }

  lemma {:induction false} NoOrder()
    ensures Order(map[]) == []
  {
  }

  lemma {:induction false} NothingToPop(count: nat)
    ensures PopMin(map[], count) == map[] && PopMax(map[], count) == map[]
  {
  }
}
